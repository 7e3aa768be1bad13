/** upload-pds: the dry run, the statistics, and the upload through Transfer. */
module UploadPds {
  import opened Common
  import opened Pds
  import Transfer

  /** What the statistics count. */
  datatype Key = Agent(id: string) | Protocol(number: uint8) | Ipv4

  predicate Has(row: Row, key: Key) {
    match key
    case Agent(id) => row.agentId == id
    case Protocol(number) => row.protocol == number
    case Ipv4 => row.ipVersion == 4
  }

  function Count(rows: seq<Row>, key: Key): nat {
    if rows == [] then 0 else (if Has(rows[0], key) then 1 else 0) + Count(rows[1..], key)
  }

  lemma {:induction false} CountSnoc(rows: seq<Row>, row: Row, key: Key)
    ensures Count(rows + [row], key) == Count(rows, key) + (if Has(row, key) then 1 else 0)
  {
    if rows == [] {
      assert rows + [row] == [row] && [row][1..] == [];
    } else {
      assert (rows + [row])[0] == rows[0] && (rows + [row])[1..] == rows[1..] + [row];
      CountSnoc(rows[1..], row, key);
    }
  }

  function Lookup<K>(m: map<K, nat>, k: K): nat {
    if k in m then m[k] else 0
  }

  function Bump<K(!new)>(m: map<K, nat>, k: K): (r: map<K, nat>)
    ensures forall j :: j in r <==> j in m || j == k
    ensures forall j :: j in r ==> r[j] == Lookup(m, j) + (if j == k then 1 else 0)
  {
    m[k := Lookup(m, k) + 1]
  }

  ghost predicate Tallies(agents: map<string, nat>, protocols: map<uint8, nat>, rows: seq<Row>) {
    && (forall a :: Count(rows, Agent(a)) == Lookup(agents, a))
    && (forall p :: Count(rows, Protocol(p)) == Lookup(protocols, p))
  }

  lemma BumpKeepsTallies(agents: map<string, nat>, protocols: map<uint8, nat>, rows: seq<Row>, r: Row)
    requires Tallies(agents, protocols, rows)
    ensures Tallies(Bump(agents, r.agentId), Bump(protocols, r.protocol), rows + [r])
  {
    forall a
      ensures Count(rows + [r], Agent(a)) == Lookup(Bump(agents, r.agentId), a)
    {
      CountSnoc(rows, r, Agent(a));
    }
    forall p
      ensures Count(rows + [r], Protocol(p)) == Lookup(Bump(protocols, r.protocol), p)
    {
      CountSnoc(rows, r, Protocol(p));
    }
  }

  class PdStats {
    var rows: nat
    var ipv4: nat
    var ipv6: nat
    var agents: map<string, nat>
    var protocols: map<uint8, nat>
    var firstId: uint32
    var lastId: uint32
    ghost var seen: seq<Row>

    constructor ()
      ensures Valid() && seen == []
    {
      rows, ipv4, ipv6, agents, protocols, firstId, lastId, seen := 0, 0, 0, map[], map[], 0, 0, [];
    }

    /** Every counter is the count over the rows added. */
    ghost predicate Valid()
      reads this
    {
      && rows == |seen|
      && ipv4 == Count(seen, Ipv4) && ipv4 + ipv6 == rows
      && Tallies(agents, protocols, seen)
      && (seen != [] ==> firstId == seen[0].pdId && lastId == seen[|seen| - 1].pdId)
    }

    method Add(r: Row)
      requires Valid()
      modifies this
      ensures Valid() && seen == old(seen) + [r]
    {
      if rows == 0 {
        firstId := r.pdId;
        agents, protocols := map[], map[];
      }
      BumpKeepsTallies(agents, protocols, seen, r);
      CountSnoc(seen, r, Ipv4);
      rows := rows + 1;
      lastId := r.pdId;
      agents := Bump(agents, r.agentId);
      protocols := Bump(protocols, r.protocol);
      if r.ipVersion == 4 {
        ipv4 := ipv4 + 1;
      } else {
        ipv6 := ipv6 + 1;
      }
      seen := seen + [r];
    }
  }

  datatype UploadError = Stopped(stop: Stop) | NoPds | BatchTooSmall | TransferError(cause: Transfer.Error)
    | WrongCount(found: nat, sent: nat)

  /** dryRunPDs: it succeeds exactly when the upload can read the whole file,
      and counts exactly the rows the file issues. */
  method DryRun(reader: Reader) returns (r: Result<PdStats, UploadError>)
    requires reader.Valid()
    modifies reader
    ensures var file := old(reader.Remaining());
      && (file.stop != EndOfFile ==> r == Err(Stopped(file.stop)))
      && (file.stop == EndOfFile && file.rows == [] ==> r == Err(NoPds))
      && (file.stop == EndOfFile && file.rows != [] ==> r.Ok? && fresh(r.value) && r.value.Valid() && r.value.seen == file.rows)
  {
    var stats := new PdStats();
    ghost var file := reader.Remaining();
    while true
      invariant reader.Valid() && stats.Valid() && fresh(stats)
      invariant file == Stream(stats.seen + reader.Remaining().rows, reader.Remaining().stop)
      decreases |reader.Remaining().rows|
    {
      var next := reader.Next();
      if next.Err? {
        if next.error != EndOfFile {
          return Err(Stopped(next.error));
        }
        break;
      }
      stats.Add(next.value);
    }
    if stats.rows == 0 {
      return Err(NoPds);
    }
    return Ok(stats);
  }

  /** What transferPDs transfers: the rows up to the first stop, ending well
      only at the end of the file. */
  function ConfigOf(file: Stream, batchSize: nat): Transfer.Config<Row> {
    Transfer.Config(file.rows, file.stop.EndOfFile?, batchSize)
  }

  /** upload-pds under any interleaving, failure or cancellation. On success the
      table holds exactly the rows the dry run counts, which are those of all
      non-blank lines, with consecutive IDs. On failure it holds a prefix of the
      rows before the first refused line, whether or not the server kept the
      batch whose insert failed. It succeeds whenever the whole file can be read,
      is not empty and nothing outside fails. */
  method RunUploadPds(lines: seq<Line>, scanFails: bool, firstId: uint32, batchSize: int,
                      schedule: Transfer.Config<Row> -> Transfer.Scheduler<Row>)
    returns (r: Result<nat, UploadError>, table: seq<Row>, unconfirmed: seq<Row>)
    requires Transfer.AlwaysAdmissible(schedule)
    ensures batchSize < 1 ==> r == Err(BatchTooSmall) && table == [] && unconfirmed == []
    ensures r.Ok? ==>
      && table == Issued(lines, firstId) && r.value == |table| == NonBlank(lines) > 0 && unconfirmed == []
      && Rest(lines, 0, firstId, scanFails) == Stream(table, EndOfFile)
      && (forall l :: l in lines ==> l.Blank? || Accepted(l))
      && (forall i :: 0 <= i < |table| ==> table[i].pdId == firstId + i)
    ensures table + unconfirmed <= Rest(lines, 0, firstId, scanFails).rows <= Issued(lines, firstId)
    ensures batchSize >= 1 ==> r.Ok? || r.error.TransferError? || r.error.NoPds?
    ensures Transfer.NobodyCancels(schedule) ==> r != Err(TransferError(Transfer.Error.Canceled))
    ensures r == Err(TransferError(Transfer.InsertFailed)) ==> unconfirmed != []
    ensures r == Err(NoPds) ==> Rest(lines, 0, firstId, scanFails) == Stream([], EndOfFile)
    ensures batchSize >= 1 && Transfer.AlwaysQuiet(schedule) ==>
      var file := Rest(lines, 0, firstId, scanFails);
      file.stop == EndOfFile ==> if file.rows == [] then r == Err(NoPds) else r.Ok?
  {
    table, unconfirmed := [], [];
    if batchSize < 1 {
      RestIsIssued(lines, 0, firstId, scanFails);
      assert lines[0..] == lines;
      return Err(BatchTooSmall), [], [];
    }
    RestIsIssued(lines, 0, firstId, scanFails);
    assert lines[0..] == lines;
    var reader := new Reader(lines, scanFails, firstId);
    var rows, stop := ReadAll(reader);
    var config := ConfigOf(Stream(rows, stop), batchSize);
    var s := Transfer.Execute(config, schedule(config));
    table, unconfirmed := Flatten(s.inserted), s.inflight;
    var sent := s.sent;
    if s.first.Some? {
      return Err(TransferError(s.first.value)), table, unconfirmed;
    }
    if sent == 0 {
      return Err(NoPds), table, unconfirmed;
    }
    r := CheckCount(|table|, sent, WrongCount(|table|, sent));
    forall i | 0 <= i < |table|
      ensures table[i].pdId == firstId + i
    {
      IssuedIdsAreConsecutive(lines, firstId, i);
    }
    IssuedCountsNonBlank(lines, firstId);
  }

  /** The rows Next returns before it first fails, and that failure. */
  method ReadAll(reader: Reader) returns (rows: seq<Row>, stop: Stop)
    requires reader.Valid()
    modifies reader
    ensures Stream(rows, stop) == old(reader.Remaining())
  {
    rows := [];
    ghost var file := reader.Remaining();
    while true
      invariant reader.Valid()
      invariant file == Stream(rows + reader.Remaining().rows, reader.Remaining().stop)
      decreases |reader.Remaining().rows|
    {
      var next := reader.Next();
      if next.Err? {
        return rows, next.error;
      }
      rows := rows + [next.value];
    }
  }
}
