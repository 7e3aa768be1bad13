/** The reader of PD files: which lines it accepts and which IDs it gives. */
module Pds {
  import opened Common

  const ICMP := 1
  const UDP := 17
  const ICMPV6 := 58

  /** The largest 32-bit ID, which is never given. */
  const LAST_ID: uint32 := 0xffff_ffff

  datatype Row = Row(
    pdId: uint32, agentId: string, ipVersion: uint8, protocol: uint8, destination: seq<uint8>,
    nearTtl: uint8, firstHalfWord: uint16, secondHalfWord: uint16)

  /** An address as netip parses it. */
  datatype Addr = V4(bytes: seq<uint8>) | V6(bytes: seq<uint8>, zone: string)

  const MAPPED_PREFIX: seq<uint8> := [0, 0, 0, 0, 0, 0, 0, 0, 0, 0, 0xff, 0xff]

  function Unmap(a: Addr): Addr {
    if a.V6? && |a.bytes| == 16 && a.bytes[..12] == MAPPED_PREFIX then V4(a.bytes[12..]) else a
  }

  function To16(a: Addr): seq<uint8> {
    if a.V4? then MAPPED_PREFIX + a.bytes else a.bytes
  }

  /** The fields of one JSON line; address is None when it does not parse. */
  datatype Directive = Directive(
    protocol: int, agentId: string, address: Option<Addr>, nearTtl: uint8,
    icmp: Option<(uint16, uint16)>, icmpv6: Option<(uint16, uint16)>, udp: Option<(uint16, uint16)>)

  /** A line of the file, without the spaces around it. */
  datatype Line = Blank | Malformed | Json(d: Directive)

  datatype Refusal = InvalidJson | EmptyAgent | BadAddress | BadProtocol

  function Parse(line: Line, id: uint32): Result<Row, Refusal>
    requires !line.Blank?
  {
    if line.Malformed? then Err(InvalidJson)
    else
      var d := line.d;
      if d.agentId == "" then Err(EmptyAgent)
      else if d.address.None? || (d.address.value.V6? && d.address.value.zone != "") then Err(BadAddress)
      else
        var addr := Unmap(d.address.value);
        var version := if addr.V4? then 4 else 6;
        if d.protocol == ICMP && d.icmp.Some? then
          Ok(Row(id, d.agentId, version, ICMP, To16(addr), d.nearTtl, d.icmp.value.0, 0))
        else if d.protocol == ICMPV6 && d.icmpv6.Some? then
          Ok(Row(id, d.agentId, version, ICMPV6, To16(addr), d.nearTtl, d.icmpv6.value.0, 0))
        else if d.protocol == UDP && d.udp.Some? then
          Ok(Row(id, d.agentId, version, UDP, To16(addr), d.nearTtl, d.udp.value.0, d.udp.value.1))
        else Err(BadProtocol)
  }

  /** Whether a line is accepted, and what it becomes, does not depend on its
      ID. */
  lemma ParseIsUniform(line: Line, i: uint32, j: uint32)
    requires !line.Blank?
    ensures Parse(line, i).Ok? <==> Parse(line, j).Ok?
    ensures Parse(line, i).Ok? ==> Parse(line, i).value.pdId == i
    ensures Parse(line, i).Ok? ==> Parse(line, j).value == Parse(line, i).value.(pdId := j)
  {
  }

  /** The 16 bytes of ::ffff:a for a 4-byte address a, and a 16-byte address. */
  predicate IsMapped(b: seq<uint8>) {
    |b| == 16 && b[..12] == [0, 0, 0, 0, 0, 0, 0, 0, 0, 0, 0xff, 0xff]
  }

  predicate IsDestination(a: Addr, b: seq<uint8>) {
    if a.V4? then IsMapped(b) && b[12..] == a.bytes else b == a.bytes
  }

  /** The header of a row: for ICMP (1) and ICMPv6 (58) the first half-word and
      zero, for UDP (17) the two ports. */
  predicate DescribesHeader(d: Directive, r: Row) {
    || (r.protocol == 1 && d.icmp.Some? && r.firstHalfWord == d.icmp.value.0 && r.secondHalfWord == 0)
    || (r.protocol == 58 && d.icmpv6.Some? && r.firstHalfWord == d.icmpv6.value.0 && r.secondHalfWord == 0)
    || (r.protocol == 17 && d.udp == Some((r.firstHalfWord, r.secondHalfWord)))
  }

  /** r is a row that the orchestrator would store for d: the address in 16
      bytes, of version 4 exactly when they are a mapped IPv4 address. */
  predicate Describes(d: Directive, r: Row) {
    && r.agentId == d.agentId != ""
    && d.address.Some? && (d.address.value.V6? ==> d.address.value.zone == "")
    && IsDestination(d.address.value, r.destination)
    && r.ipVersion == (if IsMapped(r.destination) then 4 else 6)
    && r.nearTtl == d.nearTtl
    && r.protocol == d.protocol && DescribesHeader(d, r)
  }

  /** Parse accepts a directive exactly when some row describes it, and returns
      the only such row of the given ID. */
  lemma ParseExactly(d: Directive, id: uint32, r: Row)
    requires d.address.Some? ==> |d.address.value.bytes| == if d.address.value.V4? then 4 else 16
    ensures Parse(Json(d), id) == Ok(r) <==> r.pdId == id && Describes(d, r)
  {
    if d.address.Some? {
      var a := d.address.value;
      assert a.V4? ==> To16(a)[..12] == MAPPED_PREFIX && To16(a)[12..] == a.bytes;
      assert |r.destination| == 16 ==> r.destination == r.destination[..12] + r.destination[12..];
      assert To16(Unmap(a)) == To16(a) by {
        if a.V6? && a.bytes[..12] == MAPPED_PREFIX {
          assert a.bytes == a.bytes[..12] + a.bytes[12..];
        }
      }
    }
  }

  predicate Accepted(line: Line) {
    !line.Blank? && Parse(line, 0).Ok?
  }

  // ----- What the file means -----

  /** The rows of the accepted lines, with consecutive IDs from id on, as long as
      IDs are left. */
  function Issued(lines: seq<Line>, id: uint32): seq<Row> {
    if lines == [] then []
    else if !Accepted(lines[0]) || id == LAST_ID then Issued(lines[1..], id)
    else [Parse(lines[0], id).value] + Issued(lines[1..], id + 1)
  }

  lemma {:induction false} IssuedFits(lines: seq<Line>, id: uint32)
    ensures id + |Issued(lines, id)| <= LAST_ID
  {
    if lines != [] {
      IssuedFits(lines[1..], if !Accepted(lines[0]) || id == LAST_ID then id else id + 1);
    }
  }

  /** What a line adds when next is the next ID. */
  function IssuedOne(line: Line, next: uint32): seq<Row> {
    if Accepted(line) && next != LAST_ID then [Parse(line, next).value] else []
  }

  lemma {:induction false} IssuedSnoc(lines: seq<Line>, id: uint32, line: Line)
    ensures id + |Issued(lines, id)| <= LAST_ID
    ensures Issued(lines + [line], id) == Issued(lines, id) + IssuedOne(line, id + |Issued(lines, id)|)
  {
    IssuedFits(lines, id);
    if lines == [] {
      assert lines + [line] == [line] && [line][1..] == [];
      assert Issued([line], id) == IssuedOne(line, id);
    } else {
      var first, rest := lines[0], lines[1..];
      assert (lines + [line])[0] == first && (lines + [line])[1..] == rest + [line];
      if !Accepted(first) || id == LAST_ID {
        IssuedSnoc(rest, id, line);
      } else {
        IssuedSnoc(rest, id + 1, line);
        var row, rows := Parse(first, id).value, Issued(rest, id + 1);
        var more := IssuedOne(line, id + 1 + |rows|);
        assert [row] + (rows + more) == ([row] + rows) + more;
      }
    }
  }

  /** The i-th row issued has ID id + i, without wrapping, never the last ID. */
  lemma {:induction false} IssuedIdsAreConsecutive(lines: seq<Line>, id: uint32, i: nat)
    requires i < |Issued(lines, id)|
    ensures Issued(lines, id)[i].pdId == id + i && id + i < LAST_ID
  {
    if !Accepted(lines[0]) || id == LAST_ID {
      IssuedIdsAreConsecutive(lines[1..], id, i);
    } else if i > 0 {
      ParseIsUniform(lines[0], id, 0);
      IssuedIdsAreConsecutive(lines[1..], id + 1, i - 1);
    } else {
      ParseIsUniform(lines[0], id, 0);
    }
  }

  function NonBlank(lines: seq<Line>): nat {
    if lines == [] then 0 else (if lines[0].Blank? then 0 else 1) + NonBlank(lines[1..])
  }

  /** As many rows are issued as there are non-blank lines exactly when none of
      these was refused and the IDs did not run out: only then does a row's
      place among the non-blank lines give its ID. */
  lemma {:induction false} IssuedCountsNonBlank(lines: seq<Line>, id: uint32)
    ensures |Issued(lines, id)| <= NonBlank(lines)
    ensures |Issued(lines, id)| == NonBlank(lines) <==>
      (forall l :: l in lines ==> l.Blank? || Accepted(l)) && id + NonBlank(lines) <= LAST_ID
  {
    if lines != [] {
      IssuedCountsNonBlank(lines[1..], id);
      if id < LAST_ID {
        IssuedCountsNonBlank(lines[1..], id + 1);
      }
      assert forall l :: l in lines <==> l == lines[0] || l in lines[1..];
    }
  }

  ghost predicate NoneRefused(lines: seq<Line>) {
    forall l :: l in lines ==> l.Blank? || Accepted(l)
  }

  /** Without refusals, every non-blank line is issued until the IDs run out. */
  lemma {:induction false} IssuedWithoutRefusals(lines: seq<Line>, id: uint32)
    requires NoneRefused(lines)
    ensures |Issued(lines, id)| == Min(NonBlank(lines), 0xffff_ffff - id)
  {
    if lines != [] {
      var first, rest := lines[0], lines[1..];
      assert first in lines && NoneRefused(rest);
      if first.Blank? || id == LAST_ID {
        assert Issued(lines, id) == Issued(rest, id);
        IssuedWithoutRefusals(rest, id);
      } else {
        assert |Issued(lines, id)| == 1 + |Issued(rest, id + 1)|;
        IssuedWithoutRefusals(rest, id + 1);
      }
    }
  }

  // ----- The reader -----

  datatype Stop = EndOfFile | Refused(line: nat, id: uint32, why: Refusal) | TooManyIds(line: nat) | ScanFailed(line: nat)

  /** The rows of the lines from n on up to the first stop, and that stop. */
  datatype Stream = Stream(rows: seq<Row>, stop: Stop)

  function Rest(lines: seq<Line>, n: nat, id: uint32, scanFails: bool): Stream
    requires n <= |lines|
    decreases |lines| - n
  {
    if n == |lines| then Stream([], if scanFails then ScanFailed(n) else EndOfFile)
    else if lines[n].Blank? then Rest(lines, n + 1, id, scanFails)
    else
      var r := Parse(lines[n], id);
      if r.Err? then Stream([], Refused(n + 1, id, r.error))
      else if id == LAST_ID then Stream([], TooManyIds(n + 1))
      else
        var tail := Rest(lines, n + 1, id + 1, scanFails);
        Stream([r.value] + tail.rows, tail.stop)
  }

  /** What is read before the first stop is what the lines before it issue; at
      the end of the file this is every non-blank line. */
  lemma {:induction false} RestIsIssued(lines: seq<Line>, n: nat, id: uint32, scanFails: bool)
    requires n <= |lines|
    ensures var s := Rest(lines, n, id, scanFails);
      && s.rows <= Issued(lines[n..], id)
      && (s.stop.EndOfFile? || s.stop.ScanFailed? ==> s.rows == Issued(lines[n..], id) && |s.rows| == NonBlank(lines[n..]))
    decreases |lines| - n
  {
    if n < |lines| {
      assert lines[n..][0] == lines[n] && lines[n..][1..] == lines[n + 1..];
      if lines[n].Blank? {
        RestIsIssued(lines, n + 1, id, scanFails);
      } else {
        ParseIsUniform(lines[n], id, 0);
        if Parse(lines[n], id).Ok? && id < LAST_ID {
          RestIsIssued(lines, n + 1, id + 1, scanFails);
        }
      }
    }
  }

  class Reader {
    const lines: seq<Line>
    const scanFails: bool
    const firstId: uint32
    var nextId: uint32
    var line: nat
    ghost var returned: seq<Row>

    constructor (lines: seq<Line>, scanFails: bool, firstId: uint32)
      ensures Valid() && this.lines == lines && this.scanFails == scanFails && this.firstId == firstId
      ensures returned == [] && Remaining() == Rest(lines, 0, firstId, scanFails)
    {
      this.lines, this.scanFails, this.firstId := lines, scanFails, firstId;
      nextId, line, returned := firstId, 0, [];
    }

    /** Whatever calls were made: the rows returned are those issued by the lines
        scanned, and the next ID follows them. */
    ghost predicate Valid()
      reads this
    {
      && line <= |lines|
      && returned == Issued(lines[..line], firstId)
      && nextId == firstId + |returned|
    }

    function Remaining(): Stream
      requires line <= |lines|
      reads this
    {
      Rest(lines, line, nextId, scanFails)
    }

    method Next() returns (r: Result<Row, Stop>)
      requires Valid()
      modifies this
      ensures Valid() && line >= old(line)
      ensures r.Ok? ==> returned == old(returned) + [r.value] && r.value.pdId == old(nextId) < LAST_ID
      ensures r.Ok? && NoneRefused(lines[..line - 1]) ==> r.value.pdId == firstId + NonBlank(lines[..line - 1])
      ensures r.Ok? ==> old(Remaining()) == Stream([r.value] + Remaining().rows, Remaining().stop)
      ensures r.Err? ==> returned == old(returned) && old(Remaining()) == Stream([], r.error)
    {
      while line < |lines|
        invariant Valid() && line >= old(line) && nextId == old(nextId) && returned == old(returned)
        invariant old(Remaining()) == Remaining()
      {
        var data := lines[line];
        assert lines[..line + 1] == lines[..line] + [data];
        IssuedSnoc(lines[..line], firstId, data);
        line := line + 1;
        if data.Blank? {
          continue;
        }
        ParseIsUniform(data, nextId, 0);
        var row := Parse(data, nextId);
        if row.Err? {
          return Err(Refused(line, nextId, row.error));
        }
        if nextId == LAST_ID {
          return Err(TooManyIds(line));
        }
        if NoneRefused(lines[..line - 1]) {
          IssuedWithoutRefusals(lines[..line - 1], firstId);
        }
        nextId := nextId + 1;
        returned := returned + [row.value];
        return Ok(row.value);
      }
      if scanFails {
        return Err(ScanFailed(line));
      }
      return Err(EndOfFile);
    }
  }
}
