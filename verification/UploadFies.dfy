/**
 upload-fies from the files found in the directory to the table: the selection
 of FieSource feeding the pipeline of Transfer.
 */
module UploadFies {
  import opened Common
  import opened FieRow
  import opened FieSource
  import Transfer

  datatype UploadError =
    | NegativeOffset
    | BatchTooSmall
    | BadFilter
    | NoFiles
    | TransferError(cause: Transfer.Error)
    | WrongCount(found: nat, sent: nat)

  function Converted(rows: seq<Raw2a>, intervalStart: int): (r: seq<Row>)
    ensures |r| == |rows| && forall i :: 0 <= i < |rows| ==> r[i] == Convert2a(rows[i], intervalStart)
  {
    Map(raw => Convert2a(raw, intervalStart), rows)
  }

  /** What upload-fies promises to insert: filter the rows of every file,
      concatenate them in interval order, then skip and limit. */
  function NaiveUpload(filter: RowFilter, hash: Hash, ordered: seq<File>, offset: nat, limit: int): seq<Row> {
    Cut(Flatten(NaiveBlocks(filter, hash, ordered)), offset, limit)
  }

  function NaiveBlocks(filter: RowFilter, hash: Hash, files: seq<File>): (r: seq<seq<Row>>)
    ensures |r| == |files|
    ensures forall i :: 0 <= i < |files| ==>
      r[i] == Converted(NaiveRows(filter, hash, files[i]), files[i].intervalStart)
  {
    Map((f: File) => Converted(NaiveRows(filter, hash, f), f.intervalStart), files)
  }

  /** What the code reads from each file it kept, without offset and limit. */
  function FastBlocks(filter: RowFilter, hash: Hash, files: seq<File>): (r: seq<seq<Row>>)
    ensures |r| == |files|
    ensures forall i :: 0 <= i < |files| ==>
      r[i] == Converted(Selected(filter, hash, files[i]), files[i].intervalStart)
  {
    Map((f: File) => Converted(Selected(filter, hash, f), f.intervalStart), files)
  }

  ghost predicate Plans(filter: RowFilter, hash: Hash, kept: seq<File>, planned: seq<File>) {
    |planned| == |kept| && forall i :: 0 <= i < |kept| ==> planned[i] == Planned(filter, hash, kept[i])
  }

  /** rows are those of the first i reads of the plan. */
  ghost predicate Gathered<T>(blocks: seq<seq<T>>, plan: seq<Read>, i: nat, rows: seq<T>)
    requires FitsBlocks(blocks, plan)
  {
    && i <= |plan|
    && FitsBlocks(blocks, plan[i..])
    && rows + Gather(blocks, plan[i..]) == Gather(blocks, plan)
  }

  lemma {:induction false} GatherStep<T>(blocks: seq<seq<T>>, plan: seq<Read>, i: nat, rows: seq<T>, read: seq<T>)
    requires FitsBlocks(blocks, plan) && i < |plan| && Gathered(blocks, plan, i, rows)
    requires plan[i].file < |blocks| && plan[i].offset + plan[i].limit <= |blocks[plan[i].file]|
    requires read == blocks[plan[i].file][plan[i].offset..plan[i].offset + plan[i].limit]
    ensures Gathered(blocks, plan, i + 1, rows + read)
  {
    GatherFrom(blocks, plan, i);
  }

  /** The rows the producer reads, one read after the other. */
  method ReadAll(src: Source, plan: seq<Read>) returns (rows: seq<Row>)
    requires FitsBlocks(FastBlocks(src.filter, src.hash, src.files), plan)
    ensures rows == Gather(FastBlocks(src.filter, src.hash, src.files), plan)
  {
    rows := [];
    ghost var blocks := FastBlocks(src.filter, src.hash, src.files);
    var i := 0;
    assert plan[0..] == plan;
    while i < |plan|
      invariant 0 <= i <= |plan| && Gathered(blocks, plan, i, rows)
    {
      assert plan[i] in plan;
      var read := ReadOne(src, plan[i]);
      GatherStep(blocks, plan, i, rows, read);
      rows := rows + read;
      i := i + 1;
    }
  }

  method ReadOne(src: Source, r: Read) returns (rows: seq<Row>)
    requires r.file < |src.files|
    requires r.offset + r.limit <= |FastBlocks(src.filter, src.hash, src.files)[r.file]|
    ensures rows == FastBlocks(src.filter, src.hash, src.files)[r.file][r.offset..r.offset + r.limit]
  {
    rows := Converted(src.Rows(r), src.files[r.file].intervalStart);
  }

  lemma GatherFrom<T>(blocks: seq<seq<T>>, plan: seq<Read>, i: nat)
    requires FitsBlocks(blocks, plan) && i < |plan|
    ensures FitsBlocks(blocks, plan[i..]) && FitsBlocks(blocks, plan[i + 1..])
    ensures var r := plan[i]; r.file < |blocks| && r.offset + r.limit <= |blocks[r.file]|
    ensures var r := plan[i];
      Gather(blocks, plan[i..]) == blocks[r.file][r.offset..r.offset + r.limit] + Gather(blocks, plan[i + 1..])
  {
    assert plan[i] in plan;
    assert plan[i..][1..] == plan[i + 1..];
  }

  // ----- The kept files select what all files select -----

  ghost predicate Orders(ordered: seq<File>, found: seq<File>) {
    multiset(ordered) == multiset(found) && InOrder(ordered)
  }

  /** kept is what Init may leave of the files found. */
  ghost predicate Keeps(filter: RowFilter, found: seq<File>, kept: seq<File>) {
    multiset(kept) == multiset(Filter(f => Overlaps(filter, f), found)) && InOrder(kept)
  }

  /** Whatever order Init chose for the files it kept, it is that of all files,
      in some order by start, without the dropped ones. */
  lemma KeptAreOrderedAndDropped(filter: RowFilter, found: seq<File>, kept: seq<File>) returns (ordered: seq<File>)
    requires Keeps(filter, found, kept)
    ensures Orders(ordered, found) && kept == Filter(f => Overlaps(filter, f), ordered)
  {
    var p, q := (f: File) => Overlaps(filter, f), (f: File) => !Overlaps(filter, f);
    FilterSplits(p, q, found);
    forall f | f in kept
      ensures p(f)
    {
      assert f in multiset(Filter(p, found));
    }
    FilterIsAll(p, kept);
    ordered := PutBack(Start, p, kept, Filter(q, found));
  }

  /** With distinct starts there is one such order. */
  lemma OrdersAreEqual(found: seq<File>, a: seq<File>, b: seq<File>)
    requires DistinctStarts(found) && Orders(a, found) && Orders(b, found)
    ensures a == b
  {
    forall f, g | f in a && g in a && f.intervalStart == g.intervalStart
      ensures f == g
    {
      assert f in multiset(found) && g in multiset(found);
    }
    OrderIsUnique(a, b);
  }

  /** So then the files Init keeps are the ordered files without the dropped. */
  lemma KeptAreFilteredOrder(filter: RowFilter, found: seq<File>, ordered: seq<File>, kept: seq<File>)
    requires DistinctStarts(found) && Orders(ordered, found) && Keeps(filter, found, kept)
    ensures kept == Filter(f => Overlaps(filter, f), ordered)
  {
    var own := KeptAreOrderedAndDropped(filter, found, kept);
    OrdersAreEqual(found, own, ordered);
  }

  ghost predicate AllWellFormed(files: seq<File>) {
    forall f :: f in files ==> WellFormed(f)
  }

  /** The conditions the code evaluates select what the filter means: there is no
      time window, or every row is captured inside its file's interval. */
  ghost predicate Faithful(filter: RowFilter, files: seq<File>) {
    Untimed(filter) || AllWellFormed(files)
  }

  lemma FastIsNaiveWhenFaithful(filter: RowFilter, hash: Hash, files: seq<File>, f: File)
    requires Faithful(filter, files) && f in files
    ensures FastRows(filter, hash, f) == NaiveRows(filter, hash, f)
  {
    if Untimed(filter) {
      FastIsNaiveWhenUntimed(filter, hash, f);
    } else {
      FastIsNaiveWhenWellFormed(filter, hash, f);
    }
  }

  lemma {:induction false} DroppedFilesAddNothing(filter: RowFilter, hash: Hash, ordered: seq<File>)
    requires Faithful(filter, ordered)
    ensures Flatten(FastBlocks(filter, hash, Filter(f => Overlaps(filter, f), ordered)))
         == Flatten(NaiveBlocks(filter, hash, ordered))
  {
    if ordered != [] {
      var f, rest := ordered[0], ordered[1..];
      DroppedFilesAddNothing(filter, hash, rest);
      FastIsNaiveWhenFaithful(filter, hash, ordered, f);
      var kept := Filter(g => Overlaps(filter, g), rest);
      assert NaiveBlocks(filter, hash, ordered)[1..] == NaiveBlocks(filter, hash, rest);
      if Overlaps(filter, f) {
        assert Filter(g => Overlaps(filter, g), ordered) == [f] + kept;
        assert FastBlocks(filter, hash, [f] + kept)[1..] == FastBlocks(filter, hash, kept);
      } else {
        assert Filter(g => Overlaps(filter, g), ordered) == kept;
        assert NaiveBlocks(filter, hash, ordered)[0] == [];
      }
    }
  }

  lemma PlannedBlocks(filter: RowFilter, hash: Hash, kept: seq<File>, planned: seq<File>)
    requires Plans(filter, hash, kept, planned)
    ensures FastBlocks(filter, hash, planned) == FastBlocks(filter, hash, kept)
    ensures Counts(planned) == Lengths(FastBlocks(filter, hash, planned))
  {
    forall i | 0 <= i < |kept|
      ensures FastBlocks(filter, hash, planned)[i] == FastBlocks(filter, hash, kept)[i]
      ensures planned[i].rows == |FastBlocks(filter, hash, planned)[i]|
    {
      PlanKeepsSelection(filter, hash, kept[i]);
    }
  }

  lemma KeptSelectAll(filter: RowFilter, hash: Hash, found: seq<File>, kept: seq<File>) returns (ordered: seq<File>)
    requires Faithful(filter, found) && Keeps(filter, found, kept)
    ensures Orders(ordered, found)
    ensures Flatten(FastBlocks(filter, hash, kept)) == Flatten(NaiveBlocks(filter, hash, ordered))
  {
    ordered := KeptAreOrderedAndDropped(filter, found, kept);
    SameMembers(ordered, found);
    DroppedFilesAddNothing(filter, hash, ordered);
  }

  /** rows are what the evaluated conditions select from the files kept in some
      order by start. */
  ghost predicate IsFastUpload(filter: RowFilter, hash: Hash, found: seq<File>, offset: nat, limit: int, rows: seq<Row>) {
    exists kept :: Keeps(filter, found, kept) && rows == Cut(Flatten(FastBlocks(filter, hash, kept)), offset, limit)
  }

  /** rows are the naive upload of the files in some order by start. */
  ghost predicate IsNaiveUpload(filter: RowFilter, hash: Hash, found: seq<File>, offset: nat, limit: int, rows: seq<Row>) {
    exists ordered :: Orders(ordered, found) && rows == NaiveUpload(filter, hash, ordered, offset, limit)
  }

  /** So without a time window, and on well-formed files, the code uploads what
      the filter means. */
  lemma FastUploadIsNaive(filter: RowFilter, hash: Hash, found: seq<File>, offset: nat, limit: int, rows: seq<Row>)
    requires Faithful(filter, found) && IsFastUpload(filter, hash, found, offset, limit, rows)
    ensures IsNaiveUpload(filter, hash, found, offset, limit, rows)
  {
    var kept :| Keeps(filter, found, kept) && rows == Cut(Flatten(FastBlocks(filter, hash, kept)), offset, limit);
    var ordered := KeptSelectAll(filter, hash, found, kept);
    assert rows == NaiveUpload(filter, hash, ordered, offset, limit);
  }

  /** When different files start at different times, this is one list of rows. */
  lemma NaiveUploadIsUnique(filter: RowFilter, hash: Hash, found: seq<File>, offset: nat, limit: int,
                            rows: seq<Row>, ordered: seq<File>)
    requires DistinctStarts(found) && IsNaiveUpload(filter, hash, found, offset, limit, rows) && Orders(ordered, found)
    ensures rows == NaiveUpload(filter, hash, ordered, offset, limit)
  {
    var own :| Orders(own, found) && rows == NaiveUpload(filter, hash, own, offset, limit);
    OrdersAreEqual(found, own, ordered);
  }

  /** Open, Plan and Window: the rows the reads yield and their number, counted
      before reading. */
  method PrepareUpload(filter: RowFilter, hash: Hash, found: seq<File>, offset: nat, limit: int)
    returns (rows: seq<Row>, total: nat)
    ensures total == |rows|
    ensures IsFastUpload(filter, hash, found, offset, limit, rows)
  {
    var src := new Source(filter, hash);
    src.Init(found);
    ghost var kept := src.files;
    src.Plan();
    PlannedBlocks(filter, hash, kept, src.files);
    var plan := Window(src.files, offset, limit);
    ghost var blocks := FastBlocks(filter, hash, src.files);
    ReadsAreCut(blocks, 0, offset, limit);
    assert blocks[0..] == blocks;
    total := TotalOf(plan);
    rows := ReadAll(src, plan);
    GatherLength(blocks, plan);
    assert Keeps(filter, found, kept) && rows == Cut(Flatten(FastBlocks(filter, hash, kept)), offset, limit);
  }

  lemma {:induction false} FilterConverted(ids: seq<uint32>, raws: seq<Raw2a>, start: int)
    ensures Filter((row: Row) => row.pdId in ids, Converted(raws, start)) ==
      Converted(Filter((raw: Raw2a) => raw.pdId in ids, raws), start)
  {
    if raws != [] {
      FilterConverted(ids, raws[1..], start);
      assert Converted(raws, start) == [Convert2a(raws[0], start)] + Converted(raws[1..], start);
      var rest := Filter((raw: Raw2a) => raw.pdId in ids, raws[1..]);
      assert Converted([raws[0]] + rest, start) == [Convert2a(raws[0], start)] + Converted(rest, start);
      assert [] + rest == rest;
    }
  }

  lemma {:induction false} ListedBlocks(filter: RowFilter, hash: Hash, kept: seq<File>, ids: seq<uint32>)
    requires ids != []
    ensures Flatten(FastBlocks(filter.(pdIds := ids), hash, kept)) ==
      Filter((row: Row) => row.pdId in ids, Flatten(FastBlocks(filter.(pdIds := []), hash, kept)))
  {
    if kept != [] {
      var listed, all := FastBlocks(filter.(pdIds := ids), hash, kept), FastBlocks(filter.(pdIds := []), hash, kept);
      ListedBlocks(filter, hash, kept[1..], ids);
      assert listed[1..] == FastBlocks(filter.(pdIds := ids), hash, kept[1..]);
      assert all[1..] == FastBlocks(filter.(pdIds := []), hash, kept[1..]);
      PdListSelects(filter, hash, kept[0], ids);
      FilterConverted(ids, Selected(filter.(pdIds := []), hash, kept[0]), kept[0].intervalStart);
      FilterConcat((row: Row) => row.pdId in ids, all[0], Flatten(all[1..]));
    }
  }

  /** An upload with a list of PD IDs inserts, of the rows that the upload without
      it inserts, those of the PDs listed, in the same order. */
  lemma ListedUpload(filter: RowFilter, hash: Hash, found: seq<File>, ids: seq<uint32>, rows: seq<Row>)
    requires ids != []
    ensures IsFastUpload(filter.(pdIds := ids), hash, found, 0, -1, rows) <==>
      exists all :: IsFastUpload(filter.(pdIds := []), hash, found, 0, -1, all)
        && rows == Filter((row: Row) => row.pdId in ids, all)
  {
    var listed, open := filter.(pdIds := ids), filter.(pdIds := []);
    assert forall f :: Overlaps(listed, f) <==> Overlaps(open, f);
    FilterAgrees(f => Overlaps(listed, f), f => Overlaps(open, f), found);
    if IsFastUpload(listed, hash, found, 0, -1, rows) {
      var kept :| Keeps(listed, found, kept) && rows == Cut(Flatten(FastBlocks(listed, hash, kept)), 0, -1);
      ListedCut(filter, hash, kept, ids);
      var all := Cut(Flatten(FastBlocks(open, hash, kept)), 0, -1);
      assert Keeps(open, found, kept) && IsFastUpload(open, hash, found, 0, -1, all);
    }
    if all :| IsFastUpload(open, hash, found, 0, -1, all) && rows == Filter((row: Row) => row.pdId in ids, all) {
      var kept :| Keeps(open, found, kept) && all == Cut(Flatten(FastBlocks(open, hash, kept)), 0, -1);
      ListedCut(filter, hash, kept, ids);
      assert Keeps(listed, found, kept);
    }
  }

  lemma ListedCut(filter: RowFilter, hash: Hash, kept: seq<File>, ids: seq<uint32>)
    requires ids != []
    ensures Cut(Flatten(FastBlocks(filter.(pdIds := ids), hash, kept)), 0, -1) ==
      Filter((row: Row) => row.pdId in ids, Cut(Flatten(FastBlocks(filter.(pdIds := []), hash, kept)), 0, -1))
  {
    ListedBlocks(filter, hash, kept, ids);
    CutFromStart(Flatten(FastBlocks(filter.(pdIds := ids), hash, kept)), -1);
    CutFromStart(Flatten(FastBlocks(filter.(pdIds := []), hash, kept)), -1);
  }

  /** Why upload-fies stops before it counts anything. */
  function Refusal(filter: RowFilter, found: seq<File>, offset: int, batchSize: int): Option<UploadError> {
    if offset < 0 then Some(NegativeOffset)
    else if batchSize < 1 then Some(BatchTooSmall)
    else if !IsUsable(filter) then Some(BadFilter)
    else if found == [] then Some(NoFiles)
    else None
  }

  /** upload-fies under any interleaving, failure or cancellation. On success
      the table holds exactly the selected rows, in order, and the row count
      computed beforehand agrees with it; without a time window, or when every
      row lies inside its file's interval, these are the rows the filter means.
      On failure it holds a prefix, whether or not the server kept the batch
      whose insert failed. It succeeds whenever nothing outside fails. */
  method RunUpload(filter: RowFilter, hash: Hash, found: seq<File>, offset: int, limit: int, batchSize: int,
                   schedule: Transfer.Config<Row> -> Transfer.Scheduler<Row>)
    returns (r: Result<nat, UploadError>, table: seq<Row>, unconfirmed: seq<Row>)
    requires Transfer.AlwaysAdmissible(schedule)
    ensures var refusal := Refusal(filter, found, offset, batchSize);
      if refusal.Some? then r == Err(refusal.value) && table == [] && unconfirmed == []
      else r.Ok? || r.error.TransferError?
    ensures Refusal(filter, found, offset, batchSize).None? && Transfer.AlwaysQuiet(schedule) ==> r.Ok?
    ensures Transfer.NobodyCancels(schedule) ==> r != Err(TransferError(Transfer.Error.Canceled))
    ensures r == Err(TransferError(Transfer.InsertFailed)) ==> unconfirmed != []
    ensures Refusal(filter, found, offset, batchSize).None? ==>
      exists want ::
        && IsFastUpload(filter, hash, found, offset, limit, want)
        && (Faithful(filter, found) ==> IsNaiveUpload(filter, hash, found, offset, limit, want))
        && (r.Ok? ==> table == want && r.value == |want| && unconfirmed == [])
        && table + unconfirmed <= want
    ensures offset >= 0 && Faithful(filter, found) && DistinctStarts(found) ==>
      forall ordered :: Orders(ordered, found) ==>
        var want := NaiveUpload(filter, hash, ordered, offset, limit);
        && (r.Ok? ==> table == want && r.value == |want| && unconfirmed == [])
        && table + unconfirmed <= want
  {
    table, unconfirmed := [], [];
    if offset < 0 {
      return Err(NegativeOffset), [], [];
    }
    if batchSize < 1 {
      return Err(BatchTooSmall), [], [];
    }
    if !IsUsable(filter) {
      return Err(BadFilter), [], [];
    }
    if found == [] {
      return Err(NoFiles), [], [];
    }
    var rows, total := PrepareUpload(filter, hash, found, offset, limit);
    if Faithful(filter, found) {
      FastUploadIsNaive(filter, hash, found, offset, limit, rows);
      if DistinctStarts(found) {
        forall ordered | Orders(ordered, found)
          ensures rows == NaiveUpload(filter, hash, ordered, offset, limit)
        {
          NaiveUploadIsUnique(filter, hash, found, offset, limit, rows, ordered);
        }
      }
    }
    var config := Transfer.Config(rows, true, batchSize);
    var s := Transfer.Execute(config, schedule(config));
    table, unconfirmed := Flatten(s.inserted), s.inflight;
    if s.first.Some? {
      r := Err(TransferError(s.first.value));
    } else {
      r := CheckCount(|table|, total, WrongCount(|table|, total));
    }
  }

  method TotalOf(plan: seq<Read>) returns (total: nat)
    ensures total == Total(plan)
  {
    total := 0;
    var i := 0;
    while i < |plan|
      invariant 0 <= i <= |plan|
      invariant total + Total(plan[i..]) == Total(plan)
    {
      assert plan[i..][1..] == plan[i + 1..];
      total := total + plan[i].limit;
      i := i + 1;
    }
  }
}
