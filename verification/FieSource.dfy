/**
 Row selection: Open drops whole files, where pushes the time window into
 conditions on capture_second, Plan counts, Window skips files by their counts
 and Rows reads a slice of one file. The theorems say that all of this selects
 what filtering every row, concatenating and cutting selects.
 */
module FieSource {
  import opened Common
  import opened FieRow

  /** A file as Open sees it. content is what read_parquet yields for its path;
      rows is the count set by Plan. */
  datatype File = File(path: string, intervalStart: int, seconds: nat, content: seq<Raw2a>, rows: nat)
  {
    function End(): int { intervalStart + seconds * SECOND }
  }

  /** start and end are None for the zero time. */
  datatype RowFilter = RowFilter(
    pdIds: seq<uint32>, percent: real, seed: nat, start: Option<int>, end: Option<int>)

  /** DuckDB's hash of (pd_id, seed), which is not modeled. */
  type Hash = (uint32, nat) -> nat

  const BUCKETS := 1_000_000

  /** Validate: the filters that Open takes. */
  predicate IsUsable(filter: RowFilter) {
    && (|filter.pdIds| > 0 ==> filter.percent == 0.0)
    && 0.0 <= filter.percent <= 100.0
    && (filter.start.Some? && filter.end.Some? ==> filter.start.value < filter.end.value)
  }

  // ----- The naive meaning of a filter -----

  predicate KeepsPd(filter: RowFilter, hash: Hash, pdId: uint32) {
    && (|filter.pdIds| > 0 ==> pdId in filter.pdIds)
    && (0.0 < filter.percent < 100.0 ==>
          hash(pdId, filter.seed) % BUCKETS < (filter.percent / 100.0 * BUCKETS as real).Floor)
  }

  predicate KeepsTime(filter: RowFilter, time: int) {
    && (filter.start.Some? ==> filter.start.value <= time)
    && (filter.end.Some? ==> time < filter.end.value)
  }

  predicate Matches(filter: RowFilter, hash: Hash, f: File, raw: Raw2a) {
    KeepsPd(filter, hash, raw.pdId) && KeepsTime(filter, CaptureTime(raw, f.intervalStart))
  }

  // ----- The conditions the code evaluates -----

  predicate Overlaps(filter: RowFilter, f: File) {
    && (filter.start.Some? ==> f.End() > filter.start.value)
    && (filter.end.Some? ==> f.intervalStart < filter.end.value)
  }

  function CeilSeconds(d: int): int {
    -(-d / SECOND)
  }

  /** The meaning of the WHERE clause built for file f. */
  predicate Where(filter: RowFilter, hash: Hash, f: File, raw: Raw2a) {
    && KeepsPd(filter, hash, raw.pdId)
    && (filter.start.Some? ==>
          var from := CeilSeconds(filter.start.value - f.intervalStart);
          from > 0 ==> raw.captureSecond >= from)
    && (filter.end.Some? ==>
          var to := CeilSeconds(filter.end.value - f.intervalStart);
          to < f.seconds ==> raw.captureSecond < to)
  }

  /** The format's promise: a row is captured inside its file's interval. */
  predicate WellFormed(f: File) {
    forall raw :: raw in f.content ==> raw.captureSecond < f.seconds
  }

  lemma CeilSecondsIsCeiling(d: int, n: int)
    ensures n >= CeilSeconds(d) <==> n * 1_000_000_000 >= d
  {
  }

  /** On any row, well formed or not, the conditions are the time window,
      except that an end at or past the last second of the interval is not
      checked. */
  lemma WhereExactly(filter: RowFilter, hash: Hash, f: File, raw: Raw2a)
    ensures Where(filter, hash, f, raw) <==>
      && KeepsPd(filter, hash, raw.pdId)
      && (filter.start.Some? ==> filter.start.value <= CaptureTime(raw, f.intervalStart))
      && (filter.end.Some? ==>
            CaptureTime(raw, f.intervalStart) < filter.end.value || filter.end.value > f.End() - SECOND)
  {
    if filter.start.Some? {
      CeilSecondsIsCeiling(filter.start.value - f.intervalStart, raw.captureSecond);
      CeilSecondsIsCeiling(filter.start.value - f.intervalStart, 0);
    }
    if filter.end.Some? {
      CeilSecondsIsCeiling(filter.end.value - f.intervalStart, raw.captureSecond);
      CeilSecondsIsCeiling(filter.end.value - f.intervalStart, f.seconds - 1);
    }
  }

  lemma WhereIsMatch(filter: RowFilter, hash: Hash, f: File, raw: Raw2a)
    requires raw.captureSecond < f.seconds
    ensures Where(filter, hash, f, raw) <==> Matches(filter, hash, f, raw)
  {
    WhereExactly(filter, hash, f, raw);
  }

  lemma DroppedFilesMatchNothing(filter: RowFilter, hash: Hash, f: File, raw: Raw2a)
    requires raw.captureSecond < f.seconds && !Overlaps(filter, f)
    ensures !Matches(filter, hash, f, raw)
  {
  }

  /** A file is kept exactly when some instant of its interval passes the time
      window. */
  lemma OverlapsExactly(filter: RowFilter, f: File)
    requires IsUsable(filter) && f.seconds > 0
    ensures Overlaps(filter, f) <==> exists t :: f.intervalStart <= t < f.End() && KeepsTime(filter, t)
  {
    if Overlaps(filter, f) {
      var t := if filter.start.Some? then Max(f.intervalStart, filter.start.value) else f.intervalStart;
      assert KeepsTime(filter, t);
    }
  }

  /** The rows the code selects from f, before the offset and the limit. */
  function FastRows(filter: RowFilter, hash: Hash, f: File): seq<Raw2a> {
    if Overlaps(filter, f) then Selected(filter, hash, f) else []
  }

  function Selected(filter: RowFilter, hash: Hash, f: File): seq<Raw2a> {
    Filter(raw => Where(filter, hash, f, raw), f.content)
  }

  /** The rows of f that pass the filter, one by one. */
  function NaiveRows(filter: RowFilter, hash: Hash, f: File): seq<Raw2a> {
    Filter(raw => Matches(filter, hash, f, raw), f.content)
  }

  lemma FastIsNaiveWhenWellFormed(filter: RowFilter, hash: Hash, f: File)
    requires WellFormed(f)
    ensures FastRows(filter, hash, f) == NaiveRows(filter, hash, f)
  {
    forall raw | raw in f.content
      ensures Where(filter, hash, f, raw) <==> Matches(filter, hash, f, raw)
      ensures !Overlaps(filter, f) ==> !Matches(filter, hash, f, raw)
    {
      WhereIsMatch(filter, hash, f, raw);
      if !Overlaps(filter, f) {
        DroppedFilesMatchNothing(filter, hash, f, raw);
      }
    }
    FilterAgrees(raw => Where(filter, hash, f, raw), raw => Matches(filter, hash, f, raw), f.content);
    if !Overlaps(filter, f) {
      FilterNone(raw => Matches(filter, hash, f, raw), f.content);
    }
  }

  /** A filter without time bounds. */
  predicate Untimed(filter: RowFilter) {
    filter.start.None? && filter.end.None?
  }

  lemma FastIsNaiveWhenUntimed(filter: RowFilter, hash: Hash, f: File)
    requires Untimed(filter)
    ensures FastRows(filter, hash, f) == NaiveRows(filter, hash, f)
  {
    FilterAgrees(raw => Where(filter, hash, f, raw), raw => Matches(filter, hash, f, raw), f.content);
  }

  /** Exactly the well-formed files are read faithfully under every filter: a
      row captured at or after the end of its interval is lost by a filter that
      starts there. */
  lemma FastIsNaiveExactly(hash: Hash, f: File)
    ensures WellFormed(f) <==>
      forall filter :: FastRows(filter, hash, f) == NaiveRows(filter, hash, f)
  {
    if WellFormed(f) {
      forall filter
        ensures FastRows(filter, hash, f) == NaiveRows(filter, hash, f)
      {
        FastIsNaiveWhenWellFormed(filter, hash, f);
      }
    } else {
      var raw :| raw in f.content && raw.captureSecond >= f.seconds;
      var late := RowFilter([], 0.0, 0, Some(f.End()), None);
      assert Matches(late, hash, f, raw);
      assert raw in NaiveRows(late, hash, f);
      assert FastRows(late, hash, f) == [];
    }
  }

  // ----- What lists and percentages select -----

  /** A list of PD IDs keeps, of the rows selected without it, those of its PDs. */
  lemma PdListSelects(filter: RowFilter, hash: Hash, f: File, ids: seq<uint32>)
    requires ids != []
    ensures Selected(filter.(pdIds := ids), hash, f) ==
      Filter((raw: Raw2a) => raw.pdId in ids, Selected(filter.(pdIds := []), hash, f))
  {
    var open, listed := filter.(pdIds := []), filter.(pdIds := ids);
    FilterTwice(raw => Where(open, hash, f, raw), (raw: Raw2a) => raw.pdId in ids,
                raw => Where(listed, hash, f, raw), f.content);
  }

  /** A percentage keeps, of the rows selected without one, those whose PD falls
      into the first buckets of a million, ten thousand for a percent. */
  lemma PercentSelects(filter: RowFilter, hash: Hash, f: File, percent: real)
    requires 0.0 < percent < 100.0
    ensures Selected(filter.(percent := percent), hash, f) ==
      Filter((raw: Raw2a) => hash(raw.pdId, filter.seed) % 1_000_000 < (percent * 10_000.0).Floor,
             Selected(filter.(percent := 0.0), hash, f))
  {
    assert percent / 100.0 * 1_000_000.0 == percent * 10_000.0;
    var open, sampled := filter.(percent := 0.0), filter.(percent := percent);
    FilterTwice(raw => Where(open, hash, f, raw),
                (raw: Raw2a) => hash(raw.pdId, filter.seed) % 1_000_000 < (percent * 10_000.0).Floor,
                raw => Where(sampled, hash, f, raw), f.content);
  }

  /** The whole percentage selects as none does. */
  lemma AllPercentSelectsAll(filter: RowFilter, hash: Hash, f: File)
    ensures Selected(filter.(percent := 100.0), hash, f) == Selected(filter.(percent := 0.0), hash, f)
  {
    var all, open := filter.(percent := 100.0), filter.(percent := 0.0);
    FilterAgrees(raw => Where(all, hash, f, raw), raw => Where(open, hash, f, raw), f.content);
  }

  /** A larger percentage only adds rows. */
  lemma SamplesGrow(few: RowFilter, many: RowFilter, hash: Hash, f: File)
    requires 0.0 < few.percent <= many.percent <= 100.0 && many == few.(percent := many.percent)
    ensures Selected(few, hash, f) == Filter(raw => Where(few, hash, f, raw), Selected(many, hash, f))
  {
    forall raw
      ensures Where(few, hash, f, raw) ==> Where(many, hash, f, raw)
    {
      SampleGrows(few, hash, raw.pdId, few.percent, many.percent);
    }
    FilterTwice(raw => Where(many, hash, f, raw), raw => Where(few, hash, f, raw), raw => Where(few, hash, f, raw), f.content);
  }

  lemma SampleGrows(filter: RowFilter, hash: Hash, pdId: uint32, percent: real, more: real)
    requires 0.0 < percent <= more <= 100.0
    ensures KeepsPd(filter.(percent := percent), hash, pdId) ==> KeepsPd(filter.(percent := more), hash, pdId)
  {
    assert percent / 100.0 * 1_000_000.0 == percent * 10_000.0;
    assert more / 100.0 * 1_000_000.0 == more * 10_000.0;
  }

  /** Exactly the usable filters combine no list with a percentage, keep the
      percentage in range and leave some capture time open. */
  lemma UsableExactly(filter: RowFilter)
    ensures IsUsable(filter) <==>
      && (filter.pdIds == [] || filter.percent == 0.0)
      && 0.0 <= filter.percent <= 100.0
      && exists t :: KeepsTime(filter, t)
  {
    var t := if filter.start.Some? then filter.start.value else if filter.end.Some? then filter.end.value - 1 else 0;
    assert IsUsable(filter) ==> KeepsTime(filter, t);
  }

  // ----- Window -----

  /** Rows [offset, offset+limit) of the selected rows of files[file]. */
  datatype Read = Read(file: nat, offset: nat, limit: nat)

  function Counts(files: seq<File>): (r: seq<nat>)
    ensures |r| == |files| && forall i :: 0 <= i < |files| ==> r[i] == files[i].rows
  {
    Map((f: File) => f.rows, files)
  }

  /** The rows to read from a file of count rows, more than the offset. */
  function ReadSize(count: nat, offset: nat, limit: int): nat
    requires offset < count
  {
    if limit > 0 then Min(count - offset, limit) else count - offset
  }

  function LimitLeft(limit: int, taken: nat): int {
    if limit > 0 then limit - taken else limit
  }

  /** The reads from file i on. */
  function Reads(counts: seq<nat>, i: nat, offset: nat, limit: int): seq<Read>
    requires i <= |counts|
    decreases |counts| - i
  {
    if i == |counts| || limit == 0 then []
    else if offset >= counts[i] then Reads(counts, i + 1, offset - counts[i], limit)
    else
      var n := ReadSize(counts[i], offset, limit);
      [Read(i, offset, n)] + Reads(counts, i + 1, 0, LimitLeft(limit, n))
  }

  lemma ReadsStep(counts: seq<nat>, i: nat, offset: nat, limit: int, plan: seq<Read>)
    requires i < |counts| && limit != 0
    ensures offset >= counts[i] ==>
      plan + Reads(counts, i, offset, limit) == plan + Reads(counts, i + 1, offset - counts[i], limit)
    ensures offset < counts[i] ==>
      var n := ReadSize(counts[i], offset, limit);
      plan + Reads(counts, i, offset, limit) ==
        (plan + [Read(i, offset, n)]) + Reads(counts, i + 1, 0, LimitLeft(limit, n))
  {
    if offset < counts[i] {
      var n := ReadSize(counts[i], offset, limit);
      var rest := Reads(counts, i + 1, 0, LimitLeft(limit, n));
      assert Reads(counts, i, offset, limit) == [Read(i, offset, n)] + rest;
      assert plan + ([Read(i, offset, n)] + rest) == (plan + [Read(i, offset, n)]) + rest;
    }
  }

  method Window(files: seq<File>, offset: nat, limit: int) returns (plan: seq<Read>)
    ensures plan == Reads(Counts(files), 0, offset, limit)
  {
    ghost var counts := Counts(files);
    ghost var all := Reads(counts, 0, offset, limit);
    plan := [];
    var skip: nat, left := offset, limit;
    var i := 0;
    assert plan + all == all;
    while i < |files|
      invariant 0 <= i <= |files|
      invariant plan + Reads(counts, i, skip, left) == all
    {
      if left == 0 {
        break;
      }
      ReadsStep(counts, i, skip, left, plan);
      if skip >= files[i].rows {
        skip := skip - files[i].rows;
      } else {
        var n := files[i].rows - skip;
        if left > 0 {
          n := Min(n, left);
          left := left - n;
        }
        plan := plan + [Read(i, skip, n)];
        skip := 0;
      }
      i := i + 1;
    }
    assert Reads(counts, i, skip, left) == [] && plan + [] == plan;
  }

  predicate FitsBlocks<T>(blocks: seq<seq<T>>, plan: seq<Read>) {
    forall r :: r in plan ==> r.file < |blocks| && r.offset + r.limit <= |blocks[r.file]|
  }

  /** The rows of the reads, one after the other. */
  function Gather<T>(blocks: seq<seq<T>>, plan: seq<Read>): seq<T>
    requires FitsBlocks(blocks, plan)
  {
    if plan == [] then []
    else
      var r := plan[0];
      blocks[r.file][r.offset..r.offset + r.limit] + Gather(blocks, plan[1..])
  }

  function Lengths<T>(blocks: seq<seq<T>>): (r: seq<nat>)
    ensures |r| == |blocks| && forall i :: 0 <= i < |blocks| ==> r[i] == |blocks[i]|
  {
    Map((b: seq<T>) => |b|, blocks)
  }

  /** The reads from file i on are the slice [offset, offset+limit) of all rows
      from there. */
  ghost predicate ReadsCut<T>(blocks: seq<seq<T>>, i: nat, offset: nat, limit: int)
    requires i <= |blocks|
  {
    var plan := Reads(Lengths(blocks), i, offset, limit);
    && FitsBlocks(blocks, plan)
    && Gather(blocks, plan) == Cut(Flatten(blocks[i..]), offset, limit)
  }

  lemma {:induction false} ReadsAreCut<T>(blocks: seq<seq<T>>, i: nat, offset: nat, limit: int)
    requires i <= |blocks|
    ensures ReadsCut(blocks, i, offset, limit)
    decreases |blocks| - i
  {
    if i == |blocks| || limit == 0 {
      NothingToRead(blocks, i, offset, limit);
    } else if offset >= |blocks[i]| {
      ReadsAreCut(blocks, i + 1, offset - |blocks[i]|, limit);
      SkipStep(blocks, i, offset, limit);
    } else {
      ReadsAreCut(blocks, i + 1, 0, LimitLeft(limit, ReadSize(|blocks[i]|, offset, limit)));
      TakeStep(blocks, i, offset, limit);
    }
  }

  lemma NothingToRead<T>(blocks: seq<seq<T>>, i: nat, offset: nat, limit: int)
    requires i <= |blocks| && (i == |blocks| || limit == 0)
    ensures ReadsCut(blocks, i, offset, limit)
  {
    assert Reads(Lengths(blocks), i, offset, limit) == [];
    assert i == |blocks| ==> Flatten(blocks[i..]) == [];
  }

  lemma SkipStep<T>(blocks: seq<seq<T>>, i: nat, offset: nat, limit: int)
    requires i < |blocks| && limit != 0 && offset >= |blocks[i]|
    requires ReadsCut(blocks, i + 1, offset - |blocks[i]|, limit)
    ensures ReadsCut(blocks, i, offset, limit)
  {
    FlattenFrom(blocks, i);
    CutSkips(blocks[i], Flatten(blocks[i + 1..]), offset, limit);
  }

  lemma TakeStep<T>(blocks: seq<seq<T>>, i: nat, offset: nat, limit: int)
    requires i < |blocks| && limit != 0 && offset < |blocks[i]|
    requires ReadsCut(blocks, i + 1, 0, LimitLeft(limit, ReadSize(|blocks[i]|, offset, limit)))
    ensures ReadsCut(blocks, i, offset, limit)
  {
    var n := ReadSize(|blocks[i]|, offset, limit);
    FlattenFrom(blocks, i);
    CutTakes(blocks[i], Flatten(blocks[i + 1..]), offset, limit);
    GatherCons(blocks, Read(i, offset, n), Reads(Lengths(blocks), i + 1, 0, LimitLeft(limit, n)));
    ReadsUnfold(Lengths(blocks), i, offset, limit);
  }

  lemma ReadsUnfold(counts: seq<nat>, i: nat, offset: nat, limit: int)
    requires i < |counts| && limit != 0 && offset < counts[i]
    ensures var n := ReadSize(counts[i], offset, limit);
      Reads(counts, i, offset, limit) == [Read(i, offset, n)] + Reads(counts, i + 1, 0, LimitLeft(limit, n))
  {
  }

  lemma FlattenFrom<T>(blocks: seq<seq<T>>, i: nat)
    requires i < |blocks|
    ensures Flatten(blocks[i..]) == blocks[i] + Flatten(blocks[i + 1..])
  {
    assert blocks[i..][1..] == blocks[i + 1..];
  }

  lemma GatherCons<T>(blocks: seq<seq<T>>, r: Read, tail: seq<Read>)
    requires FitsBlocks(blocks, tail) && r.file < |blocks| && r.offset + r.limit <= |blocks[r.file]|
    ensures FitsBlocks(blocks, [r] + tail)
    ensures Gather(blocks, [r] + tail) == blocks[r.file][r.offset..r.offset + r.limit] + Gather(blocks, tail)
  {
    assert ([r] + tail)[1..] == tail;
  }

  lemma CutSkips<T>(block: seq<T>, rest: seq<T>, offset: nat, limit: int)
    requires offset >= |block|
    ensures Cut(block + rest, offset, limit) == Cut(rest, offset - |block|, limit)
  {
    assert (block + rest)[Min(offset, |block + rest|)..] == rest[Min(offset - |block|, |rest|)..];
  }

  lemma CutTakes<T>(block: seq<T>, rest: seq<T>, offset: nat, limit: int)
    requires offset < |block| && limit != 0
    ensures var n := ReadSize(|block|, offset, limit);
      Cut(block + rest, offset, limit) == block[offset..offset + n] + Cut(rest, 0, LimitLeft(limit, n))
  {
    SliceIsTake(block, offset, ReadSize(|block|, offset, limit));
    DropInFront(block, rest, offset);
    CutFront(block[offset..], rest, limit);
  }

  /** Cutting front + rest from its start. */
  lemma CutFront<T>(front: seq<T>, rest: seq<T>, limit: int)
    requires front != [] && limit != 0
    ensures var n := ReadSize(|front|, 0, limit); var all := front + rest;
      (if limit < 0 then all else all[..Min(limit, |all|)]) == front[..n] + Cut(rest, 0, LimitLeft(limit, n))
  {
    CutFromStart(rest, LimitLeft(limit, ReadSize(|front|, 0, limit)));
    assert front[..|front|] == front;
    if 0 < limit <= |front| {
      TakeInFront(front, rest, limit);
      assert front[..limit] + rest[..0] == front[..limit];
    } else if limit > |front| {
      TakePastFront(front, rest, limit);
    }
  }

  lemma CutFromStart<T>(xs: seq<T>, limit: int)
    ensures Cut(xs, 0, limit) == if limit < 0 then xs else xs[..Min(limit, |xs|)]
  {
    assert xs[0..] == xs;
  }

  lemma DropInFront<T>(block: seq<T>, rest: seq<T>, offset: nat)
    requires offset <= |block|
    ensures (block + rest)[offset..] == block[offset..] + rest
  {
  }

  lemma SliceIsTake<T>(xs: seq<T>, offset: nat, n: nat)
    requires offset + n <= |xs|
    ensures xs[offset..offset + n] == xs[offset..][..n]
  {
  }

  lemma TakeInFront<T>(front: seq<T>, rest: seq<T>, m: nat)
    requires m <= |front|
    ensures (front + rest)[..m] == front[..m]
  {
  }

  lemma TakePastFront<T>(front: seq<T>, rest: seq<T>, limit: nat)
    requires limit > |front|
    ensures (front + rest)[..Min(limit, |front + rest|)] == front + rest[..Min(limit - |front|, |rest|)]
  {
  }

  /** The shape of a plan: files in order, every read non-empty and inside its
      file, only the first read may start inside a file and only the last may
      stop before its end. */
  ghost predicate GoodReads(counts: seq<nat>, i: nat, plan: seq<Read>) {
    && (forall j :: 0 <= j < |plan| ==>
          && i <= plan[j].file < |counts|
          && 0 < plan[j].limit && plan[j].offset + plan[j].limit <= counts[plan[j].file])
    && (forall j :: 0 < j < |plan| ==> plan[j - 1].file < plan[j].file && plan[j].offset == 0)
    && (forall j :: 0 <= j < |plan| - 1 ==> plan[j].offset + plan[j].limit == counts[plan[j].file])
  }

  lemma {:induction false} ReadsFromZero(counts: seq<nat>, i: nat, limit: int)
    requires i <= |counts|
    ensures forall r :: r in Reads(counts, i, 0, limit) ==> r.offset == 0
    decreases |counts| - i
  {
    if i < |counts| && limit != 0 {
      if counts[i] == 0 {
        ReadsFromZero(counts, i + 1, limit);
      } else {
        ReadsFromZero(counts, i + 1, LimitLeft(limit, ReadSize(counts[i], 0, limit)));
      }
    }
  }

  lemma {:induction false} ReadsAreGood(counts: seq<nat>, i: nat, offset: nat, limit: int)
    requires i <= |counts|
    ensures GoodReads(counts, i, Reads(counts, i, offset, limit))
    decreases |counts| - i
  {
    if i == |counts| || limit == 0 {
    } else if offset >= counts[i] {
      ReadsAreGood(counts, i + 1, offset - counts[i], limit);
      GoodFrom(counts, i, Reads(counts, i + 1, offset - counts[i], limit));
    } else {
      var n := ReadSize(counts[i], offset, limit);
      var left := LimitLeft(limit, n);
      ReadsAreGood(counts, i + 1, 0, left);
      ReadsFromZero(counts, i + 1, left);
      GoodCons(counts, i, Read(i, offset, n), Reads(counts, i + 1, 0, left));
    }
  }

  lemma GoodFrom(counts: seq<nat>, i: nat, plan: seq<Read>)
    requires GoodReads(counts, i + 1, plan)
    ensures GoodReads(counts, i, plan)
  {
  }

  lemma {:induction false} GoodCons(counts: seq<nat>, i: nat, r: Read, tail: seq<Read>)
    requires i < |counts| && r.file == i && 0 < r.limit && r.offset + r.limit <= counts[i]
    requires GoodReads(counts, i + 1, tail) && forall t :: t in tail ==> t.offset == 0
    requires tail != [] ==> r.offset + r.limit == counts[i]
    ensures GoodReads(counts, i, [r] + tail)
  {
    var plan := [r] + tail;
    forall j | 0 <= j < |plan|
      ensures i <= plan[j].file < |counts|
      ensures 0 < plan[j].limit && plan[j].offset + plan[j].limit <= counts[plan[j].file]
      ensures j < |plan| - 1 ==> plan[j].offset + plan[j].limit == counts[plan[j].file]
      ensures j > 0 ==> plan[j - 1].file < plan[j].file && plan[j].offset == 0
    {
      if j > 0 {
        var k := j - 1;
        assert plan[j] == tail[k] && tail[k] in tail;
        assert k > 0 ==> plan[j - 1] == tail[k - 1];
      }
    }
  }

  function Total(plan: seq<Read>): nat {
    if plan == [] then 0 else plan[0].limit + Total(plan[1..])
  }

  lemma {:induction false} GatherLength<T>(blocks: seq<seq<T>>, plan: seq<Read>)
    requires FitsBlocks(blocks, plan)
    ensures |Gather(blocks, plan)| == Total(plan)
  {
    if plan != [] {
      GatherLength(blocks, plan[1..]);
    }
  }

  /** The limits of the plan sum to what is left after the offset, at most the
      limit. */
  lemma {:induction false} ReadsTotal(counts: seq<nat>, i: nat, offset: nat, limit: int)
    requires i <= |counts|
    ensures var rest := Max(0, Sum(counts[i..]) - offset);
      Total(Reads(counts, i, offset, limit)) == if limit < 0 then rest else Min(limit, rest)
    decreases |counts| - i
  {
    if i == |counts| || limit == 0 {
    } else if offset >= counts[i] {
      SumFrom(counts, i);
      ReadsTotal(counts, i + 1, offset - counts[i], limit);
    } else {
      var n := ReadSize(counts[i], offset, limit);
      SumFrom(counts, i);
      ReadsTotal(counts, i + 1, 0, LimitLeft(limit, n));
      TotalCons(Read(i, offset, n), Reads(counts, i + 1, 0, LimitLeft(limit, n)));
    }
  }

  lemma SumFrom(counts: seq<nat>, i: nat)
    requires i < |counts|
    ensures Sum(counts[i..]) == counts[i] + Sum(counts[i + 1..])
  {
    assert counts[i..][1..] == counts[i + 1..];
  }

  lemma TotalCons(r: Read, tail: seq<Read>)
    ensures Total([r] + tail) == r.limit + Total(tail)
  {
    assert ([r] + tail)[1..] == tail;
  }

  // ----- The source -----

  function Start(f: File): int {
    f.intervalStart
  }

  ghost predicate InOrder(files: seq<File>) {
    Ordered(Start, files)
  }

  ghost predicate DistinctStarts(files: seq<File>) {
    forall f, g :: f in files && g in files && f.intervalStart == g.intervalStart ==> f == g
  }

  function Planned(filter: RowFilter, hash: Hash, f: File): File {
    f.(rows := |Selected(filter, hash, f)|)
  }

  lemma PlanKeepsSelection(filter: RowFilter, hash: Hash, f: File)
    ensures Selected(filter, hash, Planned(filter, hash, f)) == Selected(filter, hash, f)
  {
    FilterAgrees(raw => Where(filter, hash, Planned(filter, hash, f), raw), raw => Where(filter, hash, f, raw), f.content);
  }

  class Source {
    const filter: RowFilter
    const hash: Hash
    var files: seq<File>

    constructor (filter: RowFilter, hash: Hash)
      ensures this.filter == filter && this.hash == hash && files == []
    {
      this.filter := filter;
      this.hash := hash;
      files := [];
    }

    /** Keeps the files overlapping the window and sorts them by interval
        start. The order of files with equal starts is not specified. */
    method Init(found: seq<File>)
      requires files == []
      modifies this
      ensures multiset(files) == multiset(Filter(f => Overlaps(filter, f), found))
      ensures InOrder(files)
    {
      var i := 0;
      assert found[..0] == [];
      while i < |found|
        invariant 0 <= i <= |found|
        invariant files == Filter(f => Overlaps(filter, f), found[..i])
      {
        assert found[..i + 1] == found[..i] + [found[i]];
        FilterConcat(f => Overlaps(filter, f), found[..i], [found[i]]);
        if Overlaps(filter, found[i]) {
          files := files + [found[i]];
        }
        i := i + 1;
      }
      assert found[..i] == found;
      files := SortBy(Start, files);
    }

    /** Counts the selected rows of every file. */
    method Plan()
      modifies this
      ensures |files| == |old(files)|
      ensures forall i :: 0 <= i < |files| ==> files[i] == Planned(filter, hash, old(files)[i])
    {
      var i := 0;
      while i < |files|
        invariant 0 <= i <= |files| == |old(files)|
        invariant forall j :: 0 <= j < i ==> files[j] == Planned(filter, hash, old(files)[j])
        invariant forall j :: i <= j < |files| ==> files[j] == old(files)[j]
      {
        files := files[i := Planned(filter, hash, files[i])];
        i := i + 1;
      }
    }

    /** The rows of one read: LIMIT and OFFSET over the selected rows. */
    function Rows(r: Read): seq<Raw2a>
      requires r.file < |files|
      reads this
    {
      Cut(Selected(filter, hash, files[r.file]), r.offset, r.limit)
    }
  }

  /** The order of the files is determined exactly when no two different files
      start at the same time. */
  lemma OrderIsUniqueExactly(a: seq<File>)
    requires InOrder(a)
    ensures DistinctStarts(a) <==> forall b :: multiset(b) == multiset(a) && InOrder(b) ==> a == b
  {
    if DistinctStarts(a) {
      forall b | multiset(b) == multiset(a) && InOrder(b)
        ensures a == b
      {
        OrderIsUnique(a, b);
      }
    } else {
      var f, g :| f in a && g in a && f.intervalStart == g.intervalStart && f != g;
      var i, j :| 0 <= i < |a| && 0 <= j < |a| && a[i] == f && a[j] == g;
      var b := a[i := g][j := f];
      SwapKeepsOrdered(Start, a, i, j);
      assert multiset(b) == multiset(a) && InOrder(b) && b[i] != a[i];
    }
  }

  lemma {:induction false} OrderIsUnique(a: seq<File>, b: seq<File>)
    requires multiset(a) == multiset(b) && InOrder(a) && InOrder(b) && DistinctStarts(a)
    ensures a == b
  {
    SameLength(a, b);
    if a != [] {
      SameFirst(a, b);
      SameTails(a, b);
      TailInOrder(a);
      TailInOrder(b);
      assert forall f :: f in a[1..] ==> f in a;
      OrderIsUnique(a[1..], b[1..]);
    }
  }

  lemma SameLength<T>(a: seq<T>, b: seq<T>)
    requires multiset(a) == multiset(b)
    ensures |a| == |b|
  {
    assert |multiset(a)| == |a| && |multiset(b)| == |b|;
  }

  lemma SameTails<T>(a: seq<T>, b: seq<T>)
    requires a != [] && b != [] && multiset(a) == multiset(b) && a[0] == b[0]
    ensures multiset(a[1..]) == multiset(b[1..])
  {
    MultisetCons(a);
    MultisetCons(b);
  }

  lemma {:induction false} TailInOrder(a: seq<File>)
    requires a != [] && InOrder(a)
    ensures InOrder(a[1..])
  {
    forall i, j | 0 <= i < j < |a[1..]|
      ensures a[1..][i].intervalStart <= a[1..][j].intervalStart
    {
      assert a[1..][i] == a[i + 1] && a[1..][j] == a[j + 1];
    }
  }

  lemma SameFirst(a: seq<File>, b: seq<File>)
    requires a != [] && b != []
    requires multiset(a) == multiset(b) && InOrder(a) && InOrder(b) && DistinctStarts(a)
    ensures a[0] == b[0]
  {
    assert a[0] in multiset(b) && b[0] in multiset(a);
    var i :| 0 <= i < |a| && a[i] == b[0];
    var j :| 0 <= j < |b| && b[j] == a[0];
    assert a[0].intervalStart <= a[i].intervalStart;
    assert b[0].intervalStart <= b[j].intervalStart;
  }
}
