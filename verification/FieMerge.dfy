/**
 merge-fies: the layout check, the merged rows, and their agreement with the
 rows of upload-fies. FieVerify has the verification of a merged file.
 */
module FieMerge {
  import opened Common
  import opened FieRow
  import opened FieSource
  import UploadFies

  // ----- The layout of the files -----

  datatype Gap = Gap(from: int, to: int)

  ghost predicate Positive(files: seq<File>) {
    forall f :: f in files ==> f.seconds > 0
  }

  /** What the loop compares: each file with the one before. */
  ghost predicate NeighborsDisjoint(files: seq<File>) {
    forall i :: 0 < i < |files| ==> files[i - 1].End() <= files[i].intervalStart
  }

  ghost predicate PairwiseDisjoint(files: seq<File>) {
    forall i, j :: 0 <= i < j < |files| ==>
      files[i].End() <= files[j].intervalStart || files[j].End() <= files[i].intervalStart
  }

  function Gaps(files: seq<File>): seq<Gap> {
    if |files| <= 1 then []
    else
      (if files[0].End() < files[1].intervalStart then [Gap(files[0].End(), files[1].intervalStart)] else [])
      + Gaps(files[1..])
  }

  /** The first i files are disjoint and gaps are the gaps between them. */
  ghost predicate Checked(files: seq<File>, i: nat, gaps: seq<Gap>) {
    && 1 <= i <= |files|
    && NeighborsDisjoint(files[..i])
    && gaps + Gaps(files[i - 1..]) == Gaps(files)
  }

  function GapBefore(files: seq<File>, i: nat): seq<Gap>
    requires 0 < i < |files|
  {
    var end, next := files[i - 1].End(), files[i].intervalStart;
    if end < next then [Gap(end, next)] else []
  }

  lemma {:induction false} CheckedStep(files: seq<File>, i: nat, gaps: seq<Gap>)
    requires Checked(files, i, gaps) && i < |files|
    ensures files[i - 1].End() <= files[i].intervalStart ==> Checked(files, i + 1, gaps + GapBefore(files, i))
    ensures files[i].intervalStart < files[i - 1].End() ==> !NeighborsDisjoint(files)
  {
    NextDisjoint(files, i);
    GapsFrom(files, i);
  }

  /** The gaps, or the index of the first file that overlaps its predecessor. */
  method CheckLayout(files: seq<File>) returns (r: Result<seq<Gap>, nat>)
    ensures r.Ok? <==> NeighborsDisjoint(files)
    ensures r.Ok? ==> r.value == Gaps(files)
    ensures r.Err? ==> 0 < r.error < |files| && NeighborsDisjoint(files[..r.error])
    ensures r.Err? ==> files[r.error].intervalStart < files[r.error - 1].End()
  {
    var gaps := [];
    var i := 1;
    assert files[0..] == files && [] + Gaps(files) == Gaps(files);
    while i < |files|
      invariant 1 <= i <= Max(1, |files|)
      invariant if files == [] then gaps == [] else Checked(files, i, gaps)
    {
      CheckedStep(files, i, gaps);
      var end := files[i - 1].End();
      if files[i].intervalStart < end {
        return Err(i);
      }
      if files[i].intervalStart > end {
        gaps := gaps + [Gap(end, files[i].intervalStart)];
      } else {
        assert gaps + [] == gaps;
      }
      i := i + 1;
    }
    AllChecked(files, i, gaps);
    return Ok(gaps);
  }

  lemma AllChecked(files: seq<File>, i: nat, gaps: seq<Gap>)
    requires if files == [] then gaps == [] else i == |files| && Checked(files, i, gaps)
    ensures NeighborsDisjoint(files) && gaps == Gaps(files)
  {
    if files != [] {
      assert files[..i] == files && |files[i - 1..]| == 1;
    }
  }

  lemma {:induction false} NextDisjoint(files: seq<File>, i: nat)
    requires 0 < i < |files| && NeighborsDisjoint(files[..i])
    ensures NeighborsDisjoint(files[..i + 1]) <==> files[i - 1].End() <= files[i].intervalStart
    ensures NeighborsDisjoint(files) ==> files[i - 1].End() <= files[i].intervalStart
  {
    var longer := files[..i + 1];
    assert forall k :: 0 <= k < i ==> files[..i][k] == longer[k];
    assert longer[i - 1] == files[i - 1] && longer[i] == files[i];
  }

  lemma {:induction false} GapsFrom(files: seq<File>, i: nat)
    requires 0 < i < |files|
    ensures Gaps(files[i - 1..]) == GapBefore(files, i) + Gaps(files[i..])
  {
    assert files[i - 1..][1..] == files[i..];
  }

  /** Comparing neighbors is comparing all pairs. */
  lemma NeighborsSuffice(files: seq<File>)
    requires InOrder(files) && Positive(files)
    ensures NeighborsDisjoint(files) <==> PairwiseDisjoint(files)
  {
    if NeighborsDisjoint(files) {
      forall i, j | 0 <= i < j < |files|
        ensures files[i].End() <= files[j].intervalStart
      {
        assert files[i].End() <= files[i + 1].intervalStart;
      }
    }
    if PairwiseDisjoint(files) {
      forall i | 0 < i < |files|
        ensures files[i - 1].End() <= files[i].intervalStart
      {
        assert files[i] in files;
      }
    }
  }

  function FilesAt(files: seq<File>, t: int): nat {
    if files == [] then 0
    else (if files[0].intervalStart <= t < files[0].End() then 1 else 0) + FilesAt(files[1..], t)
  }

  function GapsAt(gaps: seq<Gap>, t: int): nat {
    if gaps == [] then 0
    else (if gaps[0].from <= t < gaps[0].to then 1 else 0) + GapsAt(gaps[1..], t)
  }

  lemma {:induction false} TailIsDisjoint(files: seq<File>)
    requires |files| > 1 && Positive(files) && NeighborsDisjoint(files)
    ensures Positive(files[1..]) && NeighborsDisjoint(files[1..])
    ensures files[0].intervalStart < files[0].End() <= files[1].intervalStart < files[1].End()
  {
    var tail := files[1..];
    forall i | 0 < i < |tail|
      ensures tail[i - 1].End() <= tail[i].intervalStart
    {
      var k := i + 1;
      assert tail[i] == files[k] && tail[i - 1] == files[k - 1];
    }
    assert files[0] in files && files[1] in files;
  }

  /** Every instant of the covered span lies in exactly one file or exactly one
      reported gap, and every other instant in none. */
  lemma {:induction false} InstantsAreCoveredOnce(files: seq<File>, t: int)
    requires files != [] && Positive(files) && NeighborsDisjoint(files)
    ensures FilesAt(files, t) + GapsAt(Gaps(files), t)
         == if files[0].intervalStart <= t < files[|files| - 1].End() then 1 else 0
    ensures files[0].End() <= files[|files| - 1].End()
    decreases |files|
  {
    if |files| == 1 {
      assert FilesAt(files[1..], t) == 0;
    } else {
      var tail := files[1..];
      TailIsDisjoint(files);
      InstantsAreCoveredOnce(tail, t);
      assert tail[|tail| - 1] == files[|files| - 1];
      var end, next := files[0].End(), files[1].intervalStart;
      if end < next {
        assert Gaps(files)[1..] == Gaps(tail);
      } else {
        assert Gaps(files) == Gaps(tail);
      }
    }
  }

  // ----- The merged rows -----

  /** Times are Unix seconds. */
  datatype MergedRow = MergedRow(
    pdId: uint32,
    captureTime: int,
    fieBuildTime: Option<int>,
    nearReplyTime: Option<int>,
    farReplyTime: Option<int>,
    nearReplyAddr: Address,
    farReplyAddr: Address)

  function Unix(t: int): int {
    t / SECOND
  }

  lemma UnixIsFloor(t: int)
    ensures Unix(t) * 1_000_000_000 <= t < (Unix(t) + 1) * 1_000_000_000
  {
  }

  /** SQL subtraction: NULL when either side is. */
  function Minus(t: Option<int>, s: Option<uint8>): Option<int> {
    if t.None? || s.None? then None else Some(t.value - s.value)
  }

  function MergeRow(startSeconds: int, raw: Raw2a): MergedRow {
    var t := startSeconds + raw.captureSecond;
    var built := Minus(Some(t), raw.fieTransitS);
    MergedRow(raw.pdId, t, built, Minus(built, raw.nearReplyAgeS), Minus(built, raw.farReplyAgeS),
              raw.nearReplyAddr, raw.farReplyAddr)
  }

  /** CASE filename WHEN path THEN start ... END: the first file of that path. */
  function StartOf(files: seq<File>, path: string): int
    requires exists f :: f in files && f.path == path
  {
    if files[0].path == path then Unix(files[0].intervalStart)
    else
      assert forall f :: f in files ==> f == files[0] || f in files[1..];
      StartOf(files[1..], path)
  }

  ghost predicate DistinctPaths(files: seq<File>) {
    forall f, g :: f in files && g in files && f.path == g.path ==> f == g
  }

  lemma {:induction false} StartOfIsOwn(files: seq<File>, f: File)
    requires DistinctPaths(files) && f in files
    ensures StartOf(files, f.path) == Unix(f.intervalStart)
  {
    if files[0].path == f.path {
      assert files[0] in files;
    } else {
      assert f in files[1..];
      assert forall g :: g in files[1..] ==> g in files;
      StartOfIsOwn(files[1..], f);
    }
  }

  function MergedBlock(startSeconds: int, content: seq<Raw2a>): (r: seq<MergedRow>)
    ensures |r| == |content| && forall i :: 0 <= i < |content| ==> r[i] == MergeRow(startSeconds, content[i])
  {
    Map(raw => MergeRow(startSeconds, raw), content)
  }

  /** The rows of part, a suffix of the list of all files, in list order. */
  function MergedRows(files: seq<File>, part: seq<File>): seq<MergedRow>
    requires forall f :: f in part ==> f in files
  {
    if part == [] then []
    else MergedBlock(StartOf(files, part[0].path), part[0].content) + MergedRows(files, part[1..])
  }

  const NO_FILTER := RowFilter([], 0.0, 0, None, None)

  /** Every file's count is that of all its rows, as an unfiltered Plan sets it. */
  ghost predicate FullyCounted(files: seq<File>) {
    forall f :: f in files ==> f.rows == |f.content|
  }

  lemma {:induction false} MergedRowsCount(files: seq<File>, part: seq<File>)
    requires (forall f :: f in part ==> f in files) && FullyCounted(part)
    ensures |MergedRows(files, part)| == Sum(Counts(part))
  {
    if part != [] {
      MergedRowsCount(files, part[1..]);
      assert Counts(part)[1..] == Counts(part[1..]);
    }
  }

  /** With no filter, Plan counts every row. */
  lemma UnfilteredPlanCountsAll(hash: Hash, f: File)
    ensures Planned(NO_FILTER, hash, f).rows == |f.content|
  {
    FilterIsAll(raw => Where(NO_FILTER, hash, f, raw), f.content);
  }

  datatype MergeError = NoFiles | BadRowGroupSize | OutputExists | Overlap(file: nat) | WrongCount

  /** The checks of Merge and the file it writes. DuckDB's own failures and the
      renaming of the temporary file are left out. After an unfiltered Plan the
      count of the rows written is never wrong. */
  method Merge(files: seq<File>, rowGroupSize: int, outputExists: bool, overwrite: bool)
    returns (r: Result<seq<MergedRow>, MergeError>)
    ensures r.Ok? <==>
      && files != [] && rowGroupSize >= 1 && (outputExists ==> overwrite)
      && NeighborsDisjoint(files)
      && |MergedRows(files, files)| == Sum(Counts(files))
    ensures r.Ok? ==> r.value == MergedRows(files, files)
    ensures r == Err(NoFiles) <==> files == []
    ensures r == Err(BadRowGroupSize) <==> files != [] && rowGroupSize < 1
    ensures r == Err(OutputExists) <==> files != [] && rowGroupSize >= 1 && outputExists && !overwrite
    ensures r.Err? && r.error.Overlap? ==>
      var i := r.error.file; 0 < i < |files| && files[i].intervalStart < files[i - 1].End()
    ensures FullyCounted(files) ==> r.Ok? || !r.error.WrongCount?
  {
    if files == [] {
      return Err(NoFiles);
    }
    if rowGroupSize < 1 {
      return Err(BadRowGroupSize);
    }
    if outputExists && !overwrite {
      return Err(OutputExists);
    }
    var layout := CheckLayout(files);
    if layout.Err? {
      return Err(Overlap(layout.error));
    }
    var total := 0;
    var i := 0;
    ghost var counts := Counts(files);
    assert counts[0..] == counts;
    while i < |files|
      invariant 0 <= i <= |files|
      invariant total + Sum(counts[i..]) == Sum(counts)
    {
      SumFrom(counts, i);
      total := total + files[i].rows;
      i := i + 1;
    }
    var rows := MergedRows(files, files);
    if FullyCounted(files) {
      MergedRowsCount(files, files);
    }
    if |rows| != total {
      return Err(WrongCount);
    }
    return Ok(rows);
  }

  // ----- Agreement with upload-fies -----

  predicate SameTime(seconds: Option<int>, nanoseconds: Option<int>) {
    match (seconds, nanoseconds)
    case (None, None) => true
    case (Some(s), Some(n)) => s * SECOND == n
    case _ => false
  }

  /** The build time that an uploaded row implies. */
  function BuildTime(u: Row): Option<int> {
    if u.fieTransitS.None? then None else Some(u.captureTime - u.fieTransitS.value * SECOND)
  }

  /** The merged row and the uploaded row of one fies2a row say the same. */
  predicate Agrees(m: MergedRow, u: Row) {
    && m.pdId == u.pdId
    && m.captureTime * SECOND == u.captureTime
    && SameTime(m.nearReplyTime, u.nearReplyRecvTime)
    && SameTime(m.farReplyTime, u.farReplyRecvTime)
    && SameTime(m.fieBuildTime, BuildTime(u))
    && ToIPv6(m.nearReplyAddr) == u.nearReplyAddr
    && ToIPv6(m.farReplyAddr) == u.farReplyAddr
  }

  /** A reply age comes with an address, or leads to no time anyway. */
  predicate AgesHaveAddresses(raw: Raw2a) {
    raw.fieTransitS.Some? ==>
      (raw.nearReplyAgeS.Some? ==> raw.nearReplyAddr != []) && (raw.farReplyAgeS.Some? ==> raw.farReplyAddr != [])
  }

  /** The two commands agree on a row exactly when the file starts at a whole
      second and no age is stored without its address. In particular the times
      agree wherever the reply address is present, and NULLs propagate alike. */
  lemma RowsAgreeExactly(start: int, raw: Raw2a)
    ensures Agrees(MergeRow(Unix(start), raw), Convert2a(raw, start)) <==>
      start % SECOND == 0 && AgesHaveAddresses(raw)
    ensures start % SECOND == 0 && raw.nearReplyAddr != [] ==>
      SameTime(MergeRow(Unix(start), raw).nearReplyTime, Convert2a(raw, start).nearReplyRecvTime)
    ensures start % SECOND == 0 && raw.farReplyAddr != [] ==>
      SameTime(MergeRow(Unix(start), raw).farReplyTime, Convert2a(raw, start).farReplyRecvTime)
  {
    assert start == Unix(start) * SECOND + start % SECOND;
  }

  ghost predicate AgreeAll(ms: seq<MergedRow>, us: seq<Row>) {
    |ms| == |us| && forall i :: 0 <= i < |ms| ==> Agrees(ms[i], us[i])
  }

  ghost predicate Comparable(f: File) {
    forall raw :: raw in f.content ==> f.intervalStart % SECOND == 0 && AgesHaveAddresses(raw)
  }

  lemma AgreeAllConcat(ms: seq<MergedRow>, ns: seq<MergedRow>, us: seq<Row>, vs: seq<Row>)
    requires |ms| == |us|
    ensures AgreeAll(ms + ns, us + vs) <==> AgreeAll(ms, us) && AgreeAll(ns, vs)
  {
    if AgreeAll(ms + ns, us + vs) {
      forall i | 0 <= i < |ms| ensures Agrees(ms[i], us[i]) {
        assert (ms + ns)[i] == ms[i] && (us + vs)[i] == us[i];
      }
      forall i | 0 <= i < |ns| ensures Agrees(ns[i], vs[i]) {
        assert (ms + ns)[|ms| + i] == ns[i] && (us + vs)[|us| + i] == vs[i];
      }
    }
  }

  lemma BlocksAgreeExactly(files: seq<File>, hash: Hash, f: File)
    requires DistinctPaths(files) && f in files
    ensures var us := UploadFies.Converted(NaiveRows(NO_FILTER, hash, f), f.intervalStart);
      && |us| == |f.content|
      && (AgreeAll(MergedBlock(StartOf(files, f.path), f.content), us) <==> Comparable(f))
  {
    StartOfIsOwn(files, f);
    FilterIsAll(raw => Matches(NO_FILTER, hash, f, raw), f.content);
    var ms := MergedBlock(Unix(f.intervalStart), f.content);
    var us := UploadFies.Converted(f.content, f.intervalStart);
    forall i | 0 <= i < |f.content|
      ensures Agrees(ms[i], us[i]) <==> f.intervalStart % SECOND == 0 && AgesHaveAddresses(f.content[i])
    {
      RowsAgreeExactly(f.intervalStart, f.content[i]);
    }
    if AgreeAll(ms, us) {
      forall raw | raw in f.content
        ensures f.intervalStart % SECOND == 0 && AgesHaveAddresses(raw)
      {
        var i :| 0 <= i < |f.content| && f.content[i] == raw;
        assert Agrees(ms[i], us[i]);
      }
    }
  }

  lemma {:induction false} PartsAgreeExactly(files: seq<File>, hash: Hash, part: seq<File>)
    requires DistinctPaths(files) && forall f :: f in part ==> f in files
    ensures AgreeAll(MergedRows(files, part), Flatten(UploadFies.NaiveBlocks(NO_FILTER, hash, part)))
      <==> forall f :: f in part ==> Comparable(f)
  {
    if part != [] {
      var f, rest := part[0], part[1..];
      var blocks := UploadFies.NaiveBlocks(NO_FILTER, hash, part);
      assert blocks[1..] == UploadFies.NaiveBlocks(NO_FILTER, hash, rest);
      BlocksAgreeExactly(files, hash, f);
      PartsAgreeExactly(files, hash, rest);
      AgreeAllConcat(MergedBlock(StartOf(files, f.path), f.content), MergedRows(files, rest),
                     blocks[0], Flatten(blocks[1..]));
      assert forall g :: g in part <==> g == f || g in rest;
    }
  }

  lemma SameOrderAgreesExactly(files: seq<File>, hash: Hash)
    requires DistinctPaths(files)
    ensures AgreeAll(MergedRows(files, files), UploadFies.NaiveUpload(NO_FILTER, hash, files, 0, -1))
      <==> forall f :: f in files ==> Comparable(f)
  {
    PartsAgreeExactly(files, hash, files);
    var all := Flatten(UploadFies.NaiveBlocks(NO_FILTER, hash, files));
    assert all[0..] == all;
  }

  /** Files that cover some time and do not overlap start at different times. */
  lemma {:induction false} DisjointStartsDiffer(files: seq<File>)
    requires InOrder(files) && Positive(files) && NeighborsDisjoint(files)
    ensures DistinctStarts(files)
  {
    forall i, j | 0 <= i < j < |files|
      ensures files[i].intervalStart < files[j].intervalStart
    {
      assert files[i] in files;
      assert files[i].End() <= files[i + 1].intervalStart;
      assert Start(files[i + 1]) <= Start(files[j]);
    }
  }

  /** merge-fies, in whatever order it found and sorted the files, and any
      unfiltered upload-fies of the same files that do not overlap produce the
      same rows in the same order exactly when every file is comparable. */
  lemma MergeAgreesWithUpload(found: seq<File>, hash: Hash, merged: seq<File>, uploaded: seq<Row>)
    requires Positive(found) && DistinctPaths(found)
    requires UploadFies.Orders(merged, found) && NeighborsDisjoint(merged)
    requires UploadFies.IsFastUpload(NO_FILTER, hash, found, 0, -1, uploaded)
    ensures AgreeAll(MergedRows(merged, merged), uploaded) <==> forall f :: f in found ==> Comparable(f)
  {
    UploadFies.FastUploadIsNaive(NO_FILTER, hash, found, 0, -1, uploaded);
    var other :| UploadFies.Orders(other, found) && uploaded == UploadFies.NaiveUpload(NO_FILTER, hash, other, 0, -1);
    SameMembers(merged, found);
    DisjointStartsDiffer(merged);
    OrderIsUnique(merged, other);
    SameOrderAgreesExactly(merged, hash);
  }
}
