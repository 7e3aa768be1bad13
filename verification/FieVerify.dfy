/**
 Verify: local checks on a merged file, each comparing a row with the one before
 or counting the rows of a segment, against the global statement they stand for.
 */
module FieVerify {
  import opened Common
  import opened FieRow
  import opened FieSource
  import opened FieMerge

  /** How `//` rounds a negative quotient. */
  datatype Rounding = Floor | Truncate

  function Quotient(r: Rounding, a: int, b: nat): int
    requires b > 0
  {
    if r.Floor? || a >= 0 then a / b else -(-a / b)
  }

  /** The segments: where they start, their length, and the rounding. */
  datatype Grid = Grid(origin: int, secs: nat, rounding: Rounding)
  {
    ghost predicate Valid() { secs > 0 }

    function Seg(row: MergedRow): int
      requires Valid()
    {
      Quotient(rounding, row.captureTime - origin, secs)
    }
  }

  /** A segment is the interval of its number, except that truncation puts the
      rows of the interval before the first one in segment 0 too. */
  lemma SegIsInterval(g: Grid, row: MergedRow, k: int)
    requires g.Valid()
    ensures g.rounding.Floor? || row.captureTime >= g.origin ==>
      (g.Seg(row) == k <==> g.origin + k * g.secs <= row.captureTime < g.origin + (k + 1) * g.secs)
    ensures g.rounding.Truncate? && g.origin - g.secs < row.captureTime < g.origin ==> g.Seg(row) == 0
  {
    var d := row.captureTime - g.origin;
    QuotientIsInterval(d, g.secs, k);
    if g.rounding.Truncate? && 0 < d + g.secs && d < 0 {
      assert -d / g.secs == 0;
    }
  }

  lemma QuotientIsInterval(d: int, n: nat, k: int)
    requires n > 0
    ensures d / n == k <==> k * n <= d < (k + 1) * n
  {
    var q := d / n;
    assert d == q * n + d % n && (q + 1) * n == q * n + n;
    if k < q {
      TimesGrows(k + 1, q, n);
    } else if k > q {
      TimesGrows(q + 1, k, n);
    }
  }

  lemma TimesGrows(a: int, b: int, n: nat)
    requires a <= b
    ensures a * n <= b * n
  {
    assert b * n - a * n == (b - a) * n;
  }

  predicate Less(a: MergedRow, b: MergedRow) {
    a.pdId < b.pdId || (a.pdId == b.pdId && a.captureTime < b.captureTime)
  }

  // ----- What the query computes -----

  function RowsOf(g: Grid, rows: seq<MergedRow>, seg: int): nat
    requires g.Valid()
  {
    if rows == [] then 0 else (if g.Seg(rows[0]) == seg then 1 else 0) + RowsOf(g, rows[1..], seg)
  }

  /** Rows of seg, from index i on, whose predecessor lies in a later segment. */
  function Backward(g: Grid, rows: seq<MergedRow>, seg: int, i: nat): nat
    requires g.Valid() && 1 <= i
    decreases |rows| - i
  {
    if i >= |rows| then 0
    else
      (if g.Seg(rows[i]) == seg && g.Seg(rows[i]) < g.Seg(rows[i - 1]) then 1 else 0) + Backward(g, rows, seg, i + 1)
  }

  /** Rows of seg, from index i on, smaller than a predecessor of the segment. */
  function Unsorted(g: Grid, rows: seq<MergedRow>, seg: int, i: nat): nat
    requires g.Valid() && 1 <= i
    decreases |rows| - i
  {
    if i >= |rows| then 0
    else
      (if g.Seg(rows[i]) == seg && g.Seg(rows[i - 1]) == seg && Less(rows[i], rows[i - 1]) then 1 else 0)
      + Unsorted(g, rows, seg, i + 1)
  }

  // ----- What verification means -----

  /** An input file's segment and its number of rows. */
  datatype Want = Want(seg: int, rows: nat)

  ghost predicate Sorted(rows: seq<MergedRow>) {
    forall i, j :: 0 <= i < j < |rows| ==> !Less(rows[j], rows[i])
  }

  ghost predicate InSegment(g: Grid, rows: seq<MergedRow>, seg: int)
    requires g.Valid()
  {
    forall row :: row in rows ==> g.Seg(row) == seg
  }

  /** The rows are one contiguous block per input file, in the order of the
      files: each of the file's length, in its segment and sorted. */
  ghost predicate IsConcatenation(g: Grid, wants: seq<Want>, rows: seq<MergedRow>)
    requires g.Valid()
  {
    if wants == [] then rows == []
    else
      var n := wants[0].rows;
      && n <= |rows|
      && InSegment(g, rows[..n], wants[0].seg)
      && Sorted(rows[..n])
      && IsConcatenation(g, wants[1..], rows[n..])
  }

  ghost predicate Ascending(wants: seq<Want>) {
    forall i, j :: 0 <= i < j < |wants| ==> wants[i].seg < wants[j].seg
  }

  ghost predicate Wanted(wants: seq<Want>, seg: int) {
    exists k :: 0 <= k < |wants| && wants[k].seg == seg
  }

  /** What the local checks come to. */
  ghost predicate PassesChecks(g: Grid, wants: seq<Want>, rows: seq<MergedRow>)
    requires g.Valid()
  {
    && NeighborsOrdered(g, rows)
    && (forall row :: row in rows ==> Wanted(wants, g.Seg(row)))
    && (forall k :: 0 <= k < |wants| ==> RowsOf(g, rows, wants[k].seg) == wants[k].rows)
  }

  ghost predicate NeighborsOrdered(g: Grid, rows: seq<MergedRow>)
    requires g.Valid()
  {
    forall i :: 0 < i < |rows| ==>
      && g.Seg(rows[i - 1]) <= g.Seg(rows[i])
      && (g.Seg(rows[i - 1]) == g.Seg(rows[i]) ==> !Less(rows[i], rows[i - 1]))
  }

  // ----- The local checks amount to the global statement -----

  lemma {:induction false} SegmentsAscend(g: Grid, rows: seq<MergedRow>, i: nat, j: nat)
    requires g.Valid() && NeighborsOrdered(g, rows) && i <= j < |rows|
    ensures g.Seg(rows[i]) <= g.Seg(rows[j])
    ensures g.Seg(rows[i]) == g.Seg(rows[j]) ==> !Less(rows[j], rows[i])
    decreases j - i
  {
    if i < j {
      SegmentsAscend(g, rows, i, j - 1);
      assert g.Seg(rows[j - 1]) <= g.Seg(rows[j]);
    }
  }

  lemma {:induction false} RowsOfConcat(g: Grid, xs: seq<MergedRow>, ys: seq<MergedRow>, seg: int)
    requires g.Valid()
    ensures RowsOf(g, xs + ys, seg) == RowsOf(g, xs, seg) + RowsOf(g, ys, seg)
  {
    if xs == [] {
      assert xs + ys == ys;
    } else {
      assert (xs + ys)[0] == xs[0] && (xs + ys)[1..] == xs[1..] + ys;
      RowsOfConcat(g, xs[1..], ys, seg);
    }
  }

  lemma {:induction false} RowsOfAll(g: Grid, rows: seq<MergedRow>, seg: int)
    requires g.Valid() && InSegment(g, rows, seg)
    ensures RowsOf(g, rows, seg) == |rows|
  {
    if rows != [] {
      RowsOfAll(g, rows[1..], seg);
    }
  }

  lemma {:induction false} RowsOfNone(g: Grid, rows: seq<MergedRow>, seg: int)
    requires g.Valid() && forall row :: row in rows ==> g.Seg(row) != seg
    ensures RowsOf(g, rows, seg) == 0
  {
    if rows != [] {
      RowsOfNone(g, rows[1..], seg);
    }
  }

  /** n rows of the segment, then only rows of later ones. */
  ghost predicate StartsWith(g: Grid, rows: seq<MergedRow>, seg: int, n: nat)
    requires g.Valid()
  {
    && n <= |rows|
    && InSegment(g, rows[..n], seg)
    && forall row :: row in rows[n..] ==> seg < g.Seg(row)
  }

  lemma StartsWithCons(g: Grid, row: MergedRow, rows: seq<MergedRow>, seg: int, n: nat)
    requires g.Valid() && g.Seg(row) == seg && StartsWith(g, rows, seg, n)
    ensures StartsWith(g, [row] + rows, seg, n + 1)
  {
    assert ([row] + rows)[..n + 1] == [row] + rows[..n];
    assert ([row] + rows)[n + 1..] == rows[n..];
  }

  /** In ordered rows, the rows of the first segment are a prefix. */
  lemma {:induction false} FirstSegmentIsPrefix(g: Grid, rows: seq<MergedRow>, seg: int)
    requires g.Valid() && NeighborsOrdered(g, rows) && forall row :: row in rows ==> seg <= g.Seg(row)
    ensures StartsWith(g, rows, seg, RowsOf(g, rows, seg))
  {
    if rows != [] && g.Seg(rows[0]) == seg {
      SuffixOrdered(g, rows, 1);
      FirstSegmentIsPrefix(g, rows[1..], seg);
      StartsWithCons(g, rows[0], rows[1..], seg, RowsOf(g, rows[1..], seg));
      assert [rows[0]] + rows[1..] == rows;
    } else if rows != [] {
      forall row | row in rows
        ensures seg < g.Seg(row)
      {
        var i :| 0 <= i < |rows| && rows[i] == row;
        SegmentsAscend(g, rows, 0, i);
      }
      RowsOfNone(g, rows, seg);
    }
  }

  lemma SuffixOrdered(g: Grid, rows: seq<MergedRow>, n: nat)
    requires g.Valid() && NeighborsOrdered(g, rows) && n <= |rows|
    ensures NeighborsOrdered(g, rows[n..])
  {
    var tail := rows[n..];
    forall i | 0 < i < |tail|
      ensures g.Seg(tail[i - 1]) <= g.Seg(tail[i])
      ensures g.Seg(tail[i - 1]) == g.Seg(tail[i]) ==> !Less(tail[i], tail[i - 1])
    {
      var k := n + i;
      assert tail[i] == rows[k] && tail[i - 1] == rows[k - 1];
    }
  }

  lemma {:induction false} ChecksGiveConcatenation(g: Grid, wants: seq<Want>, rows: seq<MergedRow>)
    requires g.Valid() && Ascending(wants) && PassesChecks(g, wants, rows)
    ensures IsConcatenation(g, wants, rows)
  {
    if wants == [] {
      NothingWanted(g, rows);
    } else {
      var n, rest := wants[0].rows, wants[1..];
      forall row | row in rows
        ensures wants[0].seg <= g.Seg(row)
      {
        assert Wanted(wants, g.Seg(row));
      }
      FirstSegmentIsPrefix(g, rows, wants[0].seg);
      forall i, j | 0 <= i < j < n
        ensures !Less(rows[..n][j], rows[..n][i])
      {
        assert rows[..n][i] in rows[..n] && rows[..n][j] in rows[..n];
        SegmentsAscend(g, rows, i, j);
      }
      RestPassesChecks(g, wants, rows);
      ChecksGiveConcatenation(g, rest, rows[n..]);
    }
  }

  lemma {:induction false} NoElements<T(!new)>(xs: seq<T>)
    requires forall x :: x !in xs
    ensures xs == []
  {
    forall x
      ensures multiset(xs)[x] == 0
    {
      assert x in multiset(xs) <==> x in xs;
    }
    assert multiset(xs) == multiset{};
    assert |multiset(xs)| == |xs|;
  }

  lemma {:induction false} NothingWanted(g: Grid, rows: seq<MergedRow>)
    requires g.Valid() && forall row :: row in rows ==> Wanted([], g.Seg(row))
    ensures rows == []
  {
    forall row
      ensures row !in rows
    {
    }
    NoElements(rows);
  }

  lemma {:induction false} RestPassesChecks(g: Grid, wants: seq<Want>, rows: seq<MergedRow>)
    requires g.Valid() && Ascending(wants) && wants != [] && PassesChecks(g, wants, rows)
    requires StartsWith(g, rows, wants[0].seg, wants[0].rows)
    ensures PassesChecks(g, wants[1..], rows[wants[0].rows..])
  {
    var n, rest := wants[0].rows, wants[1..];
    SuffixOrdered(g, rows, n);
    forall row | row in rows[n..]
      ensures Wanted(rest, g.Seg(row))
    {
      assert row in rows;
      var k :| 0 <= k < |wants| && wants[k].seg == g.Seg(row);
      assert rest[k - 1].seg == g.Seg(row);
    }
    forall k | 0 <= k < |rest|
      ensures RowsOf(g, rows[n..], rest[k].seg) == rest[k].rows
    {
      assert wants[k + 1] == rest[k] && wants[0].seg < wants[k + 1].seg;
      RowsOfSuffix(g, rows, n, wants[0].seg, rest[k].seg);
    }
  }

  lemma RowsOfSuffix(g: Grid, rows: seq<MergedRow>, n: nat, first: int, seg: int)
    requires g.Valid() && n <= |rows| && InSegment(g, rows[..n], first) && first != seg
    ensures RowsOf(g, rows[n..], seg) == RowsOf(g, rows, seg)
  {
    RowsOfNone(g, rows[..n], seg);
    RowsOfConcat(g, rows[..n], rows[n..], seg);
    assert rows[..n] + rows[n..] == rows;
  }

  lemma {:induction false} ConcatenationPassesChecks(g: Grid, wants: seq<Want>, rows: seq<MergedRow>)
    requires g.Valid() && Ascending(wants) && IsConcatenation(g, wants, rows)
    ensures PassesChecks(g, wants, rows)
  {
    if wants != [] {
      ConcatenationPassesChecks(g, wants[1..], rows[wants[0].rows..]);
      JoinPassesChecks(g, wants, rows);
    }
  }

  lemma {:induction false} RestIsLater(g: Grid, wants: seq<Want>, rest: seq<MergedRow>)
    requires g.Valid() && Ascending(wants) && wants != [] && PassesChecks(g, wants[1..], rest)
    ensures forall row :: row in rest ==> wants[0].seg < g.Seg(row) && Wanted(wants, g.Seg(row))
  {
    forall row | row in rest
      ensures wants[0].seg < g.Seg(row) && Wanted(wants, g.Seg(row))
    {
      var k :| 0 <= k < |wants[1..]| && wants[1..][k].seg == g.Seg(row);
      assert wants[k + 1].seg == g.Seg(row);
    }
  }

  lemma {:induction false} JoinPassesChecks(g: Grid, wants: seq<Want>, rows: seq<MergedRow>)
    requires g.Valid() && Ascending(wants) && wants != [] && wants[0].rows <= |rows|
    requires InSegment(g, rows[..wants[0].rows], wants[0].seg) && Sorted(rows[..wants[0].rows])
    requires PassesChecks(g, wants[1..], rows[wants[0].rows..])
    ensures PassesChecks(g, wants, rows)
  {
    var n := wants[0].rows;
    RestIsLater(g, wants, rows[n..]);
    JoinIsOrdered(g, rows, n, wants[0].seg);
    forall row | row in rows
      ensures Wanted(wants, g.Seg(row))
    {
      if row in rows[..n] {
        assert wants[0].seg == g.Seg(row);
      } else {
        assert rows == rows[..n] + rows[n..];
        assert row in rows[n..];
      }
    }
    forall k | 0 <= k < |wants|
      ensures RowsOf(g, rows, wants[k].seg) == wants[k].rows
    {
      JoinCount(g, wants, rows, k);
    }
  }

  lemma {:induction false} JoinCount(g: Grid, wants: seq<Want>, rows: seq<MergedRow>, k: nat)
    requires g.Valid() && Ascending(wants) && k < |wants|
    requires StartsWith(g, rows, wants[0].seg, wants[0].rows)
    requires PassesChecks(g, wants[1..], rows[wants[0].rows..])
    ensures RowsOf(g, rows, wants[k].seg) == wants[k].rows
  {
    var n := wants[0].rows;
    if k == 0 {
      RowsOfPrefix(g, rows, n, wants[0].seg);
    } else {
      assert wants[1..][k - 1] == wants[k] && wants[0].seg < wants[k].seg;
      RowsOfSuffix(g, rows, n, wants[0].seg, wants[k].seg);
    }
  }

  lemma RowsOfPrefix(g: Grid, rows: seq<MergedRow>, n: nat, seg: int)
    requires g.Valid() && StartsWith(g, rows, seg, n)
    ensures RowsOf(g, rows, seg) == n
  {
    RowsOfAll(g, rows[..n], seg);
    RowsOfNone(g, rows[n..], seg);
    RowsOfConcat(g, rows[..n], rows[n..], seg);
    assert rows[..n] + rows[n..] == rows;
  }

  lemma JoinIsOrdered(g: Grid, rows: seq<MergedRow>, n: nat, seg: int)
    requires g.Valid() && n <= |rows| && InSegment(g, rows[..n], seg) && Sorted(rows[..n])
    requires NeighborsOrdered(g, rows[n..]) && forall row :: row in rows[n..] ==> seg < g.Seg(row)
    ensures NeighborsOrdered(g, rows)
  {
    forall i | 0 < i < |rows|
      ensures g.Seg(rows[i - 1]) <= g.Seg(rows[i])
      ensures g.Seg(rows[i - 1]) == g.Seg(rows[i]) ==> !Less(rows[i], rows[i - 1])
    {
      if i < n {
        assert rows[..n][i] == rows[i] && rows[..n][i - 1] == rows[i - 1];
      } else if i == n {
        assert rows[..n][n - 1] == rows[n - 1] && rows[n..][0] == rows[n];
      } else {
        assert rows[n..][i - n] == rows[i] && rows[n..][i - n - 1] == rows[i - 1];
      }
    }
  }

  // ----- The method -----

  /** f is one of the intervals of length secs counted from origin. */
  predicate OnGrid(origin: int, secs: nat, f: File)
    requires secs > 0
  {
    f.seconds == secs && (Unix(f.intervalStart) - origin) % secs == 0
  }

  /** The files are equal-length intervals aligned on the first one. */
  predicate Aligned(files: seq<File>)
    requires files != [] && files[0].seconds > 0
  {
    forall f :: f in files ==> OnGrid(Unix(files[0].intervalStart), files[0].seconds, f)
  }

  /** The files are intervals of one length, each a number of lengths from the
      first. */
  ghost predicate AreSteps(files: seq<File>)
    requires files != []
  {
    forall f :: f in files ==>
      f.seconds == files[0].seconds && IsStep(Unix(f.intervalStart) - Unix(files[0].intervalStart), f.seconds)
  }

  ghost predicate IsStep(distance: int, secs: nat) {
    exists k: int :: distance == k * secs
  }

  lemma {:induction false} AlignedExactly(files: seq<File>)
    requires files != [] && files[0].seconds > 0
    ensures Aligned(files) <==> AreSteps(files)
  {
    var origin, secs := Unix(files[0].intervalStart), files[0].seconds;
    forall f | f in files
      ensures OnGrid(origin, secs, f) <==> f.seconds == secs && IsStep(Unix(f.intervalStart) - origin, f.seconds)
    {
      StepExactly(Unix(f.intervalStart) - origin, secs);
    }
  }

  lemma StepExactly(distance: int, secs: nat)
    requires secs > 0
    ensures distance % secs == 0 <==> IsStep(distance, secs)
  {
    assert distance == distance / secs * secs + distance % secs;
    if k: int :| distance == k * secs {
      QuotientIsInterval(distance, secs, k);
      assert (k + 1) * secs == k * secs + secs;
    }
  }

  function GridOf(files: seq<File>, rounding: Rounding): Grid
    requires files != []
  {
    Grid(Unix(files[0].intervalStart), files[0].seconds, rounding)
  }

  function WantOf(g: Grid, f: File): Want
    requires g.Valid()
  {
    Want((Unix(f.intervalStart) - g.origin) / g.secs, f.rows)
  }

  function Wants(g: Grid, files: seq<File>): (r: seq<Want>)
    requires g.Valid()
    ensures |r| == |files| && forall i :: 0 <= i < |files| ==> r[i] == WantOf(g, files[i])
  {
    if files == [] then [] else [WantOf(g, files[0])] + Wants(g, files[1..])
  }

  lemma {:induction false} LayoutGivesAscending(files: seq<File>, rounding: Rounding)
    requires files != [] && files[0].seconds > 0 && InOrder(files) && NeighborsDisjoint(files) && Aligned(files)
    ensures Ascending(Wants(GridOf(files, rounding), files))
  {
    var g := GridOf(files, rounding);
    forall i, j | 0 <= i < j < |files|
      ensures WantOf(g, files[i]).seg < WantOf(g, files[j]).seg
    {
      assert files[i] in files;
      assert files[i].End() <= files[i + 1].intervalStart <= files[j].intervalStart;
      LaterSegment(g, files[i], files[j]);
    }
  }

  lemma LaterSegment(g: Grid, f: File, h: File)
    requires g.secs > 0 && f.seconds == g.secs && f.End() <= h.intervalStart
    ensures WantOf(g, f).seg < WantOf(g, h).seg
  {
    UnixAdds(f.intervalStart, f.seconds);
    UnixGrows(f.End(), h.intervalStart);
    QuotientGrows(Unix(f.intervalStart) - g.origin, Unix(h.intervalStart) - g.origin, g.secs);
  }

  lemma UnixGrows(t: int, u: int)
    requires t <= u
    ensures Unix(t) <= Unix(u)
  {
  }

  lemma QuotientGrows(a: int, b: int, n: int)
    requires n > 0 && a + n <= b
    ensures a / n < b / n
  {
    var q, r := a / n, b / n;
    assert q * n <= a && b < (r + 1) * n;
    assert (r - q) * n > 0;
    PositiveFactor(r - q, n);
  }

  lemma PositiveFactor(k: int, n: int)
    requires n > 0 && k * n > 0
    ensures k > 0
  {
  }

  lemma UnixAdds(t: int, n: int)
    ensures Unix(t + n * SECOND) == Unix(t) + n
  {
  }

  /** The want map: later files overwrite earlier ones of the same segment. */
  function WantMap(wants: seq<Want>): map<int, nat> {
    if wants == [] then map[]
    else
      var last := wants[|wants| - 1];
      WantMap(wants[..|wants| - 1])[last.seg := last.rows]
  }

  lemma {:induction false} WantMapSnoc(wants: seq<Want>, i: nat)
    requires i < |wants|
    ensures WantMap(wants[..i + 1]) == WantMap(wants[..i])[wants[i].seg := wants[i].rows]
  {
    assert wants[..i + 1][..i] == wants[..i];
  }

  lemma {:induction false} WantMapKeys(wants: seq<Want>)
    ensures forall seg :: seg in WantMap(wants) <==> Wanted(wants, seg)
  {
    if wants != [] {
      var n := |wants| - 1;
      var before := wants[..n];
      WantMapKeys(before);
      forall seg
        ensures Wanted(wants, seg) <==> seg == wants[n].seg || Wanted(before, seg)
      {
        if Wanted(before, seg) {
          var k :| 0 <= k < n && before[k].seg == seg;
          assert wants[k].seg == seg;
        }
        if Wanted(wants, seg) && seg != wants[n].seg {
          var k :| 0 <= k < |wants| && wants[k].seg == seg;
          assert before[k].seg == seg;
        }
      }
    }
  }

  lemma {:induction false} WantMapValue(wants: seq<Want>, k: nat)
    requires Ascending(wants) && k < |wants|
    ensures wants[k].seg in WantMap(wants) && WantMap(wants)[wants[k].seg] == wants[k].rows
  {
    var n := |wants| - 1;
    if k < n {
      WantMapValue(wants[..n], k);
      assert wants[k].seg < wants[n].seg;
    }
  }

  lemma {:induction false} WantMapLooksUp(wants: seq<Want>)
    requires Ascending(wants)
    ensures forall seg :: seg in WantMap(wants) <==> Wanted(wants, seg)
    ensures forall k :: 0 <= k < |wants| ==>
      wants[k].seg in WantMap(wants) && WantMap(wants)[wants[k].seg] == wants[k].rows
  {
    WantMapKeys(wants);
    forall k | 0 <= k < |wants|
      ensures wants[k].seg in WantMap(wants) && WantMap(wants)[wants[k].seg] == wants[k].rows
    {
      WantMapValue(wants, k);
    }
  }

  function Segs(g: Grid, rows: seq<MergedRow>): set<int>
    requires g.Valid()
  {
    set row | row in rows :: g.Seg(row)
  }

  /** The checks on one group of the query's result. */
  ghost predicate GroupPasses(g: Grid, want: map<int, nat>, rows: seq<MergedRow>, seg: int)
    requires g.Valid()
  {
    && seg in want && want[seg] == RowsOf(g, rows, seg)
    && Backward(g, rows, seg, 1) == 0
    && Unsorted(g, rows, seg, 1) == 0
  }

  lemma {:induction false} NoneBackward(g: Grid, rows: seq<MergedRow>, seg: int, i: nat)
    requires g.Valid() && 1 <= i
    ensures Backward(g, rows, seg, i) == 0 <==>
      forall j :: i <= j < |rows| && g.Seg(rows[j]) == seg ==> g.Seg(rows[j - 1]) <= seg
    decreases |rows| - i
  {
    if i < |rows| {
      NoneBackward(g, rows, seg, i + 1);
    }
  }

  lemma {:induction false} NoneUnsorted(g: Grid, rows: seq<MergedRow>, seg: int, i: nat)
    requires g.Valid() && 1 <= i
    ensures Unsorted(g, rows, seg, i) == 0 <==>
      forall j :: i <= j < |rows| && g.Seg(rows[j]) == seg && g.Seg(rows[j - 1]) == seg ==> !Less(rows[j], rows[j - 1])
    decreases |rows| - i
  {
    if i < |rows| {
      NoneUnsorted(g, rows, seg, i + 1);
    }
  }

  lemma GroupsOrderNeighbors(g: Grid, rows: seq<MergedRow>)
    requires g.Valid()
    ensures (forall seg :: seg in Segs(g, rows) ==>
               Backward(g, rows, seg, 1) == 0 && Unsorted(g, rows, seg, 1) == 0) <==> NeighborsOrdered(g, rows)
  {
    forall seg
      ensures Backward(g, rows, seg, 1) == 0 <==>
        forall j :: 1 <= j < |rows| && g.Seg(rows[j]) == seg ==> g.Seg(rows[j - 1]) <= seg
      ensures Unsorted(g, rows, seg, 1) == 0 <==>
        forall j :: 1 <= j < |rows| && g.Seg(rows[j]) == seg && g.Seg(rows[j - 1]) == seg ==> !Less(rows[j], rows[j - 1])
    {
      NoneBackward(g, rows, seg, 1);
      NoneUnsorted(g, rows, seg, 1);
    }
    forall i | 0 < i < |rows|
      ensures g.Seg(rows[i]) in Segs(g, rows)
    {
      assert rows[i] in rows;
    }
  }

  ghost predicate GroupsPass(g: Grid, want: map<int, nat>, rows: seq<MergedRow>)
    requires g.Valid()
  {
    && (forall seg :: seg in Segs(g, rows) ==> GroupPasses(g, want, rows, seg))
    && (forall seg :: seg in want && seg !in Segs(g, rows) ==> want[seg] == 0)
  }

  lemma GroupsPassIsPassesChecks(g: Grid, wants: seq<Want>, rows: seq<MergedRow>)
    requires g.Valid() && Ascending(wants)
    ensures GroupsPass(g, WantMap(wants), rows) <==> PassesChecks(g, wants, rows)
  {
    var want := WantMap(wants);
    WantMapLooksUp(wants);
    GroupsOrderNeighbors(g, rows);
    if GroupsPass(g, want, rows) {
      forall row | row in rows
        ensures Wanted(wants, g.Seg(row))
      {
        assert g.Seg(row) in Segs(g, rows);
      }
      forall k | 0 <= k < |wants|
        ensures RowsOf(g, rows, wants[k].seg) == wants[k].rows
      {
        if wants[k].seg !in Segs(g, rows) {
          RowsOfNone(g, rows, wants[k].seg);
          assert Wanted(wants, wants[k].seg);
        }
      }
    }
    if PassesChecks(g, wants, rows) {
      forall seg | seg in want
        ensures want[seg] == RowsOf(g, rows, seg)
      {
        var k :| 0 <= k < |wants| && wants[k].seg == seg;
      }
      forall seg | seg in want && seg !in Segs(g, rows)
        ensures want[seg] == 0
      {
        RowsOfNone(g, rows, seg);
      }
    }
  }

  /** The rows wanted per segment, unless the files are not aligned. */
  method CollectWants(files: seq<File>, g: Grid) returns (aligned: bool, want: map<int, nat>)
    requires files != [] && files[0].seconds > 0
    requires g == GridOf(files, g.rounding)
    ensures aligned <==> Aligned(files)
    ensures aligned ==> want == WantMap(Wants(g, files))
  {
    ghost var wants := Wants(g, files);
    want := map[];
    var i := 0;
    while i < |files|
      invariant 0 <= i <= |files|
      invariant forall k :: 0 <= k < i ==> OnGrid(g.origin, g.secs, files[k])
      invariant want == WantMap(wants[..i])
    {
      if !OnGrid(g.origin, g.secs, files[i]) {
        assert files[i] in files;
        return false, map[];
      }
      WantMapSnoc(wants, i);
      var w := WantOf(g, files[i]);
      want := want[w.seg := w.rows];
      i := i + 1;
    }
    assert wants[..i] == wants;
    aligned := true;
  }

  method Pick<T(==)>(s: set<T>) returns (x: T)
    requires s != {}
    ensures x in s
  {
    x :| x in s;
  }

  /** The loop over the query's groups. It deletes the groups it saw. */
  method CheckGroups(g: Grid, want: map<int, nat>, rows: seq<MergedRow>) returns (ok: bool, left: map<int, nat>)
    requires g.Valid()
    ensures left == want - Segs(g, rows)
    ensures ok <==> forall seg :: seg in Segs(g, rows) ==> GroupPasses(g, want, rows, seg)
  {
    ok, left := true, want;
    var todo := Segs(g, rows);
    ghost var seen := {};
    while todo != {}
      invariant seen + todo == Segs(g, rows) && seen !! todo
      invariant left == want - seen
      invariant ok <==> forall seg :: seg in seen ==> GroupPasses(g, want, rows, seg)
      decreases todo
    {
      var seg := Pick(todo);
      var n, back, unsorted := RowsOf(g, rows, seg), Backward(g, rows, seg, 1), Unsorted(g, rows, seg, 1);
      var passes := seg in left && left[seg] == n && back == 0 && unsorted == 0;
      assert passes <==> GroupPasses(g, want, rows, seg);
      if !passes {
        ok := false;
      }
      left := left - {seg};
      todo, seen := todo - {seg}, seen + {seg};
    }
    assert seen == Segs(g, rows);
  }

  /** The loop over what is left of want. */
  method CheckLeft(left: map<int, nat>) returns (ok: bool)
    ensures ok <==> forall seg :: seg in left ==> left[seg] == 0
  {
    ok := true;
    var todo: set<int> := left.Keys;
    while todo != {}
      invariant todo <= left.Keys
      invariant ok <==> forall seg :: seg in left && seg !in todo ==> left[seg] == 0
      decreases |todo|
    {
      var seg := Pick(todo);
      if left[seg] > 0 {
        ok := false;
      }
      todo := todo - {seg};
    }
  }

  // ----- What acceptance means in time -----

  predicate InInterval(f: File, row: MergedRow) {
    Unix(f.intervalStart) <= row.captureTime < Unix(f.intervalStart) + f.seconds
  }

  /** The rows are one contiguous block per file, in the order of the files: each
      of the file's length, inside its interval and sorted. */
  ghost predicate IsTimeConcatenation(files: seq<File>, rows: seq<MergedRow>) {
    if files == [] then rows == []
    else
      var n := files[0].rows;
      && n <= |rows|
      && (forall row :: row in rows[..n] ==> InInterval(files[0], row))
      && Sorted(rows[..n])
      && IsTimeConcatenation(files[1..], rows[n..])
  }

  /** No row is captured before the first interval, or `//` rounds down. */
  ghost predicate RoundsDown(g: Grid, rows: seq<MergedRow>) {
    g.rounding.Floor? || forall row :: row in rows ==> g.origin <= row.captureTime
  }

  lemma SegmentIsOwnInterval(g: Grid, f: File, row: MergedRow)
    requires g.Valid() && OnGrid(g.origin, g.secs, f)
    requires g.rounding.Floor? || g.origin <= row.captureTime
    ensures g.Seg(row) == WantOf(g, f).seg <==> InInterval(f, row)
  {
    var k := (Unix(f.intervalStart) - g.origin) / g.secs;
    SegIsInterval(g, row, k);
    assert g.origin + k * g.secs == Unix(f.intervalStart);
    assert (k + 1) * g.secs == k * g.secs + g.secs;
  }

  lemma BlockInInterval(g: Grid, f: File, rows: seq<MergedRow>)
    requires g.Valid() && OnGrid(g.origin, g.secs, f) && g.origin <= Unix(f.intervalStart)
    ensures (forall row :: row in rows ==> InInterval(f, row)) <==>
      InSegment(g, rows, WantOf(g, f).seg) && RoundsDown(g, rows)
  {
    forall row | row in rows && (g.rounding.Floor? || g.origin <= row.captureTime)
      ensures g.Seg(row) == WantOf(g, f).seg <==> InInterval(f, row)
    {
      SegmentIsOwnInterval(g, f, row);
    }
  }

  ghost predicate OnGridFrom(g: Grid, files: seq<File>)
    requires g.Valid()
  {
    forall f :: f in files ==> OnGrid(g.origin, g.secs, f) && g.origin <= Unix(f.intervalStart)
  }

  /** Being a concatenation by segments is being one by time intervals exactly
      when nothing is rounded up. */
  lemma {:induction false} TimeConcatenationExactly(g: Grid, files: seq<File>, rows: seq<MergedRow>)
    requires g.Valid() && OnGridFrom(g, files)
    ensures IsTimeConcatenation(files, rows) <==> IsConcatenation(g, Wants(g, files), rows) && RoundsDown(g, rows)
  {
    if files != [] && files[0].rows <= |rows| {
      var n := files[0].rows;
      assert Wants(g, files)[1..] == Wants(g, files[1..]);
      BlockInInterval(g, files[0], rows[..n]);
      TimeConcatenationExactly(g, files[1..], rows[n..]);
      assert rows == rows[..n] + rows[n..];
      assert RoundsDown(g, rows) <==> RoundsDown(g, rows[..n]) && RoundsDown(g, rows[n..]);
    }
  }

  lemma {:induction false} AlignedIsOnGrid(files: seq<File>, rounding: Rounding)
    requires files != [] && files[0].seconds > 0 && InOrder(files) && Aligned(files)
    ensures OnGridFrom(GridOf(files, rounding), files)
  {
    forall f | f in files
      ensures Unix(files[0].intervalStart) <= Unix(f.intervalStart)
    {
      var i :| 0 <= i < |files| && files[i] == f;
      assert i > 0 ==> files[0].intervalStart <= files[i].intervalStart;
    }
  }

  /** If `//` truncates, a row before the first interval passes as one of it. */
  lemma TruncationAcceptsEarlyRow()
    ensures exists files: seq<File>, rows: seq<MergedRow> ::
      && files != [] && files[0].seconds > 0 && Aligned(files)
      && IsConcatenation(GridOf(files, Truncate), Wants(GridOf(files, Truncate), files), rows)
      && !IsTimeConcatenation(files, rows)
  {
    var f := File("f", 0, 900, [], 1);
    var row := MergedRow(1, -1, None, None, None, [], []);
    var files, rows := [f], [row];
    var g := GridOf(files, Truncate);
    SegIsInterval(g, row, 0);
    assert files[1..] == [] && rows[1..] == [] && rows[..1] == rows;
    assert Wants(g, files)[1..] == [];
    assert row in rows[..1] && !InInterval(f, row);
    assert IsConcatenation(g, Wants(g, files), rows);
  }

  /** Verify accepts a file exactly when the inputs are aligned and the file is
      the concatenation of one good block per input, by segments; and, unless a
      row before the first interval is rounded into it, by time intervals. */
  method Verify(files: seq<File>, rows: seq<MergedRow>, rounding: Rounding) returns (ok: bool)
    requires files != [] && files[0].seconds > 0 && InOrder(files) && NeighborsDisjoint(files)
    ensures ok <==>
      && Aligned(files)
      && IsConcatenation(GridOf(files, rounding), Wants(GridOf(files, rounding), files), rows)
    ensures ok && RoundsDown(GridOf(files, rounding), rows) <==> AreSteps(files) && IsTimeConcatenation(files, rows)
  {
    var g := GridOf(files, rounding);
    AlignedExactly(files);
    var aligned, want := CollectWants(files, g);
    if !aligned {
      return false;
    }
    LayoutGivesAscending(files, rounding);
    ChecksDecide(g, Wants(g, files), rows);
    AlignedIsOnGrid(files, rounding);
    TimeConcatenationExactly(g, files, rows);
    var groupsOk, left := CheckGroups(g, want, rows);
    var leftOk := CheckLeft(left);
    assert forall seg :: seg in left <==> seg in want && seg !in Segs(g, rows);
    ok := groupsOk && leftOk;
  }

  lemma ChecksDecide(g: Grid, wants: seq<Want>, rows: seq<MergedRow>)
    requires g.Valid() && Ascending(wants)
    ensures GroupsPass(g, WantMap(wants), rows) <==> IsConcatenation(g, wants, rows)
  {
    GroupsPassIsPassesChecks(g, wants, rows);
    if PassesChecks(g, wants, rows) {
      ChecksGiveConcatenation(g, wants, rows);
    }
    if IsConcatenation(g, wants, rows) {
      ConcatenationPassesChecks(g, wants, rows);
    }
  }

  // ----- Merge's own output -----

  /** The file's rows are in (pd_id, capture_second) order, as the format says. */
  ghost predicate SortedContent(f: File) {
    forall i, j :: 0 <= i < j < |f.content| ==> !RawLess(f.content[j], f.content[i])
  }

  predicate RawLess(a: Raw2a, b: Raw2a) {
    a.pdId < b.pdId || (a.pdId == b.pdId && a.captureSecond < b.captureSecond)
  }

  /** Exactly the rows of a well-formed file fall into the file's segment. */
  lemma BlockInSegmentExactly(g: Grid, f: File)
    requires g.Valid() && Unix(f.intervalStart) >= g.origin && OnGrid(g.origin, g.secs, f)
    ensures InSegment(g, MergedBlock(Unix(f.intervalStart), f.content), WantOf(g, f).seg) <==> WellFormed(f)
  {
    var start := Unix(f.intervalStart);
    var block := MergedBlock(start, f.content);
    forall i | 0 <= i < |block|
      ensures g.Seg(block[i]) == WantOf(g, f).seg <==> f.content[i].captureSecond < f.seconds
    {
      SecondInSegment(start - g.origin, f.content[i].captureSecond, g.secs);
    }
    if WellFormed(f) {
      forall row | row in block
        ensures g.Seg(row) == WantOf(g, f).seg
      {
        var i :| 0 <= i < |block| && block[i] == row;
        assert f.content[i] in f.content;
      }
    } else {
      var raw :| raw in f.content && raw.captureSecond >= f.seconds;
      var i :| 0 <= i < |f.content| && f.content[i] == raw;
      assert block[i] in block;
    }
  }

  lemma SecondInSegment(a: int, second: nat, n: nat)
    requires n > 0 && a % n == 0
    ensures (a + second) / n == a / n <==> second < n
  {
    var k := a / n;
    assert a == k * n;
    QuotientIsInterval(a + second, n, k);
    assert (k + 1) * n == k * n + n;
  }

  lemma BlockSorted(start: int, f: File)
    ensures Sorted(MergedBlock(start, f.content)) <==> SortedContent(f)
  {
    var block := MergedBlock(start, f.content);
    forall i, j | 0 <= i < j < |block|
      ensures Less(block[j], block[i]) <==> RawLess(f.content[j], f.content[i])
    {
    }
    assert Sorted(block) ==> forall i, j :: 0 <= i < j < |block| ==> !Less(block[j], block[i]);
  }

  /** Every file is well formed and sorted. */
  ghost predicate AllAcceptable(files: seq<File>) {
    forall f :: f in files ==> WellFormed(f) && SortedContent(f)
  }

  lemma {:induction false} MergedPartVerifies(g: Grid, files: seq<File>, part: seq<File>)
    requires g.Valid() && DistinctPaths(files)
    requires (forall f :: f in part ==> f in files) && FullyCounted(part) && OnGridFrom(g, part)
    ensures IsConcatenation(g, Wants(g, part), MergedRows(files, part)) <==> AllAcceptable(part)
  {
    if part != [] {
      var f, rest := part[0], part[1..];
      StartOfIsOwn(files, f);
      BlockInSegmentExactly(g, f);
      BlockSorted(Unix(f.intervalStart), f);
      MergedPartVerifies(g, files, rest);
      var block := MergedBlock(Unix(f.intervalStart), f.content);
      assert MergedRows(files, part)[..|block|] == block;
      assert MergedRows(files, part)[|block|..] == MergedRows(files, rest);
      assert Wants(g, part)[1..] == Wants(g, rest);
      assert forall h :: h in part <==> h == f || h in rest;
    }
  }

  /** No merged row lies before the first interval, so rounding has no part. */
  lemma {:induction false} MergedPartRoundsDown(g: Grid, files: seq<File>, part: seq<File>)
    requires DistinctPaths(files) && forall f :: f in part ==> f in files && g.origin <= Unix(f.intervalStart)
    ensures RoundsDown(g, MergedRows(files, part))
  {
    if part != [] {
      StartOfIsOwn(files, part[0]);
      MergedPartRoundsDown(g, files, part[1..]);
    }
  }

  /** The merged file of aligned inputs, each counted in full, is accepted exactly
      when every input is well formed and sorted, and then every row lies in the
      interval of its file. A row at or past the end of its interval is merged,
      and then fails the verification. */
  lemma {:induction false} MergeVerifies(files: seq<File>, rounding: Rounding)
    requires files != [] && files[0].seconds > 0 && InOrder(files) && DistinctPaths(files) && Aligned(files)
    requires FullyCounted(files)
    ensures var g, rows := GridOf(files, rounding), MergedRows(files, files);
      && (IsConcatenation(g, Wants(g, files), rows) <==> AllAcceptable(files))
      && (IsTimeConcatenation(files, rows) <==> AllAcceptable(files))
  {
    var g, rows := GridOf(files, rounding), MergedRows(files, files);
    AlignedIsOnGrid(files, rounding);
    MergedPartVerifies(g, files, files);
    MergedPartRoundsDown(g, files, files);
    TimeConcatenationExactly(g, files, rows);
  }
}
