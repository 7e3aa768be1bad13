/**
 The cover selection script: for each FDH of a run, a (near address, destination)
 pair whose near address may be NULL, the PD that yielded it most often.
 */
module CoverPds {
  import opened Common

  datatype Fie = Fie(pdId: nat, near: Option<int>, far: Option<int>)

  datatype Pd = Pd(id: nat, destination: int)

  datatype Handle = Handle(near: Option<int>, destination: int)

  /** A row of the join of the FIEs and the PDs, before grouping. */
  datatype Yield = Yield(handle: Handle, id: nat, farReplied: bool)

  /** cityHash64 of a PD ID, which is not modeled. */
  type Hash = nat -> nat

  // ----- The queries -----

  function YieldsOf(f: Fie, pds: seq<Pd>): (r: seq<Yield>)
    ensures forall y :: y in r ==> y.id == f.pdId && exists p :: p in pds && p.id == y.id
  {
    if pds == [] then []
    else
      (if pds[0].id == f.pdId then [Yield(Handle(f.near, pds[0].destination), f.pdId, f.far.Some?)] else [])
      + YieldsOf(f, pds[1..])
  }

  function Joined(fies: seq<Fie>, pds: seq<Pd>): (r: seq<Yield>)
    ensures forall y :: y in r ==> exists p :: p in pds && p.id == y.id
  {
    if fies == [] then [] else YieldsOf(fies[0], pds) + Joined(fies[1..], pds)
  }

  /** GROUP BY near_address, destination_address: each handle once, NULL being a
      value like any other. */
  function Handles(ys: seq<Yield>): (r: seq<Handle>)
    ensures forall h :: h in r <==> exists y :: y in ys && y.handle == h
    ensures forall i, j :: 0 <= i < j < |r| ==> r[i] != r[j]
  {
    if ys == [] then []
    else
      var rest := Handles(ys[1..]);
      assert forall y :: y in ys <==> y == ys[0] || y in ys[1..];
      if ys[0].handle in rest then rest else [ys[0].handle] + rest
  }

  predicate IsYielded(ys: seq<Yield>, h: Handle, id: nat) {
    exists y :: y in ys && y.handle == h && y.id == id
  }

  function Occurrences(ys: seq<Yield>, h: Handle, id: nat): nat {
    if ys == [] then 0 else (if ys[0].handle == h && ys[0].id == id then 1 else 0) + Occurrences(ys[1..], h, id)
  }

  predicate FarReplied(ys: seq<Yield>, h: Handle, id: nat) {
    exists y :: y in ys && y.handle == h && y.id == id && y.farReplied
  }

  /** The order of argMax: occurrences, then a far reply, then the hash. */
  predicate Precedes(ys: seq<Yield>, hash: Hash, h: Handle, a: nat, b: nat) {
    var m, n := Occurrences(ys, h, a), Occurrences(ys, h, b);
    var p, q := FarReplied(ys, h, a), FarReplied(ys, h, b);
    m < n || (m == n && ((!p && q) || (p == q && hash(a) < hash(b))))
  }

  /** id may be argMax's choice for h: none of the PDs that yielded h beats it. */
  ghost predicate IsWinner(ys: seq<Yield>, hash: Hash, h: Handle, id: nat) {
    IsYielded(ys, h, id) && forall other :: IsYielded(ys, h, other) ==> !Precedes(ys, hash, h, id, other)
  }

  /** winners[i] is the PD chosen for the i-th handle. */
  ghost predicate IsSelection(ys: seq<Yield>, hash: Hash, winners: seq<nat>) {
    && |winners| == |Handles(ys)|
    && forall i :: 0 <= i < |winners| ==> IsWinner(ys, hash, Handles(ys)[i], winners[i])
  }

  datatype CoverRow = CoverRow(pd: Pd, coveredFdhs: nat, likelyNullNear: bool)

  predicate WinsNullNear(handles: seq<Handle>, winners: seq<nat>, id: nat)
    requires |handles| == |winners|
  {
    exists i :: 0 <= i < |winners| && winners[i] == id && handles[i].near.None?
  }

  /** The table: every PD row whose ID won some handle. */
  function CoverTable(pds: seq<Pd>, handles: seq<Handle>, winners: seq<nat>): seq<CoverRow>
    requires |handles| == |winners|
  {
    if pds == [] then []
    else
      (if pds[0].id in winners
       then [CoverRow(pds[0], Copies(winners, pds[0].id), WinsNullNear(handles, winners, pds[0].id))] else [])
      + CoverTable(pds[1..], handles, winners)
  }

  // ----- What the joined rows say of a choice -----

  /** A PD yields an FDH as often as it was issued with that near address, for
      each of its rows with that destination. */
  lemma {:induction false} OccurrencesExactly(fies: seq<Fie>, pds: seq<Pd>, h: Handle, id: nat)
    ensures Occurrences(Joined(fies, pds), h, id) ==
      |Filter((f: Fie) => f.pdId == id && f.near == h.near, fies)|
      * |Filter((p: Pd) => p.id == id && p.destination == h.destination, pds)|
  {
    if fies != [] {
      var rows := |Filter((p: Pd) => p.id == id && p.destination == h.destination, pds)|;
      var issues := |Filter((f: Fie) => f.pdId == id && f.near == h.near, fies[1..])|;
      OccurrencesExactly(fies[1..], pds, h, id);
      OccurrencesConcat(YieldsOf(fies[0], pds), Joined(fies[1..], pds), h, id);
      OccurrencesOfOne(fies[0], pds, h, id);
      OneMore(issues, rows);
    }
  }

  lemma OneMore(n: nat, m: nat)
    ensures (1 + n) * m == m + n * m
  {
  }

  lemma {:induction false} OccurrencesConcat(xs: seq<Yield>, ys: seq<Yield>, h: Handle, id: nat)
    ensures Occurrences(xs + ys, h, id) == Occurrences(xs, h, id) + Occurrences(ys, h, id)
  {
    if xs == [] {
      assert xs + ys == ys;
    } else {
      assert (xs + ys)[0] == xs[0] && (xs + ys)[1..] == xs[1..] + ys;
      OccurrencesConcat(xs[1..], ys, h, id);
    }
  }

  lemma {:induction false} OccurrencesOfOne(f: Fie, pds: seq<Pd>, h: Handle, id: nat)
    ensures Occurrences(YieldsOf(f, pds), h, id) ==
      if f.pdId == id && f.near == h.near
      then |Filter((p: Pd) => p.id == id && p.destination == h.destination, pds)| else 0
  {
    if pds != [] {
      OccurrencesOfOne(f, pds[1..], h, id);
      var rest := YieldsOf(f, pds[1..]);
      if pds[0].id == f.pdId {
        var y := Yield(Handle(f.near, pds[0].destination), f.pdId, f.far.Some?);
        assert ([y] + rest)[1..] == rest;
      } else {
        assert [] + rest == rest;
      }
    }
  }

  /** Exactly the pairs of an FIE and a PD of one ID are joined. */
  lemma {:induction false} JoinedExactly(fies: seq<Fie>, pds: seq<Pd>, y: Yield)
    ensures y in Joined(fies, pds) <==> exists f, p :: f in fies && p in pds && IsYieldOf(y, f, p)
  {
    if y in Joined(fies, pds) {
      JoinedYields(fies, pds, y);
    }
    if f, p :| f in fies && p in pds && IsYieldOf(y, f, p) {
      PairIsJoined(fies, pds, f, p, y);
    }
  }

  lemma {:induction false} PairIsJoined(fies: seq<Fie>, pds: seq<Pd>, f: Fie, p: Pd, y: Yield)
    requires f in fies && p in pds && IsYieldOf(y, f, p)
    ensures y in Joined(fies, pds)
  {
    if fies[0] == f {
      PairIsYielded(f, pds, p, y);
    } else {
      PairIsJoined(fies[1..], pds, f, p, y);
    }
  }

  lemma {:induction false} PairIsYielded(f: Fie, pds: seq<Pd>, p: Pd, y: Yield)
    requires p in pds && IsYieldOf(y, f, p)
    ensures y in YieldsOf(f, pds)
  {
    if pds[0] != p {
      PairIsYielded(f, pds[1..], p, y);
    }
  }

  predicate IsYieldOf(y: Yield, f: Fie, p: Pd) {
    && p.id == f.pdId
    && y.handle.near == f.near && y.handle.destination == p.destination
    && y.id == p.id && (y.farReplied <==> f.far.Some?)
  }

  /** The rows of one group of OCCURRENCES. */
  function Group(ys: seq<Yield>, h: Handle, id: nat): seq<Yield> {
    Filter((y: Yield) => y.handle == h && y.id == id, ys)
  }

  /** count() and countIf over a group, and the hash of its PD. */
  datatype Score = Score(occurrences: nat, farReplies: nat, hash: nat)

  function ScoreOf(ys: seq<Yield>, hash: Hash, h: Handle, id: nat): Score {
    Score(|Group(ys, h, id)|, |Filter((y: Yield) => y.farReplied, Group(ys, h, id))|, hash(id))
  }

  /** The order of the tuples (occurrences, far_replies > 0, hash). */
  predicate IsLess(a: Score, b: Score) {
    || a.occurrences < b.occurrences
    || (a.occurrences == b.occurrences && a.farReplies == 0 < b.farReplies)
    || (a.occurrences == b.occurrences && (a.farReplies > 0 <==> b.farReplies > 0) && a.hash < b.hash)
  }

  lemma {:induction false} OccurrencesIsCount(ys: seq<Yield>, h: Handle, id: nat)
    ensures Occurrences(ys, h, id) == |Group(ys, h, id)|
  {
    if ys != [] {
      OccurrencesIsCount(ys[1..], h, id);
    }
  }

  lemma ScoresDecide(ys: seq<Yield>, hash: Hash, h: Handle, a: nat, b: nat)
    ensures Precedes(ys, hash, h, a, b) <==> IsLess(ScoreOf(ys, hash, h, a), ScoreOf(ys, hash, h, b))
  {
    OccurrencesIsCount(ys, h, a);
    OccurrencesIsCount(ys, h, b);
    FarRepliesExactly(ys, h, a);
    FarRepliesExactly(ys, h, b);
  }

  lemma FarRepliesExactly(ys: seq<Yield>, h: Handle, id: nat)
    ensures FarReplied(ys, h, id) <==> |Filter((y: Yield) => y.farReplied, Group(ys, h, id))| > 0
  {
    var replies := Filter((y: Yield) => y.farReplied, Group(ys, h, id));
    if replies != [] {
      assert replies[0] in replies;
    }
    if y :| y in ys && y.handle == h && y.id == id && y.farReplied {
      assert y in replies;
    }
  }

  /** A winner is a PD that yielded the FDH and whose counts over the joined rows
      no other such PD beats. */
  lemma WinnerExactly(ys: seq<Yield>, hash: Hash, h: Handle, id: nat)
    ensures IsWinner(ys, hash, h, id) <==>
      && (exists y :: y in ys && y.handle == h && y.id == id)
      && (forall y :: y in ys && y.handle == h ==> !IsLess(ScoreOf(ys, hash, h, id), ScoreOf(ys, hash, h, y.id)))
  {
    forall y | y in ys && y.handle == h
      ensures IsYielded(ys, h, y.id)
      ensures Precedes(ys, hash, h, id, y.id) <==> IsLess(ScoreOf(ys, hash, h, id), ScoreOf(ys, hash, h, y.id))
    {
      ScoresDecide(ys, hash, h, id, y.id);
    }
  }

  /** Among PDs that yield an FDH equally often, a far reply on that very FDH
      decides. */
  lemma FarReplyDecidesTies(ys: seq<Yield>, hash: Hash, h: Handle, id: nat, y: Yield)
    requires IsWinner(ys, hash, h, id) && y in ys && y.handle == h && y.farReplied
    requires Occurrences(ys, h, y.id) == Occurrences(ys, h, id)
    ensures exists z :: z in ys && z.handle == h && z.id == id && z.farReplied
  {
    assert IsYielded(ys, h, y.id) && !Precedes(ys, hash, h, id, y.id);
  }

  // ----- A selection exists -----

  /** The best of the PDs that yielded h in the first n rows. */
  function Best(ys: seq<Yield>, hash: Hash, h: Handle, n: nat): Option<nat>
    requires n <= |ys|
  {
    if n == 0 then None
    else
      var before, y := Best(ys, hash, h, n - 1), ys[n - 1];
      if y.handle != h then before
      else if before.None? || Precedes(ys, hash, h, before.value, y.id) then Some(y.id)
      else before
  }

  lemma {:induction false} BestIsBest(ys: seq<Yield>, hash: Hash, h: Handle, n: nat)
    requires n <= |ys|
    ensures var b := Best(ys, hash, h, n);
      && (b.Some? <==> exists i :: 0 <= i < n && ys[i].handle == h)
      && (b.Some? ==> exists i :: 0 <= i < n && ys[i].handle == h && ys[i].id == b.value)
      && forall i :: 0 <= i < n && ys[i].handle == h ==> b.Some? && !Precedes(ys, hash, h, b.value, ys[i].id)
  {
    if n > 0 {
      BestIsBest(ys, hash, h, n - 1);
    }
  }

  lemma {:induction false} SelectionExists(ys: seq<Yield>, hash: Hash)
    ensures exists winners :: IsSelection(ys, hash, winners)
  {
    var handles := Handles(ys);
    forall h | h in handles
      ensures Best(ys, hash, h, |ys|).Some? && IsWinner(ys, hash, h, Best(ys, hash, h, |ys|).value)
    {
      BestIsBest(ys, hash, h, |ys|);
      var y :| y in ys && y.handle == h;
      var i :| 0 <= i < |ys| && ys[i] == y;
      assert ys[i].handle == h;
      var b := Best(ys, hash, h, |ys|).value;
      forall other | IsYielded(ys, h, other)
        ensures !Precedes(ys, hash, h, b, other)
      {
        var z :| z in ys && z.handle == h && z.id == other;
        var j :| 0 <= j < |ys| && ys[j] == z;
        assert ys[j].handle == h;
      }
    }
    var winners := seq(|handles|, i requires 0 <= i < |handles| =>
      if Best(ys, hash, handles[i], |ys|).Some? then Best(ys, hash, handles[i], |ys|).value else 0);
    assert IsSelection(ys, hash, winners);
  }

  // ----- Coverage -----

  ghost predicate Covers(ys: seq<Yield>, ids: set<nat>) {
    forall h :: h in Handles(ys) ==> exists id :: id in ids && IsYielded(ys, h, id)
  }

  function CoverIds(table: seq<CoverRow>): set<nat> {
    set row | row in table :: row.pd.id
  }

  lemma {:induction false} CoverTableRows(pds: seq<Pd>, handles: seq<Handle>, winners: seq<nat>)
    requires |handles| == |winners|
    ensures forall row :: row in CoverTable(pds, handles, winners) <==>
      && row.pd in pds && row.pd.id in winners
      && row.coveredFdhs == Copies(winners, row.pd.id)
      && (row.likelyNullNear <==> exists i :: 0 <= i < |winners| && winners[i] == row.pd.id && handles[i].near.None?)
  {
    if pds != [] {
      CoverTableRows(pds[1..], handles, winners);
      assert forall p :: p in pds <==> p == pds[0] || p in pds[1..];
    }
  }

  /** The IDs of the cover table are exactly the winners. */
  lemma CoverIdsAreWinners(fies: seq<Fie>, pds: seq<Pd>, hash: Hash, winners: seq<nat>)
    requires IsSelection(Joined(fies, pds), hash, winners)
    ensures forall id :: id in CoverIds(CoverTable(pds, Handles(Joined(fies, pds)), winners)) <==> id in winners
  {
    var ys := Joined(fies, pds);
    var handles := Handles(ys);
    CoverTableRows(pds, handles, winners);
    forall id | id in winners
      ensures id in CoverIds(CoverTable(pds, handles, winners))
    {
      var i :| 0 <= i < |winners| && winners[i] == id;
      assert IsYielded(ys, handles[i], id);
      var p :| p in pds && p.id == id;
      var row := CoverRow(p, Copies(winners, id), WinsNullNear(handles, winners, id));
      assert row in CoverTable(pds, handles, winners);
    }
  }

  /** The selected PDs yield every FDH of the run, NULL near addresses included. */
  lemma SelectionCovers(fies: seq<Fie>, pds: seq<Pd>, hash: Hash, winners: seq<nat>)
    requires IsSelection(Joined(fies, pds), hash, winners)
    ensures Covers(Joined(fies, pds), CoverIds(CoverTable(pds, Handles(Joined(fies, pds)), winners)))
  {
    var ys := Joined(fies, pds);
    CoverIdsAreWinners(fies, pds, hash, winners);
    forall h | h in Handles(ys)
      ensures exists id :: id in CoverIds(CoverTable(pds, Handles(ys), winners)) && IsYielded(ys, h, id)
    {
      var i :| 0 <= i < |Handles(ys)| && Handles(ys)[i] == h;
      assert IsWinner(ys, hash, h, winners[i]);
      assert winners[i] in winners;
    }
  }

  // ----- The final check -----

  /** COVERED: the FDHs yielded by the PDs with the given IDs. */
  function Covered(ys: seq<Yield>, ids: set<nat>): nat {
    |Handles(Filter((y: Yield) => y.id in ids, ys))|
  }

  lemma {:induction false} DistinctSize(hs: seq<Handle>)
    requires forall i, j :: 0 <= i < j < |hs| ==> hs[i] != hs[j]
    ensures |set h | h in hs| == |hs|
  {
    if hs != [] {
      DistinctSize(hs[1..]);
      assert (set h | h in hs) == {hs[0]} + set h | h in hs[1..];
    }
  }

  lemma SubsetSize(a: set<Handle>, b: set<Handle>)
    requires a <= b
    ensures |a| <= |b| && (|a| == |b| <==> a == b)
  {
    assert b == a + (b - a) && |b| == |a| + |b - a|;
  }

  /** Comparing the two counts decides whether the PDs cover every FDH. */
  lemma CheckDecidesCoverage(ys: seq<Yield>, ids: set<nat>)
    ensures Covered(ys, ids) <= |Handles(ys)|
    ensures Covered(ys, ids) == |Handles(ys)| <==> Covers(ys, ids)
  {
    var kept := Filter((y: Yield) => y.id in ids, ys);
    var a, b := set h | h in Handles(kept), set h | h in Handles(ys);
    DistinctSize(Handles(kept));
    DistinctSize(Handles(ys));
    SubsetSize(a, b);
    forall h | h in Handles(ys)
      ensures h in Handles(kept) <==> exists id :: id in ids && IsYielded(ys, h, id)
    {
      if h in Handles(kept) {
        var y :| y in kept && y.handle == h;
        assert y.id in ids && IsYielded(ys, h, y.id);
      }
      if id :| id in ids && IsYielded(ys, h, id) {
        var y :| y in ys && y.handle == h && y.id == id;
        assert y in kept;
      }
    }
    if a == b {
      assert forall h :: h in Handles(ys) ==> h in a;
    }
    if Covers(ys, ids) {
      assert forall h :: h in b ==> h in a;
    }
  }

  /** The final check never fails: it finds as many covered FDHs as there are. */
  lemma FinalCheckPasses(fies: seq<Fie>, pds: seq<Pd>, hash: Hash, winners: seq<nat>)
    requires IsSelection(Joined(fies, pds), hash, winners)
    ensures var ys := Joined(fies, pds);
      Covered(ys, CoverIds(CoverTable(pds, Handles(ys), winners))) == |Handles(ys)|
  {
    var ys := Joined(fies, pds);
    SelectionCovers(fies, pds, hash, winners);
    CheckDecidesCoverage(ys, CoverIds(CoverTable(pds, Handles(ys), winners)));
  }

  // ----- The counts -----

  function TotalCovered(table: seq<CoverRow>): nat {
    if table == [] then 0 else table[0].coveredFdhs + TotalCovered(table[1..])
  }

  function Ids(pds: seq<Pd>): (r: seq<nat>)
    ensures |r| == |pds| && forall i :: 0 <= i < |pds| ==> r[i] == pds[i].id
  {
    Map((p: Pd) => p.id, pds)
  }

  function SumCopies(ids: seq<nat>, winners: seq<nat>): nat {
    if winners == [] then 0 else Copies(ids, winners[0]) + SumCopies(ids, winners[1..])
  }

  lemma {:induction false} OneIdMore(ids: seq<nat>, winners: seq<nat>)
    requires ids != []
    ensures SumCopies(ids, winners) == SumCopies(ids[1..], winners) + Copies(winners, ids[0])
  {
    if winners != [] {
      OneIdMore(ids, winners[1..]);
    }
  }

  lemma {:induction false} NoIds(winners: seq<nat>)
    ensures SumCopies([], winners) == 0
  {
    if winners != [] {
      NoIds(winners[1..]);
    }
  }

  /** Counting by PD row and counting by handle give the same sum. */
  lemma {:induction false} TotalIsSumCopies(pds: seq<Pd>, handles: seq<Handle>, winners: seq<nat>)
    requires |handles| == |winners|
    ensures TotalCovered(CoverTable(pds, handles, winners)) == SumCopies(Ids(pds), winners)
  {
    if pds == [] {
      NoIds(winners);
    } else {
      TotalIsSumCopies(pds[1..], handles, winners);
      assert Ids(pds)[1..] == Ids(pds[1..]);
      OneIdMore(Ids(pds), winners);
      CopiesIsMultiplicity(winners, pds[0].id);
      var rest := CoverTable(pds[1..], handles, winners);
      if pds[0].id in winners {
        var row := CoverRow(pds[0], Copies(winners, pds[0].id), WinsNullNear(handles, winners, pds[0].id));
        assert ([row] + rest)[1..] == rest;
      } else {
        assert [] + rest == rest;
      }
    }
  }

  lemma {:induction false} SumOfOnes(ids: seq<nat>, winners: seq<nat>)
    requires forall w :: w in winners ==> w in ids
    ensures SumCopies(ids, winners) >= |winners|
    ensures SumCopies(ids, winners) == |winners| <==> forall w :: w in winners ==> Copies(ids, w) == 1
  {
    if winners != [] {
      assert forall w :: w in winners <==> w == winners[0] || w in winners[1..];
      CopiesIsMultiplicity(ids, winners[0]);
      SumOfOnes(ids, winners[1..]);
    }
  }

  /** A winner is the ID of some PD. */
  lemma WinnersAreIds(fies: seq<Fie>, pds: seq<Pd>, hash: Hash, winners: seq<nat>)
    requires IsSelection(Joined(fies, pds), hash, winners)
    ensures forall w :: w in winners ==> w in Ids(pds)
  {
    var ys := Joined(fies, pds);
    forall w | w in winners
      ensures w in Ids(pds)
    {
      var i :| 0 <= i < |winners| && winners[i] == w;
      assert IsYielded(ys, Handles(ys)[i], w);
      var p :| p in pds && p.id == w;
      var k :| 0 <= k < |pds| && pds[k] == p;
      assert Ids(pds)[k] == w;
    }
  }

  /** The covered_fdhs column of one selection sums to the number of FDHs exactly
      when no ID it selected is duplicated in the PD table; otherwise to more. */
  lemma CoveredSumsToHandles(fies: seq<Fie>, pds: seq<Pd>, hash: Hash, winners: seq<nat>)
    requires IsSelection(Joined(fies, pds), hash, winners)
    ensures CoveredTotal(fies, pds, winners) >= |Handles(Joined(fies, pds))|
    ensures CoveredTotal(fies, pds, winners) == |Handles(Joined(fies, pds))| <==>
      forall w :: w in winners ==> Copies(Ids(pds), w) == 1
  {
    TotalIsSumCopies(pds, Handles(Joined(fies, pds)), winners);
    WinnersAreIds(fies, pds, hash, winners);
    SumOfOnes(Ids(pds), winners);
  }

  /** The sum of covered_fdhs. */
  function CoveredTotal(fies: seq<Fie>, pds: seq<Pd>, winners: seq<nat>): nat
    requires |winners| == |Handles(Joined(fies, pds))|
  {
    TotalCovered(CoverTable(pds, Handles(Joined(fies, pds)), winners))
  }

  /** The sum is right whatever argMax chooses among equals, in terms of the
      tables: no PD that is best for some FDH has its ID twice. */
  lemma CoveredSumsExactly(fies: seq<Fie>, pds: seq<Pd>, hash: Hash)
    ensures SumsRight(fies, pds, hash) <==>
      forall h, id :: IsWinner(Joined(fies, pds), hash, h, id) ==> Copies(Ids(pds), id) == 1
  {
    var ys := Joined(fies, pds);
    if SumsRight(fies, pds, hash) {
      forall h, id | IsWinner(ys, hash, h, id)
        ensures Copies(Ids(pds), id) == 1
      {
        var winners := SelectionWith(ys, hash, h, id);
        CoveredSumsToHandles(fies, pds, hash, winners);
      }
    } else {
      var winners :| IsSelection(ys, hash, winners) && CoveredTotal(fies, pds, winners) != |Handles(ys)|;
      CoveredSumsToHandles(fies, pds, hash, winners);
      var w :| w in winners && Copies(Ids(pds), w) != 1;
      var i :| 0 <= i < |winners| && winners[i] == w;
      assert IsWinner(ys, hash, Handles(ys)[i], w);
    }
  }

  ghost predicate SumsRight(fies: seq<Fie>, pds: seq<Pd>, hash: Hash) {
    forall winners :: IsSelection(Joined(fies, pds), hash, winners) ==>
      CoveredTotal(fies, pds, winners) == |Handles(Joined(fies, pds))|
  }

  /** A selection that gives h to id. */
  lemma SelectionWith(ys: seq<Yield>, hash: Hash, h: Handle, id: nat) returns (winners: seq<nat>)
    requires IsWinner(ys, hash, h, id)
    ensures IsSelection(ys, hash, winners) && id in winners
  {
    SelectionExists(ys, hash);
    var others :| IsSelection(ys, hash, others);
    assert h in Handles(ys);
    var i :| 0 <= i < |Handles(ys)| && Handles(ys)[i] == h;
    winners := others[i := id];
    assert winners[i] == id;
  }

  /** No PD that yielded h beats id on occurrences and far replies. */
  ghost predicate MayWin(ys: seq<Yield>, h: Handle, id: nat) {
    IsYielded(ys, h, id) && forall other :: IsYielded(ys, h, other) ==> !Outranks(ys, h, id, other)
  }

  predicate Outranks(ys: seq<Yield>, h: Handle, a: nat, b: nat) {
    var m, n := Occurrences(ys, h, a), Occurrences(ys, h, b);
    m < n || (m == n && !FarReplied(ys, h, a) && FarReplied(ys, h, b))
  }

  lemma MayWinExactly(ys: seq<Yield>, h: Handle, id: nat)
    ensures MayWin(ys, h, id) <==> exists hash: Hash :: IsWinner(ys, hash, h, id)
  {
    if MayWin(ys, h, id) {
      var favoring: Hash := x => if x == id then 1 else 0;
      forall other | IsYielded(ys, h, other)
        ensures !Precedes(ys, favoring, h, id, other)
      {
        assert !Outranks(ys, h, id, other);
      }
      assert IsWinner(ys, favoring, h, id);
    }
    if hash: Hash :| IsWinner(ys, hash, h, id) {
      forall other | IsYielded(ys, h, other)
        ensures !Outranks(ys, h, id, other)
      {
        assert !Precedes(ys, hash, h, id, other);
      }
    }
  }

  /** The sum is right under every hash exactly when no PD whose ID occurs twice
      is unbeaten on some FDH. */
  lemma CoveredSumsUnderEveryHash(fies: seq<Fie>, pds: seq<Pd>)
    ensures (forall hash: Hash :: SumsRight(fies, pds, hash)) <==>
      forall h, id :: MayWin(Joined(fies, pds), h, id) ==> Copies(Ids(pds), id) == 1
  {
    var ys := Joined(fies, pds);
    if forall hash: Hash :: SumsRight(fies, pds, hash) {
      forall h, id | MayWin(ys, h, id)
        ensures Copies(Ids(pds), id) == 1
      {
        MayWinExactly(ys, h, id);
        var hash: Hash :| IsWinner(ys, hash, h, id);
        assert SumsRight(fies, pds, hash);
        var winners := SelectionWith(ys, hash, h, id);
        CoveredSumsToHandles(fies, pds, hash, winners);
      }
    } else {
      var hash: Hash :| !SumsRight(fies, pds, hash);
      CoveredSumsExactly(fies, pds, hash);
      var h, id :| IsWinner(ys, hash, h, id) && Copies(Ids(pds), id) != 1;
      MayWinExactly(ys, h, id);
    }
  }

  lemma {:induction false} FewerThanWinners(ids: set<nat>, winners: seq<nat>)
    requires forall id :: id in ids ==> id in winners
    ensures |ids| <= |winners|
  {
    if winners == [] {
      assert ids == {};
    } else {
      var rest := ids - {winners[0]};
      FewerThanWinners(rest, winners[1..]);
      assert |ids| <= |rest| + 1;
    }
  }

  /** No more PDs are selected than there are FDHs. */
  lemma SelectionIsNoLarger(fies: seq<Fie>, pds: seq<Pd>, hash: Hash, winners: seq<nat>)
    requires IsSelection(Joined(fies, pds), hash, winners)
    ensures |CoverIds(CoverTable(pds, Handles(Joined(fies, pds)), winners))| <= |Handles(Joined(fies, pds))|
  {
    CoverIdsAreWinners(fies, pds, hash, winners);
    FewerThanWinners(CoverIds(CoverTable(pds, Handles(Joined(fies, pds)), winners)), winners);
  }

  // ----- Minimality -----

  ghost predicate OneHandlePerPd(ys: seq<Yield>) {
    forall g, h, id :: IsYielded(ys, g, id) && IsYielded(ys, h, id) ==> g == h
  }

  /** Pigeonhole: PDs that yield one handle each cover no more handles than
      there are PDs. */
  lemma {:induction false} NeedsAsManyPds(ys: seq<Yield>, handles: seq<Handle>, ids: set<nat>)
    requires OneHandlePerPd(ys)
    requires forall i, j :: 0 <= i < j < |handles| ==> handles[i] != handles[j]
    requires forall h :: h in handles ==> exists id :: id in ids && IsYielded(ys, h, id)
    ensures |handles| <= |ids|
  {
    if handles != [] {
      assert handles[0] in handles;
      var id :| id in ids && IsYielded(ys, handles[0], id);
      forall h | h in handles[1..]
        ensures exists other :: other in ids - {id} && IsYielded(ys, h, other)
      {
        assert h in handles && h != handles[0];
        var other :| other in ids && IsYielded(ys, h, other);
        assert other != id;
      }
      NeedsAsManyPds(ys, handles[1..], ids - {id});
    }
  }

  /** When every PD yields one FDH, the selection has one PD per FDH, and no
      smaller set of PDs covers them all. */
  lemma SelectionIsMinimal(fies: seq<Fie>, pds: seq<Pd>, hash: Hash, winners: seq<nat>, ids: set<nat>)
    requires IsSelection(Joined(fies, pds), hash, winners)
    requires OneHandlePerPd(Joined(fies, pds)) && Covers(Joined(fies, pds), ids)
    ensures var selected := CoverIds(CoverTable(pds, Handles(Joined(fies, pds)), winners));
      |selected| == |Handles(Joined(fies, pds))| <= |ids|
  {
    var ys := Joined(fies, pds);
    SelectionIsNoLarger(fies, pds, hash, winners);
    SelectionCovers(fies, pds, hash, winners);
    NeedsAsManyPds(ys, Handles(ys), CoverIds(CoverTable(pds, Handles(ys), winners)));
    NeedsAsManyPds(ys, Handles(ys), ids);
  }

  lemma {:induction false} JoinedYields(fies: seq<Fie>, pds: seq<Pd>, y: Yield)
    requires y in Joined(fies, pds)
    ensures exists f, p :: f in fies && p in pds && IsYieldOf(y, f, p)
  {
    if y in YieldsOf(fies[0], pds) {
      var p := PdOfYield(fies[0], pds, y);
      assert fies[0] in fies && IsYieldOf(y, fies[0], p);
    } else {
      JoinedYields(fies[1..], pds, y);
      var f, p :| f in fies[1..] && p in pds && IsYieldOf(y, f, p);
      assert f in fies;
    }
  }

  lemma {:induction false} PdOfYield(f: Fie, pds: seq<Pd>, y: Yield) returns (p: Pd)
    requires y in YieldsOf(f, pds)
    ensures p in pds && IsYieldOf(y, f, p)
  {
    if pds[0].id == f.pdId && y == Yield(Handle(f.near, pds[0].destination), f.pdId, f.far.Some?) {
      p := pds[0];
    } else {
      p := PdOfYield(f, pds[1..], y);
    }
  }

  /** A run where every PD is issued once, and has one row, meets the condition. */
  lemma IssuedOnceYieldsOnce(fies: seq<Fie>, pds: seq<Pd>)
    requires forall f, g :: f in fies && g in fies && f.pdId == g.pdId ==> f == g
    requires forall p, q :: p in pds && q in pds && p.id == q.id ==> p == q
    ensures OneHandlePerPd(Joined(fies, pds))
  {
    var ys := Joined(fies, pds);
    forall g, h, id | IsYielded(ys, g, id) && IsYielded(ys, h, id)
      ensures g == h
    {
      var y :| y in ys && y.handle == g && y.id == id;
      var z :| z in ys && z.handle == h && z.id == id;
      JoinedYields(fies, pds, y);
      JoinedYields(fies, pds, z);
    }
  }

  /** Otherwise the selection may be larger than needed: here PD 1 yields both
      handles, and PD 2 wins one of them because its far side replied. */
  lemma SelectionMayBeLarger(hash: Hash)
    returns (fies: seq<Fie>, pds: seq<Pd>, winners: seq<nat>, ids: set<nat>)
    ensures IsSelection(Joined(fies, pds), hash, winners) && Covers(Joined(fies, pds), ids)
    ensures |ids| < |CoverIds(CoverTable(pds, Handles(Joined(fies, pds)), winners))|
  {
    fies := [Fie(1, Some(10), None), Fie(1, Some(20), None), Fie(2, Some(10), Some(5))];
    pds := [Pd(1, 7), Pd(2, 7)];
    winners, ids := [1, 2], {1};
    var g, h := Handle(Some(10), 7), Handle(Some(20), 7);
    var ys := [Yield(g, 1, false), Yield(h, 1, false), Yield(g, 2, true)];
    TwoPdsJoin(fies, pds, g, h);
    TwoPdsWin(ys, hash, g, h);
    OneIsEnough(ys, g, h);
    CoverIdsAreWinners(fies, pds, hash, winners);
    BothSelected(CoverIds(CoverTable(pds, Handles(ys), winners)));
  }

  lemma {:induction false} OneIsEnough(ys: seq<Yield>, g: Handle, h: Handle)
    requires ys == [Yield(g, 1, false), Yield(h, 1, false), Yield(g, 2, true)] && Handles(ys) == [h, g]
    ensures Covers(ys, {1})
  {
    assert ys[0] in ys && ys[1] in ys;
    assert IsYielded(ys, g, 1) && IsYielded(ys, h, 1);
  }

  lemma BothSelected(ids: set<nat>)
    requires forall id :: id in ids <==> id in [1, 2]
    ensures |ids| == 2
  {
    assert 1 in [1, 2] && 2 in [1, 2];
    assert ids == {1, 2};
  }

  lemma TwoPdsJoin(fies: seq<Fie>, pds: seq<Pd>, g: Handle, h: Handle)
    requires pds == [Pd(1, 7), Pd(2, 7)] && g == Handle(Some(10), 7) && h == Handle(Some(20), 7)
    requires fies == [Fie(1, Some(10), None), Fie(1, Some(20), None), Fie(2, Some(10), Some(5))]
    ensures Joined(fies, pds) == [Yield(g, 1, false), Yield(h, 1, false), Yield(g, 2, true)]
  {
    assert pds[1..] == [Pd(2, 7)] && [Pd(2, 7)][1..] == [];
    assert YieldsOf(fies[0], pds) == [Yield(g, 1, false)];
    assert YieldsOf(fies[1], pds) == [Yield(h, 1, false)];
    assert YieldsOf(fies[2], pds) == [Yield(g, 2, true)];
    assert fies[1..] == [fies[1], fies[2]] && fies[1..][1..] == [fies[2]] && [fies[2]][1..] == [];
    assert Joined([fies[2]], pds) == [Yield(g, 2, true)];
    assert Joined(fies[1..], pds) == [Yield(h, 1, false), Yield(g, 2, true)];
  }

  function IsOne(y: Yield, h: Handle, id: nat): nat {
    if y.handle == h && y.id == id then 1 else 0
  }

  lemma {:induction false} OccurrencesOfThree(ys: seq<Yield>, h: Handle, id: nat)
    requires |ys| == 3
    ensures Occurrences(ys, h, id) == IsOne(ys[0], h, id) + IsOne(ys[1], h, id) + IsOne(ys[2], h, id)
  {
    var two, one := ys[1..], ys[1..][1..];
    assert one[1..] == [] && one[0] == ys[2] && two[0] == ys[1];
    assert Occurrences(one, h, id) == IsOne(one[0], h, id) + Occurrences(one[1..], h, id);
    assert Occurrences(two, h, id) == IsOne(two[0], h, id) + Occurrences(one, h, id);
    assert Occurrences(ys, h, id) == IsOne(ys[0], h, id) + Occurrences(two, h, id);
  }

  lemma {:induction false} TwoPdsWin(ys: seq<Yield>, hash: Hash, g: Handle, h: Handle)
    requires ys == [Yield(g, 1, false), Yield(h, 1, false), Yield(g, 2, true)] && g != h
    ensures Handles(ys) == [h, g] && IsSelection(ys, hash, [1, 2])
  {
    assert ys[1..] == [ys[1], ys[2]] && ys[1..][1..] == [ys[2]] && [ys[2]][1..] == [];
    assert Handles([ys[2]]) == [g];
    assert Handles(ys[1..]) == [h, g];
    assert ys[2] in ys && ys[1] in ys;
    assert IsYielded(ys, h, 1) && IsYielded(ys, g, 2);
    OccurrencesOfThree(ys, g, 1);
    OccurrencesOfThree(ys, g, 2);
    assert FarReplied(ys, g, 2) && !FarReplied(ys, g, 1);
    forall other | IsYielded(ys, h, other)
      ensures !Precedes(ys, hash, h, 1, other)
    {
      assert other == 1;
    }
    forall other | IsYielded(ys, g, other)
      ensures !Precedes(ys, hash, g, 2, other)
    {
      assert other == 1 || other == 2;
    }
    assert IsWinner(ys, hash, h, 1) && IsWinner(ys, hash, g, 2);
  }
}
