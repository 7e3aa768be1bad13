/**
 merge-fies from the files found in the directory to the merged file: the source
 without a filter, the merge and, if asked for, the verification.
 */
module MergeFies {
  import opened Common
  import opened FieRow
  import opened FieSource
  import opened FieMerge
  import opened FieVerify
  import UploadFies

  datatype Failure = NoInput | NotMerged(cause: MergeError) | NotVerified

  /** The files in order that do not overlap, and that the verification, if asked
      for, finds to be intervals of one length, a number of lengths apart, well formed
      and sorted. */
  ghost predicate Mergeable(files: seq<File>, verify: bool) {
    && files != [] && files[0].seconds > 0
    && PairwiseDisjoint(files)
    && (verify ==> AreSteps(files) && AllAcceptable(files))
  }

  /** Merge, then Verify, on the files of an unfiltered Plan, whatever the
      rounding of `//`. */
  method MergeAndVerify(files: seq<File>, rowGroupSize: int, outputExists: bool, overwrite: bool,
                        verify: bool, rounding: Rounding)
    returns (r: Result<seq<MergedRow>, Failure>)
    requires InOrder(files) && Positive(files) && DistinctPaths(files) && FullyCounted(files)
    ensures r.Ok? <==> rowGroupSize >= 1 && (outputExists ==> overwrite) && Mergeable(files, verify)
    ensures r.Ok? ==> r.value == MergedRows(files, files)
    ensures r.Ok? && verify ==> IsTimeConcatenation(files, r.value)
    ensures r == Err(NotVerified) <==>
      rowGroupSize >= 1 && (outputExists ==> overwrite) && Mergeable(files, false) && !Mergeable(files, verify)
  {
    NeighborsSuffice(files);
    MergedRowsCount(files, files);
    var merged := Merge(files, rowGroupSize, outputExists, overwrite);
    if merged.Err? {
      return Err(NotMerged(merged.error));
    }
    assert files[0] in files;
    if verify {
      var ok := Verify(files, merged.value, rounding);
      AlignedExactly(files);
      if Aligned(files) {
        MergeVerifies(files, rounding);
      }
      if !ok {
        return Err(NotVerified);
      }
    }
    return Ok(merged.value);
  }

  // ----- Counting the rows changes nothing else -----

  ghost predicate Recounted(counted: seq<File>, files: seq<File>) {
    |counted| == |files| && forall i :: 0 <= i < |files| ==> counted[i] == files[i].(rows := counted[i].rows)
  }

  lemma {:induction false} RecountedStart(counted: seq<File>, files: seq<File>, path: string)
    requires Recounted(counted, files) && exists f :: f in files && f.path == path
    ensures exists f :: f in counted && f.path == path
    ensures StartOf(counted, path) == StartOf(files, path)
  {
    var f :| f in files && f.path == path;
    var i :| 0 <= i < |files| && files[i] == f;
    assert counted[i] in counted && counted[i].path == path;
    if files[0].path != path {
      assert f in files[1..];
      RecountedStart(counted[1..], files[1..], path);
    }
  }

  lemma {:induction false} RecountedMerges(counted: seq<File>, files: seq<File>, i: nat)
    requires Recounted(counted, files) && i <= |files|
    ensures MergedRows(counted, counted[i..]) == MergedRows(files, files[i..])
    decreases |files| - i
  {
    if i < |files| {
      RecountedMerges(counted, files, i + 1);
      assert files[i] in files && counted[i] in counted;
      RecountedStart(counted, files, files[i].path);
      MergedRowsFrom(counted, i);
      MergedRowsFrom(files, i);
    }
  }

  lemma MergedRowsFrom(files: seq<File>, i: nat)
    requires i < |files|
    ensures files[i] in files
    ensures MergedRows(files, files[i..]) ==
      MergedBlock(StartOf(files, files[i].path), files[i].content) + MergedRows(files, files[i + 1..])
  {
    assert files[i..][0] == files[i] && files[i..][1..] == files[i + 1..];
  }

  lemma {:induction false} RecountedOrder(counted: seq<File>, files: seq<File>)
    requires Recounted(counted, files) && InOrder(files)
    ensures InOrder(counted)
  {
    forall i, j | 0 <= i < j < |files|
      ensures Start(counted[i]) <= Start(counted[j])
    {
      assert Start(files[i]) <= Start(files[j]);
    }
  }

  lemma {:induction false} RecountedFiles(counted: seq<File>, files: seq<File>, f: File) returns (g: File)
    requires Recounted(counted, files) && f in counted
    ensures g in files && f == g.(rows := f.rows)
  {
    var i :| 0 <= i < |counted| && counted[i] == f;
    g := files[i];
  }

  lemma {:induction false} RecountedShape(counted: seq<File>, files: seq<File>)
    requires Recounted(counted, files) && Positive(files)
    ensures Positive(counted)
  {
    forall f | f in counted
      ensures f.seconds > 0
    {
      var g := RecountedFiles(counted, files, f);
    }
  }

  lemma {:induction false} RecountedDisjoint(counted: seq<File>, files: seq<File>)
    requires Recounted(counted, files)
    ensures PairwiseDisjoint(counted) <==> PairwiseDisjoint(files)
  {
    forall i | 0 <= i < |files|
      ensures counted[i].intervalStart == files[i].intervalStart && counted[i].End() == files[i].End()
    {
    }
  }

  lemma {:induction false} RecountedInputs(counted: seq<File>, files: seq<File>)
    requires Recounted(counted, files) && Recounted(files, counted) && files != [] && files[0].seconds > 0
    requires AreSteps(files) && AllAcceptable(files)
    ensures AreSteps(counted) && AllAcceptable(counted)
  {
    forall f | f in counted
      ensures f.seconds == counted[0].seconds
      ensures IsStep(Unix(f.intervalStart) - Unix(counted[0].intervalStart), f.seconds)
      ensures WellFormed(f) && SortedContent(f)
    {
      var g := RecountedFiles(counted, files, f);
    }
  }

  lemma {:induction false} RecountedMergeable(counted: seq<File>, files: seq<File>, verify: bool)
    requires Recounted(counted, files)
    ensures Mergeable(counted, verify) <==> Mergeable(files, verify)
  {
    assert Recounted(files, counted);
    RecountedDisjoint(counted, files);
    if Mergeable(files, verify) && verify {
      RecountedInputs(counted, files);
    }
    if Mergeable(counted, verify) && verify {
      RecountedInputs(files, counted);
    }
  }

  // ----- The command -----

  /** Init without a filter keeps every file. */
  lemma UnfilteredKeepsAll(found: seq<File>, kept: seq<File>)
    requires UploadFies.Keeps(NO_FILTER, found, kept)
    ensures UploadFies.Orders(kept, found)
  {
    FilterIsAll(f => Overlaps(NO_FILTER, f), found);
  }

  /** What Plan leaves of the files kept is fit for Merge. */
  lemma UnfilteredPlanIsFit(hash: Hash, found: seq<File>, kept: seq<File>, counted: seq<File>)
    requires Positive(found) && DistinctPaths(found) && UploadFies.Orders(kept, found)
    requires UploadFies.Plans(NO_FILTER, hash, kept, counted)
    ensures Recounted(counted, kept)
    ensures InOrder(counted) && Positive(counted) && DistinctPaths(counted) && FullyCounted(counted)
  {
    forall i | 0 <= i < |kept|
      ensures counted[i] == kept[i].(rows := |kept[i].content|)
    {
      UnfilteredPlanCountsAll(hash, kept[i]);
    }
    SameMembers(kept, found);
    RecountedOrder(counted, kept);
    RecountedShape(counted, kept);
    forall f | f in counted
      ensures f.rows == |f.content|
    {
      var i :| 0 <= i < |counted| && counted[i] == f;
    }
    forall f, g | f in counted && g in counted && f.path == g.path
      ensures f == g
    {
      var a := RecountedFiles(counted, kept, f);
      var b := RecountedFiles(counted, kept, g);
    }
  }

  /** merge-fies ends well exactly when the files, in the order by start that the
      sort gave them, can be merged, and then writes their rows in that order. */
  method RunMerge(found: seq<File>, hash: Hash, rowGroupSize: int, outputExists: bool, overwrite: bool,
                  verify: bool, rounding: Rounding)
    returns (r: Result<seq<MergedRow>, Failure>)
    requires Positive(found) && DistinctPaths(found)
    ensures exists ordered :: UploadFies.Orders(ordered, found) && IsOutcome(ordered, rowGroupSize, outputExists, overwrite, verify, r)
  {
    if found == [] {
      r := Err(NoInput);
      assert UploadFies.Orders([], found) && IsOutcome([], rowGroupSize, outputExists, overwrite, verify, r);
      return;
    }
    var src := new Source(NO_FILTER, hash);
    src.Init(found);
    ghost var kept := src.files;
    UnfilteredKeepsAll(found, kept);
    src.Plan();
    UnfilteredPlanIsFit(hash, found, kept, src.files);
    r := MergeAndVerify(src.files, rowGroupSize, outputExists, overwrite, verify, rounding);
    RecountedMergeable(src.files, kept, verify);
    RecountedMerges(src.files, kept, 0);
    assert src.files[0..] == src.files && kept[0..] == kept;
    assert IsOutcome(kept, rowGroupSize, outputExists, overwrite, verify, r);
  }

  /** What merging the files in this order must come to. */
  ghost predicate IsOutcome(ordered: seq<File>, rowGroupSize: int, outputExists: bool, overwrite: bool, verify: bool,
                            r: Result<seq<MergedRow>, Failure>) {
    && (r.Ok? <==> rowGroupSize >= 1 && (outputExists ==> overwrite) && Mergeable(ordered, verify))
    && (r.Ok? ==> r.value == MergedRows(ordered, ordered))
  }

  /** merge-fies and an unfiltered upload-fies of the same files: what the one
      wrote and the other inserted agree row by row exactly when every file is
      comparable. */
  lemma RunsAgreeExactly(found: seq<File>, hash: Hash, ordered: seq<File>, verify: bool,
                         merged: seq<MergedRow>, uploaded: seq<Row>)
    requires Positive(found) && DistinctPaths(found) && UploadFies.Orders(ordered, found)
    requires exists n: int, e: bool, o: bool :: IsOutcome(ordered, n, e, o, verify, Ok(merged))
    requires UploadFies.IsFastUpload(NO_FILTER, hash, found, 0, -1, uploaded)
    ensures AgreeAll(merged, uploaded) <==> forall f :: f in found ==> Comparable(f)
  {
    assert Mergeable(ordered, verify) && merged == MergedRows(ordered, ordered);
    SameMembers(ordered, found);
    NeighborsSuffice(ordered);
    MergeAgreesWithUpload(found, hash, ordered, uploaded);
  }
}
