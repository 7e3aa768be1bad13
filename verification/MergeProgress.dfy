/**
 The progress line of merge-fies: which input file, and which of its rows, the
 writer has reached after an estimated number of rows. It must name the place
 where the row plan of upload-fies would resume.
 */
module MergeProgress {
  import opened Common
  import opened FieSource

  lemma SumPrefix(counts: seq<nat>, i: nat)
    requires i < |counts|
    ensures Sum(counts[..i + 1]) == Sum(counts[..i]) + counts[i]
  {
    assert counts[..i + 1] == counts[..i] + [counts[i]];
    SumConcat(counts[..i], [counts[i]]);
    assert Sum([counts[i]]) == counts[i];
  }

  lemma PrefixIsLess(counts: seq<nat>, i: nat)
    requires i <= |counts|
    ensures Sum(counts[..i]) <= Sum(counts)
  {
    assert counts == counts[..i] + counts[i..];
    SumConcat(counts[..i], counts[i..]);
  }

  /** The file that holds row number rows, and the number of rows before that
      file. rows is the estimate, already at most the total. */
  method Locate(files: seq<File>, rows: nat) returns (idx: nat, before: nat)
    requires files != [] && rows <= Sum(Counts(files))
    ensures idx < |files| && before == Sum(Counts(files)[..idx])
    ensures before <= rows <= before + files[idx].rows
    ensures rows < Sum(Counts(files)) ==>
      var plan := Reads(Counts(files), 0, rows, -1);
      plan != [] && plan[0] == Read(idx, rows - before, files[idx].rows - (rows - before))
    ensures rows == Sum(Counts(files)) ==> idx == |files| - 1
  {
    ghost var counts := Counts(files);
    before := 0;
    idx := 0;
    while idx < |files| - 1 && before + files[idx].rows <= rows
      invariant idx < |files| && before == Sum(counts[..idx]) && before <= rows
      invariant Reads(counts, idx, rows - before, -1) == Reads(counts, 0, rows, -1)
    {
      SumPrefix(counts, idx);
      before := before + files[idx].rows;
      idx := idx + 1;
    }
    SumPrefix(counts, idx);
    PrefixIsLess(counts, idx + 1);
    if idx == |files| - 1 {
      assert counts[..idx + 1] == counts;
    }
  }
}
