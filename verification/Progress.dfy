/**
 The progress display: draw moves up to the first line of the last frame and
 writes the new frame over it. A small terminal gives the control sequences
 their meaning (CUU and EL of ECMA-48, sections 8.3.22 and 8.3.41), and the
 theorems say what is visible after any sequence of frames.
 */
module Progress {
  import opened Common

  /** What draw writes: CUU, EL with parameter 2, printable text, newline. */
  datatype Op = Up(n: nat) | EraseLine | Text(s: string) | Newline

  /** Rows that are not in the map are blank. There is no bottom edge. */
  datatype Terminal = Terminal(rows: map<nat, string>, row: nat, col: nat) {
    function Line(i: nat): string {
      if i in rows then rows[i] else ""
    }
  }

  function Spaces(n: nat): (r: string)
    ensures |r| == n
  {
    if n == 0 then "" else " " + Spaces(n - 1)
  }

  /** The line after writing s over it from column col on. */
  function Overwrite(line: string, col: nat, s: string): string {
    var left := if col <= |line| then line[..col] else line + Spaces(col - |line|);
    left + s + line[Min(|line|, col + |s|)..]
  }

  /** What a line holds after writing s over it: s from column col on, what was
      there elsewhere, and blanks up to col. */
  lemma OverwriteExactly(line: string, col: nat, s: string, k: nat)
    requires k < |Overwrite(line, col, s)|
    ensures |Overwrite(line, col, s)| == Max(|line|, col + |s|)
    ensures Overwrite(line, col, s)[k] ==
      if col <= k < col + |s| then s[k - col] else if k < |line| then line[k] else ' '
  {
    if |line| < col {
      var gap := Spaces(col - |line|);
      SpacesAreBlank(col - |line|);
      assert |line| <= k < col ==> gap[k - |line|] in gap;
    } else if col + |s| <= k {
      assert line[col + |s|..][k - (col + |s|)] == line[k];
    }
  }

  lemma {:induction false} SpacesAreBlank(n: nat)
    ensures forall c :: c in Spaces(n) ==> c == ' '
  {
    if n > 0 {
      SpacesAreBlank(n - 1);
    }
  }

  /** CUU stops at the top row, and its parameter 0 means 1. */
  function Apply(t: Terminal, op: Op): Terminal {
    match op
    case Up(n) => t.(row := Max(0, t.row - Max(n, 1)))
    case EraseLine => t.(rows := t.rows[t.row := ""])
    case Text(s) => t.(rows := t.rows[t.row := Overwrite(t.Line(t.row), t.col, s)], col := t.col + |s|)
    case Newline => t.(row := t.row + 1, col := 0)
  }

  function Run(t: Terminal, ops: seq<Op>): Terminal
    decreases |ops|
  {
    if ops == [] then t else Run(Apply(t, ops[0]), ops[1..])
  }

  lemma {:induction false} RunConcat(t: Terminal, a: seq<Op>, b: seq<Op>)
    ensures Run(t, a + b) == Run(Run(t, a), b)
    decreases |a|
  {
    if a == [] {
      assert a + b == b;
    } else {
      assert (a + b)[0] == a[0] && (a + b)[1..] == a[1..] + b;
      RunConcat(Apply(t, a[0]), a[1..], b);
    }
  }

  // ----- One frame -----

  function PaintLine(line: string): seq<Op> {
    [EraseLine] + (if line == "" then [] else [Text(line)]) + [Newline]
  }

  function Paint(lines: seq<string>): seq<Op> {
    if lines == [] then [] else PaintLine(lines[0]) + Paint(lines[1..])
  }

  function UpBy(n: nat): seq<Op> {
    if n > 0 then [Up(n)] else []
  }

  function Blanks(n: nat): (r: seq<string>)
    ensures |r| == n && forall i :: 0 <= i < n ==> r[i] == ""
  {
    seq(n, _ => "")
  }

  /** Everything written for a frame of lines when the last one had drawn. */
  function Frame(drawn: nat, lines: seq<string>): seq<Op> {
    var extra := Max(0, drawn - |lines|);
    UpBy(drawn) + Paint(lines + Blanks(extra)) + UpBy(extra)
  }

  lemma {:induction false} PaintSnoc(lines: seq<string>, line: string)
    ensures Paint(lines + [line]) == Paint(lines) + PaintLine(line)
  {
    if lines == [] {
      assert Paint([line]) == PaintLine(line) + Paint([line][1..]);
    } else {
      assert (lines + [line])[1..] == lines[1..] + [line];
      PaintSnoc(lines[1..], line);
    }
  }

  class Display {
    var drawn: nat

    constructor ()
      ensures drawn == 0
    {
      drawn := 0;
    }

    /** The output of one call of draw on a terminal. */
    method Draw(lines: seq<string>) returns (out: seq<Op>)
      modifies this
      ensures drawn == |lines|
      ensures out == Frame(old(drawn), lines)
    {
      var up := if drawn > 0 then [Up(drawn)] else [];
      var body := [];
      var i := 0;
      while i < |lines|
        invariant 0 <= i <= |lines|
        invariant drawn == old(drawn)
        invariant body == Paint(lines[..i])
      {
        PaintSnoc(lines[..i], lines[i]);
        assert lines[..i + 1] == lines[..i] + [lines[i]];
        body := body + PaintLine(lines[i]);
        i := i + 1;
      }
      assert lines + Blanks(0) == lines[..i];
      while i < drawn
        invariant |lines| <= i <= Max(|lines|, drawn)
        invariant drawn == old(drawn)
        invariant body == Paint(lines + Blanks(i - |lines|))
      {
        PaintSnoc(lines + Blanks(i - |lines|), "");
        assert lines + Blanks(i + 1 - |lines|) == lines + Blanks(i - |lines|) + [""];
        body := body + PaintLine("");
        i := i + 1;
      }
      var extra := drawn - |lines|;
      out := up + body + if extra > 0 then [Up(extra)] else [];
      drawn := |lines|;
    }
  }

  // ----- What is visible -----

  lemma PaintLineWrites(t: Terminal, line: string)
    requires t.col == 0
    ensures Run(t, PaintLine(line)) == Terminal(t.rows[t.row := line], t.row + 1, 0)
  {
    var erased := Apply(t, EraseLine);
    if line == "" {
      assert PaintLine(line) == [EraseLine, Newline];
      assert PaintLine(line)[1..] == [Newline] && [Newline][1..] == [];
      assert Run(t, PaintLine(line)) == Run(erased, [Newline]);
    } else {
      assert PaintLine(line) == [EraseLine, Text(line), Newline];
      assert PaintLine(line)[1..] == [Text(line), Newline];
      assert [Text(line), Newline][1..] == [Newline] && [Newline][1..] == [];
      assert Overwrite("", 0, line) == line;
      assert t.rows[t.row := ""][t.row := line] == t.rows[t.row := line];
      var written := Apply(erased, Text(line));
      assert written.rows == t.rows[t.row := line];
      assert Run(t, PaintLine(line)) == Run(erased, [Text(line), Newline]);
      assert Run(erased, [Text(line), Newline]) == Run(written, [Newline]);
      assert Run(written, [Newline]) == Apply(written, Newline);
    }
  }

  /** u is t with lines written from the cursor down. */
  ghost predicate Written(t: Terminal, u: Terminal, lines: seq<string>) {
    && u.row == t.row + |lines| && u.col == 0
    && (forall i: nat :: u.Line(i) == if t.row <= i < t.row + |lines| then lines[i - t.row] else t.Line(i))
  }

  lemma WrittenCons(t: Terminal, u: Terminal, lines: seq<string>)
    requires lines != []
    requires Written(Terminal(t.rows[t.row := lines[0]], t.row + 1, 0), u, lines[1..])
    ensures Written(t, u, lines)
  {
    var v := Terminal(t.rows[t.row := lines[0]], t.row + 1, 0);
    forall i: nat
      ensures u.Line(i) == if t.row <= i < t.row + |lines| then lines[i - t.row] else t.Line(i)
    {
      assert v.Line(i) == if i == t.row then lines[0] else t.Line(i);
      if t.row < i < t.row + |lines| {
        assert u.Line(i) == lines[1..][i - v.row];
      }
    }
  }

  lemma {:induction false} PaintWrites(t: Terminal, lines: seq<string>)
    requires t.col == 0
    ensures Written(t, Run(t, Paint(lines)), lines)
    decreases |lines|
  {
    if lines != [] {
      PaintLineWrites(t, lines[0]);
      var v := Run(t, PaintLine(lines[0]));
      PaintWrites(v, lines[1..]);
      RunConcat(t, PaintLine(lines[0]), Paint(lines[1..]));
      WrittenCons(t, Run(v, Paint(lines[1..])), lines);
    }
  }

  /** t shows lines from row anchor on, with the cursor below them. At most high
      rows have been written since before; the others are as they were. */
  ghost predicate Shows(before: Terminal, t: Terminal, anchor: nat, high: nat, lines: seq<string>) {
    && t.row == anchor + |lines| && t.col == 0 && |lines| <= high
    && (forall i: nat :: t.Line(i) ==
          if anchor <= i < anchor + |lines| then lines[i - anchor]
          else if anchor <= i < anchor + high then ""
          else before.Line(i))
  }

  lemma UpMoves(t: Terminal, n: nat)
    requires n <= t.row
    ensures Run(t, UpBy(n)) == t.(row := t.row - n)
  {
    if n > 0 {
      assert UpBy(n)[1..] == [];
    }
  }

  /** A parameter of 0 moves up too, which is why the first frame and one of the
      same height move up by nothing at all instead. */
  lemma UpByZeroMoves(t: Terminal)
    requires t.row > 0
    ensures Run(t, [Up(0)]) == t.(row := t.row - 1) && Run(t, UpBy(0)) == t
  {
    assert [Up(0)][1..] == [];
  }

  /** A frame replaces the last one. */
  lemma FrameReplaces(before: Terminal, t: Terminal, anchor: nat, high: nat, last: seq<string>, lines: seq<string>)
    requires Shows(before, t, anchor, high, last)
    ensures Shows(before, Run(t, Frame(|last|, lines)), anchor, Max(high, |lines|), lines)
  {
    var extra := Max(0, |last| - |lines|);
    var all := lines + Blanks(extra);
    RunConcat(t, UpBy(|last|) + Paint(all), UpBy(extra));
    RunConcat(t, UpBy(|last|), Paint(all));
    UpMoves(t, |last|);
    var top := t.(row := anchor);
    PaintWrites(top, all);
    var low := Run(top, Paint(all));
    UpMoves(low, extra);
    var u := Run(t, Frame(|last|, lines));
    assert u == low.(row := anchor + |lines|);
    forall i: nat
      ensures u.Line(i) ==
        if anchor <= i < anchor + |lines| then lines[i - anchor]
        else if anchor <= i < anchor + Max(high, |lines|) then ""
        else before.Line(i)
    {
      assert low.Line(i) == if anchor <= i < anchor + |all| then all[i - anchor] else t.Line(i);
    }
  }

  /** What the terminal receives when the frames are drawn one after the other. */
  function Output(drawn: nat, frames: seq<seq<string>>): seq<Op>
    decreases |frames|
  {
    if frames == [] then []
    else Frame(drawn, frames[0]) + Output(|frames[0]|, frames[1..])
  }

  function Tallest(high: nat, frames: seq<seq<string>>): nat
    decreases |frames|
  {
    if frames == [] then high else Tallest(Max(high, |frames[0]|), frames[1..])
  }

  function Latest(last: seq<string>, frames: seq<seq<string>>): seq<string> {
    if frames == [] then last else frames[|frames| - 1]
  }

  lemma {:induction false} FramesReplace(before: Terminal, t: Terminal, anchor: nat, high: nat,
                                         last: seq<string>, frames: seq<seq<string>>)
    requires Shows(before, t, anchor, high, last)
    ensures Shows(before, Run(t, Output(|last|, frames)), anchor, Tallest(high, frames), Latest(last, frames))
    decreases |frames|
  {
    if frames != [] {
      var u := Run(t, Frame(|last|, frames[0]));
      FrameReplaces(before, t, anchor, high, last, frames[0]);
      FramesReplace(before, u, anchor, Max(high, |frames[0]|), frames[0], frames[1..]);
      RunConcat(t, Frame(|last|, frames[0]), Output(|frames[0]|, frames[1..]));
    }
  }

  /** From the start of any line of any screen: after any frames, exactly the
      latest is visible from that line on, nothing of a taller one is left, the
      cursor is just below, and no other row has changed. */
  lemma OnlyTheLatestIsVisible(t: Terminal, frames: seq<seq<string>>)
    requires t.col == 0
    ensures Shows(t, Run(t, Output(0, frames)), t.row, Tallest(0, frames), Latest([], frames))
  {
    FramesReplace(t, t, t.row, 0, [], frames);
  }
}
