/**
 The command line recorded in the operations table, and a POSIX word splitter to
 read it back (POSIX.1-2017, Shell Command Language, sections 2.2.1 to 2.2.3 and
 2.3). Strings are sequences of bytes written as characters.
 */
module Operations {
  import opened Common

  // ----- The printer -----

  /** The characters that need no quoting. */
  predicate IsSafe(c: char) {
    || 'a' <= c <= 'z' || 'A' <= c <= 'Z' || '0' <= c <= '9'
    || c == '-' || c == '_' || c == '=' || c == '.' || c == '/' || c == ':'
    || c == ',' || c == '@' || c == '+' || c == '%'
  }

  const LOWER := "abcdefghijklmnopqrstuvwxyz"
  const UPPER := "ABCDEFGHIJKLMNOPQRSTUVWXYZ"
  const DIGITS := "0123456789"
  const SIGNS := "-_=./:,@+%"

  /** The safe characters are those of the cut set. */
  lemma SafeExactly(c: char)
    ensures IsSafe(c) <==> c in LOWER || c in UPPER || c in DIGITS || c in SIGNS
  {
    LowerExactly(c);
    UpperExactly(c);
    DigitsExactly(c);
    SignsExactly(c);
  }

  lemma LowerExactly(c: char)
    ensures c in LOWER <==> 'a' <= c <= 'z'
  {
    assert |LOWER| == 26;
    if 'a' <= c <= 'z' {
      assert LOWER[c as int - 'a' as int] == c;
    }
  }

  lemma UpperExactly(c: char)
    ensures c in UPPER <==> 'A' <= c <= 'Z'
  {
    if 'A' <= c <= 'Z' {
      assert UPPER[c as int - 'A' as int] == c;
    }
  }

  lemma DigitsExactly(c: char)
    ensures c in DIGITS <==> '0' <= c <= '9'
  {
    if '0' <= c <= '9' {
      assert DIGITS[c as int - '0' as int] == c;
    }
  }

  lemma SignsExactly(c: char)
    ensures c in SIGNS <==>
      (c == '-' || c == '_' || c == '=' || c == '.' || c == '/' || c == ':' || c == ',' || c == '@' || c == '+' || c == '%')
  {
    assert SIGNS[0] == '-' && SIGNS[1] == '_' && SIGNS[2] == '=' && SIGNS[3] == '.' && SIGNS[4] == '/';
    assert SIGNS[5] == ':' && SIGNS[6] == ',' && SIGNS[7] == '@' && SIGNS[8] == '+' && SIGNS[9] == '%';
  }

  // strings.Trim with the safe characters as the cut set.

  function TrimLeft(s: string): string {
    if s != [] && IsSafe(s[0]) then TrimLeft(s[1..]) else s
  }

  function TrimRight(s: string): string {
    if s != [] && IsSafe(s[|s| - 1]) then TrimRight(s[..|s| - 1]) else s
  }

  function Trim(s: string): string {
    TrimRight(TrimLeft(s))
  }

  /** Trimming leaves nothing exactly when every character is safe. */
  lemma {:induction false} TrimmedAway(s: string)
    ensures Trim(s) == [] <==> forall c :: c in s ==> IsSafe(c)
  {
    if s != [] && IsSafe(s[0]) {
      TrimmedAway(s[1..]);
    } else if s != [] {
      TrimRightKeepsFirst(s);
    }
  }

  lemma {:induction false} TrimRightKeepsFirst(s: string)
    requires s != [] && !IsSafe(s[0])
    ensures TrimRight(s) != []
  {
    if IsSafe(s[|s| - 1]) {
      TrimRightKeepsFirst(s[..|s| - 1]);
    }
  }

  /** Every quote becomes: close, escaped quote, open again. */
  function Escape(s: string): string {
    if s == [] then []
    else (if s[0] == '\'' then "'\\''" else [s[0]]) + Escape(s[1..])
  }

  function ShellQuote(s: string): string {
    if s != [] && Trim(s) == [] then s else "'" + Escape(s) + "'"
  }

  function StripSlashes(path: string): string {
    if path != [] && path[|path| - 1] == '/' then StripSlashes(path[..|path| - 1]) else path
  }

  /** What follows the last slash. */
  function AfterSlash(path: string): string {
    if path == [] || path[|path| - 1] == '/' then []
    else AfterSlash(path[..|path| - 1]) + [path[|path| - 1]]
  }

  /** filepath.Base on a system with slashes. */
  function Base(path: string): string {
    if path == [] then "."
    else
      var stripped := StripSlashes(path);
      if stripped == [] then "/" else AfterSlash(stripped)
  }

  /** The base name is the last element of the path: no slash in it, only
      slashes after it, and nothing or a slash before it. */
  lemma BaseIsLastElement(path: string) returns (before: string, after: string)
    requires exists c :: c in path && c != '/'
    ensures path == before + Base(path) + after
    ensures Base(path) != [] && '/' !in Base(path) && (forall c :: c in after ==> c == '/')
    ensures before == [] || before[|before| - 1] == '/'
  {
    after := SplitStrip(path);
    before := SplitAfter(StripSlashes(path));
    assert path == StripSlashes(path) + after;
  }

  lemma {:induction false} SplitStrip(path: string) returns (after: string)
    requires exists c :: c in path && c != '/'
    ensures path == StripSlashes(path) + after && (forall c :: c in after ==> c == '/')
    ensures StripSlashes(path) != [] && StripSlashes(path)[|StripSlashes(path)| - 1] != '/'
  {
    if path[|path| - 1] == '/' {
      var front := path[..|path| - 1];
      assert path == front + ['/'];
      after := SplitStrip(front);
      assert path == StripSlashes(front) + (after + ['/']);
      after := after + ['/'];
    } else {
      after := [];
    }
  }

  lemma {:induction false} SplitAfter(path: string) returns (before: string)
    ensures path == before + AfterSlash(path) && '/' !in AfterSlash(path)
    ensures before == [] || before[|before| - 1] == '/'
    ensures path != [] && path[|path| - 1] != '/' ==> AfterSlash(path) != []
  {
    if path == [] || path[|path| - 1] == '/' {
      before := path;
    } else {
      var front := path[..|path| - 1];
      before := SplitAfter(front);
      assert path == front + [path[|path| - 1]];
      assert path == before + (AfterSlash(front) + [path[|path| - 1]]);
    }
  }

  /** Without an element, it is the root, or the current directory. */
  lemma {:induction false} BaseWithoutElement(path: string)
    requires forall c :: c in path ==> c == '/'
    ensures Base(path) == if path == [] then "." else "/"
  {
    NothingStripped(path);
  }

  lemma {:induction false} NothingStripped(path: string)
    requires forall c :: c in path ==> c == '/'
    ensures StripSlashes(path) == []
  {
    if path != [] {
      var front := path[..|path| - 1];
      assert path == front + [path[|path| - 1]];
      assert path[|path| - 1] in path && forall c :: c in front ==> c in path;
      NothingStripped(path[..|path| - 1]);
    }
  }

  function Join(parts: seq<string>): string {
    if parts == [] then []
    else if |parts| == 1 then parts[0]
    else parts[0] + " " + Join(parts[1..])
  }

  function Quoted(args: seq<string>): (r: seq<string>)
    ensures |r| == |args| && forall i :: 0 <= i < |args| ==> r[i] == ShellQuote(args[i])
  {
    Map(ShellQuote, args)
  }

  method CommandLine(args: seq<string>) returns (line: string)
    ensures line == Printed(args)
  {
    if |args| == 0 {
      return "";
    }
    var parts := [Base(args[0])];
    ghost var quoted := Quoted(args[1..]);
    var i := 1;
    while i < |args|
      invariant 1 <= i <= |args|
      invariant parts == [Base(args[0])] + quoted[..i - 1]
    {
      assert quoted[i - 1] == ShellQuote(args[1..][i - 1]) == ShellQuote(args[i]);
      AppendTake([Base(args[0])], quoted, i - 1);
      parts := parts + [ShellQuote(args[i])];
      i := i + 1;
    }
    assert quoted[..i - 1] == quoted;
    line := Join(parts);
  }

  lemma AppendTake<T>(front: seq<T>, xs: seq<T>, k: nat)
    requires k < |xs|
    ensures front + xs[..k] + [xs[k]] == front + xs[..k + 1]
  {
    assert xs[..k + 1] == xs[..k] + [xs[k]];
  }

  function Printed(args: seq<string>): string {
    if args == [] then "" else Join([Base(args[0])] + Quoted(args[1..]))
  }

  // ----- The reader -----

  datatype Mode = Between | InWord | InSingle | InDouble

  predicate IsBlank(c: char) { c == ' ' || c == '\t' }

  /** Unquoted, these end the command or start an expansion: the text is then
      not a plain list of words. */
  predicate IsActive(c: char) {
    || c == '|' || c == '&' || c == ';' || c == '<' || c == '>' || c == '(' || c == ')'
    || c == '$' || c == '`' || c == '*' || c == '?' || c == '[' || c == '\n'
  }

  /** A character that stands for itself inside an unquoted word. */
  predicate IsWordChar(c: char) {
    !IsBlank(c) && c != '\'' && c != '"' && c != '\\' && !IsActive(c)
  }

  /** A character that may start an unquoted word. */
  predicate StartsWord(c: char) {
    c != '#' && c != '~'
  }

  /** The words of s read in the given mode, word being the current word so far.
      None when s is not a complete list of plain words. */
  function Scan(s: string, mode: Mode, word: string): Option<seq<string>>
    decreases |s|, if mode.Between? then 1 else 0
  {
    match mode
    case Between =>
      if s == [] then Some([])
      else if IsBlank(s[0]) then Scan(s[1..], Between, [])
      else if !StartsWord(s[0]) then None
      else Scan(s, InWord, [])
    case InWord =>
      if s == [] then Some([word])
      else if IsBlank(s[0]) then
        var rest := Scan(s[1..], Between, []);
        if rest.None? then None else Some([word] + rest.value)
      else if s[0] == '\'' then Scan(s[1..], InSingle, word)
      else if s[0] == '"' then Scan(s[1..], InDouble, word)
      else if s[0] == '\\' then
        if |s| == 1 then None
        else if s[1] == '\n' then Scan(s[2..], InWord, word)
        else Scan(s[2..], InWord, word + [s[1]])
      else if IsActive(s[0]) then None
      else Scan(s[1..], InWord, word + [s[0]])
    case InSingle =>
      if s == [] then None
      else if s[0] == '\'' then Scan(s[1..], InWord, word)
      else Scan(s[1..], InSingle, word + [s[0]])
    case InDouble =>
      if s == [] then None
      else if s[0] == '"' then Scan(s[1..], InWord, word)
      else if s[0] == '$' || s[0] == '`' then None
      else if s[0] == '\\' then
        if |s| == 1 then None
        else if s[1] == '\n' then Scan(s[2..], InDouble, word)
        else if IsEscapable(s[1]) then Scan(s[2..], InDouble, word + [s[1]])
        else Scan(s[2..], InDouble, word + [s[0], s[1]])
      else Scan(s[1..], InDouble, word + [s[0]])
  }

  function Split(s: string): Option<seq<string>> {
    Scan(s, Between, [])
  }

  predicate IsEscapable(c: char) {
    c == '$' || c == '`' || c == '"' || c == '\\'
  }

  /** A word that needs no quoting. */
  predicate IsPlain(w: string) {
    w != [] && StartsWord(w[0]) && forall c :: c in w ==> IsWordChar(c)
  }

  // ----- The reader inverts every quoting -----

  function Backslashed(w: string): string {
    if w == [] then [] else ['\\', w[0]] + Backslashed(w[1..])
  }

  /** Any text but a newline can be written with a backslash before each character
      (section 2.2.1). */
  lemma {:induction false} ScanBackslashed(w: string, rest: string, word: string)
    requires '\n' !in w
    ensures Scan(Backslashed(w) + rest, InWord, word) == Scan(rest, InWord, word + w)
  {
    if w == [] {
      assert Backslashed(w) + rest == rest && word + w == word;
    } else {
      var s := Backslashed(w) + rest;
      assert s[0] == '\\' && s[1] == w[0] && s[2..] == Backslashed(w[1..]) + rest;
      assert w[0] in w;
      ScanBackslashed(w[1..], rest, word + [w[0]]);
      assert (word + [w[0]]) + w[1..] == word + w;
    }
  }

  function EscapeOne(c: char): string {
    if c == '$' || c == '`' || c == '"' || c == '\\' then ['\\', c] else [c]
  }

  function EscapeDouble(w: string): string {
    if w == [] then [] else EscapeOne(w[0]) + EscapeDouble(w[1..])
  }

  lemma ScanEscapedOne(c: char, tail: string, word: string)
    ensures Scan(EscapeOne(c) + tail, InDouble, word) == Scan(tail, InDouble, word + [c])
  {
    var s := EscapeOne(c) + tail;
    if IsEscapable(c) {
      assert s[0] == '\\' && s[1] == c && s[2..] == tail;
    } else {
      assert s[0] == c && s[1..] == tail;
    }
  }

  /** Any text can be written in double quotes with a backslash before a dollar
      sign, a backquote, a double quote or a backslash (section 2.2.3). */
  lemma {:induction false} ScanDoubleQuoted(w: string, rest: string, word: string)
    ensures Scan(EscapeDouble(w) + "\"" + rest, InDouble, word) == Scan(rest, InWord, word + w)
  {
    if w == [] {
      assert (EscapeDouble(w) + "\"" + rest)[1..] == rest && word + w == word;
    } else {
      var tail := EscapeDouble(w[1..]) + "\"" + rest;
      assert EscapeDouble(w) + "\"" + rest == EscapeOne(w[0]) + tail;
      ScanEscapedOne(w[0], tail, word);
      ScanDoubleQuoted(w[1..], rest, word + [w[0]]);
      assert (word + [w[0]]) + w[1..] == word + w;
    }
  }

  /** Elsewhere in double quotes a backslash stands for itself, a backslash before
      a newline for nothing, and a dollar sign or a backquote for an expansion. */
  lemma ScanInDouble(c: char, rest: string, word: string)
    ensures c != '$' && c != '`' && c != '"' && c != '\\' && c != '\n' ==>
      Scan(['\\', c] + rest, InDouble, word) == Scan(rest, InDouble, word + ['\\', c])
    ensures Scan(['\\', '\n'] + rest, InDouble, word) == Scan(rest, InDouble, word)
    ensures c == '$' || c == '`' ==> Scan([c] + rest, InDouble, word) == None
  {
    assert (['\\', c] + rest)[2..] == rest && (['\\', '\n'] + rest)[2..] == rest;
  }

  const ACTIVE := "|&;<>()$`*?[\n"

  lemma ActiveExactly(c: char)
    ensures IsActive(c) <==> c in ACTIVE
  {
    assert ACTIVE[0] == '|' && ACTIVE[1] == '&' && ACTIVE[2] == ';' && ACTIVE[3] == '<' && ACTIVE[4] == '>';
    assert ACTIVE[5] == '(' && ACTIVE[6] == ')' && ACTIVE[7] == '$' && ACTIVE[8] == '`' && ACTIVE[9] == '*';
    assert ACTIVE[10] == '?' && ACTIVE[11] == '[' && ACTIVE[12] == '\n';
  }

  /** Unquoted, a blank ends a word, a backslash before a newline is nothing, and
      an active character, a comment or a tilde makes the text no list of plain
      words. An unfinished quote or escape does so too. */
  lemma ScanUnquoted(c: char, rest: string, word: string)
    ensures c == ' ' || c == '\t' ==>
      Scan([c] + rest, InWord, word) == if Split(rest).None? then None else Some([word] + Split(rest).value)
    ensures c == ' ' || c == '\t' ==> Split([c] + rest) == Split(rest)
    ensures Scan(['\\', '\n'] + rest, InWord, word) == Scan(rest, InWord, word)
    ensures c in ACTIVE ==> Scan([c] + rest, InWord, word) == None
    ensures c == '#' || c == '~' ==> Split([c] + rest) == None
    ensures Scan([], InSingle, word) == None && Scan([], InDouble, word) == None
    ensures Scan(['\\'], InWord, word) == None && Scan(['\\'], InDouble, word) == None
  {
    ActiveExactly(c);
    assert ([c] + rest)[1..] == rest && (['\\', '\n'] + rest)[2..] == rest;
  }

  // ----- The round trip -----

  lemma {:induction false} ScanWordChars(w: string, rest: string, word: string)
    requires forall c :: c in w ==> IsWordChar(c)
    ensures Scan(w + rest, InWord, word) == Scan(rest, InWord, word + w)
  {
    if w == [] {
      assert w + rest == rest && word + w == word;
    } else {
      assert (w + rest)[0] == w[0] && (w + rest)[1..] == w[1..] + rest;
      assert w[0] in w;
      ScanWordChars(w[1..], rest, word + [w[0]]);
      assert (word + [w[0]]) + w[1..] == word + w;
    }
  }

  lemma {:induction false} ScanEscaped(s: string, rest: string, word: string)
    ensures Scan(Escape(s) + "'" + rest, InSingle, word) == Scan(rest, InWord, word + s)
  {
    if s == [] {
      assert (Escape(s) + "'" + rest)[1..] == rest && word + s == word;
    } else {
      ScanEscaped(s[1..], rest, word + [s[0]]);
      assert (word + [s[0]]) + s[1..] == word + s;
      var tail := Escape(s[1..]) + "'" + rest;
      if s[0] == '\'' {
        ReopenQuote(tail, word);
        assert Escape(s) + "'" + rest == "'\\''" + tail;
      } else {
        assert Escape(s) + "'" + rest == [s[0]] + tail;
        assert ([s[0]] + tail)[1..] == tail;
      }
    }
  }

  lemma ReopenQuote(tail: string, word: string)
    ensures Scan("'\\''" + tail, InSingle, word) == Scan(tail, InSingle, word + ['\''])
  {
    var s := "'\\''" + tail;
    assert s[0] == '\'' && s[1] == '\\' && s[2] == '\'' && s[3] == '\'';
    assert s[1..][2..] == s[3..] && s[3..][1..] == tail;
    assert Scan(s, InSingle, word) == Scan(s[1..], InWord, word);
    assert Scan(s[1..], InWord, word) == Scan(s[3..], InWord, word + ['\'']);
  }

  lemma SafeIsPlain(s: string)
    requires s != [] && forall c :: c in s ==> IsSafe(c)
    ensures IsPlain(s)
  {
    assert s[0] in s;
  }

  /** One printed argument is read back as one word. */
  lemma ScanQuoted(a: string, rest: string)
    ensures Scan(ShellQuote(a) + rest, Between, []) == Scan(rest, InWord, a)
  {
    TrimmedAway(a);
    if a != [] && Trim(a) == [] {
      SafeIsPlain(a);
      ScanPlain(a, rest);
    } else {
      var s := ShellQuote(a) + rest;
      assert s[1..] == Escape(a) + "'" + rest;
      ScanEscaped(a, rest, []);
      assert [] + a == a;
    }
  }

  lemma ScanPlain(w: string, rest: string)
    requires IsPlain(w)
    ensures Scan(w + rest, Between, []) == Scan(rest, InWord, w)
  {
    assert w[0] in w && (w + rest)[0] == w[0];
    ScanWordChars(w, rest, []);
    assert [] + w == w;
  }

  lemma {:induction false} SplitJoined(args: seq<string>)
    requires args != []
    ensures Split(Join(Quoted(args))) == Some(args)
  {
    var first := args[0];
    if |args| == 1 {
      ScanQuoted(first, []);
      assert Join(Quoted(args)) == ShellQuote(first) + [] && [first] == args;
    } else {
      var tail := Join(Quoted(args[1..]));
      SplitJoined(args[1..]);
      ScanQuoted(first, " " + tail);
      ScanSeparator(first, tail);
      JoinCons(args);
      assert [first] + args[1..] == args;
    }
  }

  lemma JoinCons(args: seq<string>)
    requires |args| > 1
    ensures Join(Quoted(args)) == ShellQuote(args[0]) + (" " + Join(Quoted(args[1..])))
  {
    var parts := Quoted(args);
    assert parts[1..] == Quoted(args[1..]);
    assert parts[0] + " " + Join(parts[1..]) == parts[0] + (" " + Join(parts[1..]));
  }

  lemma ScanSeparator(word: string, tail: string)
    requires Split(tail).Some?
    ensures Scan(" " + tail, InWord, word) == Some([word] + Split(tail).value)
  {
    assert (" " + tail)[1..] == tail;
  }

  /** Splitting the printed line gives back the base name of the program and
      every argument byte for byte, if the base name is plain. */
  lemma PrintedReadsBack(program: string, args: seq<string>)
    requires IsPlain(Base(program))
    ensures Split(Printed([program] + args)) == Some([Base(program)] + args)
  {
    var base, parts := Base(program), Quoted(args);
    assert ([program] + args)[1..] == args;
    if args == [] {
      ScanPlain(base, []);
      assert base + [] == base && [base] + parts == [base];
    } else {
      var tail := Join(parts);
      assert ([base] + parts)[1..] == parts;
      SplitJoined(args);
      ScanPlain(base, " " + tail);
      ScanSeparator(base, tail);
      assert base + " " + tail == base + (" " + tail);
    }
  }

  function Length(words: seq<string>): nat {
    if words == [] then 0 else |words[0]| + Length(words[1..])
  }

  /** Reading never lengthens, and every quote, escape or blank shortens. */
  lemma {:induction false} ScanShortens(s: string, mode: Mode, word: string)
    ensures var r := Scan(s, mode, word);
      r.Some? ==>
        && Length(r.value) <= (if mode.Between? then 0 else |word|) + |s|
        && (mode.InSingle? || mode.InDouble? ==> Length(r.value) < |word| + |s|)
        && (mode.InWord? && Length(r.value) == |word| + |s| ==> forall c :: c in s ==> IsWordChar(c))
        && (mode.Between? && s != [] && Length(r.value) == |s| ==> IsPlain(s))
    decreases |s|, if mode.Between? then 1 else 0
  {
    var r := Scan(s, mode, word);
    if s != [] && r.Some? {
      match mode {
        case Between =>
          if IsBlank(s[0]) {
            ScanShortens(s[1..], Between, []);
          } else {
            ScanShortens(s, InWord, []);
          }
        case InWord =>
          if IsBlank(s[0]) {
            ScanShortens(s[1..], Between, []);
            assert r.value[1..] == Scan(s[1..], Between, []).value;
          } else if s[0] == '\'' {
            ScanShortens(s[1..], InSingle, word);
          } else if s[0] == '"' {
            ScanShortens(s[1..], InDouble, word);
          } else if s[0] == '\\' {
            ScanShortens(s[2..], InWord, if s[1] == '\n' then word else word + [s[1]]);
          } else {
            ScanShortens(s[1..], InWord, word + [s[0]]);
          }
        case InSingle =>
          if s[0] == '\'' {
            ScanShortens(s[1..], InWord, word);
          } else {
            ScanShortens(s[1..], InSingle, word + [s[0]]);
          }
        case InDouble =>
          if s[0] == '"' {
            ScanShortens(s[1..], InWord, word);
          } else if s[0] == '\\' {
            ScanShortens(s[2..], InDouble,
              if s[1] == '\n' then word else if IsEscapable(s[1]) then word + [s[1]] else word + [s[0], s[1]]);
          } else {
            ScanShortens(s[1..], InDouble, word + [s[0]]);
          }
      }
    } else if mode.InWord? && r.Some? {
      assert Length([word]) == |word| + Length([]);
    }
  }

  /** The recorded line is split back into its words for every argument list
      exactly when the program's base name is plain; otherwise it is not even
      without arguments. */
  lemma ReadsBackExactly(program: string)
    ensures IsPlain(Base(program)) <==>
      forall args :: Split(Printed([program] + args)) == Some([Base(program)] + args)
    ensures IsPlain(Base(program)) <==> Split(Printed([program])) == Some([Base(program)])
  {
    if IsPlain(Base(program)) {
      forall args
        ensures Split(Printed([program] + args)) == Some([Base(program)] + args)
      {
        PrintedReadsBack(program, args);
      }
      PrintedReadsBack(program, []);
      assert [program] + [] == [program] && [Base(program)] + [] == [Base(program)];
    } else {
      var base := Base(program);
      assert Printed([program]) == base;
      ScanShortens(base, Between, []);
      BaseIsNotEmpty(program);
      assert Length([base]) == |base| + Length([]);
      assert Split(Printed([program])) != Some([base]);
      assert [program] + [] == [program] && [base] + [] == [base];
      assert Split(Printed([program] + [])) != Some([base] + []);
    }
  }

  // ----- The line as a command -----

  function SkipBlanks(s: string): string {
    if s != [] && IsBlank(s[0]) then SkipBlanks(s[1..]) else s
  }

  /** s starts with the word w, no character of it quoted. */
  predicate StartsWithLiteral(s: string, w: string) {
    w <= s && (|s| == |w| || IsBlank(s[|w|]))
  }

  predicate IsNameChar(c: char, first: bool) {
    'a' <= c <= 'z' || 'A' <= c <= 'Z' || c == '_' || (!first && '0' <= c <= '9')
  }

  /** s starts with a name and an equals sign, which makes it an assignment. */
  predicate StartsAssignment(s: string, first: bool) {
    && s != []
    && ((s[0] == '=' && !first) || (IsNameChar(s[0], first) && StartsAssignment(s[1..], false)))
  }

  /** A name: a letter or an underscore, then letters, digits and underscores. */
  ghost predicate IsName(s: string) {
    && s != [] && s[0] !in DIGITS
    && forall c :: c in s ==> c in LOWER || c in UPPER || c in DIGITS || c == '_'
  }

  /** An assignment is a name before the first equals sign. */
  lemma {:induction false} AssignmentExactly(s: string)
    ensures StartsAssignment(s, true) <==> exists k :: 0 <= k < |s| && s[k] == '=' && IsName(s[..k])
  {
    if k: nat :| k < |s| && s[k] == '=' && IsName(s[..k]) {
      forall i | 0 <= i < k
        ensures s[i] in s[..k]
      {
        assert s[..k][i] == s[i];
      }
      NameLeadsOn(s, k, true);
    }
    if StartsAssignment(s, true) {
      var k := EqualsAfterName(s, true);
      assert IsName(s[..k]);
    }
  }

  lemma {:induction false} NameLeadsOn(s: string, k: nat, first: bool)
    requires k < |s| && s[k] == '=' && (first ==> IsName(s[..k]))
    requires forall i :: 0 <= i < k ==> s[i] in LOWER || s[i] in UPPER || s[i] in DIGITS || s[i] == '_'
    ensures StartsAssignment(s, first)
  {
    if k > 0 {
      LowerExactly(s[0]);
      UpperExactly(s[0]);
      DigitsExactly(s[0]);
      assert first ==> s[..k][0] == s[0];
      NameLeadsOn(s[1..], k - 1, false);
    }
  }

  /** The first equals sign of an assignment. */
  lemma {:induction false} EqualsAfterName(s: string, first: bool) returns (k: nat)
    requires StartsAssignment(s, first)
    ensures k < |s| && s[k] == '='
    ensures first ==> k > 0 && s[0] !in DIGITS
    ensures forall c :: c in s[..k] ==> c in LOWER || c in UPPER || c in DIGITS || c == '_'
  {
    if s[0] == '=' && !first {
      k := 0;
    } else {
      LowerExactly(s[0]);
      UpperExactly(s[0]);
      DigitsExactly(s[0]);
      var j := EqualsAfterName(s[1..], false);
      k := j + 1;
      assert s[..k] == [s[0]] + s[1..][..j];
    }
  }

  /** The program and arguments that a shell runs when s is typed. None when s
      is not one command of plain words, or when its first word is an assignment
      or, unquoted, a word with a meaning of its own: a reserved word (section
      2.4 of the Shell Command Language) or an alias. */
  function Typed(special: set<string>, s: string): Option<seq<string>> {
    var words, raw := Split(s), SkipBlanks(s);
    if words.None? || words.value == [] then None
    else if StartsAssignment(raw, true) || (words.value[0] in special && StartsWithLiteral(raw, words.value[0])) then None
    else words
  }

  /** A name that a shell takes for a program when it is typed unquoted. */
  predicate IsProgramName(special: set<string>, w: string) {
    IsPlain(w) && w !in special && !StartsAssignment(w, true)
  }

  lemma {:induction false} AssignmentEndsInWord(w: string, rest: string, first: bool)
    requires rest == [] || IsBlank(rest[0])
    ensures StartsAssignment(w + rest, first) <==> StartsAssignment(w, first)
  {
    if w == [] {
      assert w + rest == rest;
    } else {
      assert (w + rest)[0] == w[0] && (w + rest)[1..] == w[1..] + rest;
      AssignmentEndsInWord(w[1..], rest, false);
    }
  }

  lemma PrintedStartsWithBase(program: string, args: seq<string>) returns (rest: string)
    ensures Printed([program] + args) == Base(program) + rest && (rest == [] || IsBlank(rest[0]))
  {
    var parts := Quoted(args);
    assert ([program] + args)[1..] == args;
    if args == [] {
      rest := [];
      assert [Base(program)] + parts == [Base(program)];
    } else {
      assert ([Base(program)] + parts)[1..] == parts;
      rest := " " + Join(parts);
      assert Base(program) + " " + Join(parts) == Base(program) + rest;
    }
  }

  lemma TypedIsSplit(special: set<string>, program: string, args: seq<string>)
    requires IsPlain(Base(program))
    ensures Typed(special, Printed([program] + args)) ==
      if IsProgramName(special, Base(program)) then Some([Base(program)] + args) else None
  {
    var base := Base(program);
    var rest := PrintedStartsWithBase(program, args);
    PrintedReadsBack(program, args);
    AssignmentEndsInWord(base, rest, true);
    assert base[0] in base && (base + rest)[0] == base[0];
    assert SkipBlanks(base + rest) == base + rest;
    assert (base + rest)[..|base|] == base && StartsWithLiteral(base + rest, base);
  }

  /** A name in quotes is taken for a program whatever it means to the shell. */
  lemma QuotedNameRuns(special: set<string>, w: string)
    requires w != [] && '\'' !in w
    ensures Typed(special, "'" + Escape(w) + "'") == Some([w])
  {
    var s := "'" + Escape(w) + "'";
    assert s[1..] == Escape(w) + "'" + [];
    ScanEscaped(w, [], []);
    assert [] + w == w && w[0] in w;
    assert Scan(s[1..], InSingle, []) == Scan([], InWord, w) == Some([w]);
    assert Scan(s, InWord, []) == Scan(s[1..], InSingle, []);
    assert Split(s) == Some([w]);
    assert SkipBlanks(s) == s && s[0] == '\'';
  }

  /** The recorded command can be typed again, to run the same program with the
      same arguments, for every argument list exactly when the base name is a
      program name to the shell. */
  lemma CanBeTypedAgainExactly(special: set<string>, program: string)
    ensures IsProgramName(special, Base(program)) <==>
      forall args :: Typed(special, Printed([program] + args)) == Some([Base(program)] + args)
  {
    if IsPlain(Base(program)) {
      forall args
        ensures Typed(special, Printed([program] + args)) ==
          if IsProgramName(special, Base(program)) then Some([Base(program)] + args) else None
      {
        TypedIsSplit(special, program, args);
      }
      assert Typed(special, Printed([program] + [])).None? || IsProgramName(special, Base(program));
    } else {
      ReadsBackExactly(program);
      assert [program] + [] == [program] && [Base(program)] + [] == [Base(program)];
      assert Split(Printed([program] + [])) != Some([Base(program)] + []);
      assert Typed(special, Printed([program] + [])) != Some([Base(program)] + []);
    }
  }

  lemma BaseIsNotEmpty(path: string)
    ensures Base(path) != []
  {
    if path != [] && StripSlashes(path) != [] {
      StripLeavesNoSlash(path);
    }
  }

  lemma {:induction false} StripLeavesNoSlash(path: string)
    requires StripSlashes(path) != []
    ensures StripSlashes(path)[|StripSlashes(path)| - 1] != '/'
  {
    if path != [] && path[|path| - 1] == '/' {
      StripLeavesNoSlash(path[..|path| - 1]);
    }
  }
}
