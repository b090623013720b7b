/** Splitting a command string into arguments. */
module ArgvWords {

  predicate Blank(c: char) {
    c == ' ' || c == '\t'
  }

  predicate AllBlank(s: string, e: nat)
    requires e <= |s|
  {
    forall k | 0 <= k < e :: Blank(s[k])
  }

  predicate NoBlank(s: string, e: nat)
    requires e <= |s|
  {
    forall k | 0 <= k < e :: !Blank(s[k])
  }

  predicate StartsWord(s: string) {
    s == "" || !Blank(s[0])
  }

  predicate IsWord(s: string) {
    s != "" && forall k | 0 <= k < |s| :: s[k] != ' ' && s[k] != '\t'
  }

  ghost predicate EndsWord(s: string, e: nat) {
    e <= |s| && NoBlank(s, e) && (e < |s| ==> Blank(s[e]))
  }

  ghost predicate EndsBlanks(s: string, e: nat) {
    e <= |s| && AllBlank(s, e) && (e < |s| ==> !Blank(s[e]))
  }

  lemma {:induction false} WordEndExists(s: string) returns (e: nat)
    ensures EndsWord(s, e)
  {
    e := 0;
    while e < |s| && !Blank(s[e])
      invariant e <= |s| && NoBlank(s, e)
    {
      e := e + 1;
    }
  }

  lemma {:induction false} BlankEndExists(s: string) returns (e: nat)
    ensures EndsBlanks(s, e)
  {
    e := 0;
    while e < |s| && Blank(s[e])
      invariant e <= |s| && AllBlank(s, e)
    {
      e := e + 1;
    }
  }

  /** The length of the blank-free stretch at the start. */
  ghost function WordEnd(s: string): (e: nat)
    ensures EndsWord(s, e)
  {
    assert exists e :: EndsWord(s, e) by {
      var e := WordEndExists(s);
    }
    var e :| EndsWord(s, e);
    e
  }

  /** The length of the run of blanks at the start. */
  ghost function BlankEnd(s: string): (e: nat)
    ensures EndsBlanks(s, e)
  {
    assert exists e :: EndsBlanks(s, e) by {
      var e := BlankEndExists(s);
    }
    var e :| EndsBlanks(s, e);
    e
  }

  lemma WordEndUnique(s: string, e: nat)
    requires EndsWord(s, e)
    ensures WordEnd(s) == e
  {
    var f := WordEnd(s);
  }

  lemma BlankEndUnique(s: string, e: nat)
    requires EndsBlanks(s, e)
    ensures BlankEnd(s) == e
  {
    var f := BlankEnd(s);
  }

  /** The maximal blank-free words of a string. */
  ghost function Words(s: string): seq<string>
    decreases |s|
  {
    if s == "" then []
    else if Blank(s[0]) then Words(s[1..])
    else [s[..WordEnd(s)]] + Words(s[WordEnd(s)..])
  }

  /** The string from its first character that is no blank on. */
  ghost function SkipBlanks(s: string): (t: string)
    ensures StartsWord(t) && |t| <= |s|
  {
    s[BlankEnd(s)..]
  }

  /** What the parser pushes: a word and what follows its blanks, or the whole rest when it starts with a blank or
      holds no further blank. */
  ghost function Args(s: string): seq<string>
    decreases |s|
  {
    if s == "" then []
    else
      var j := WordEnd(s);
      if 0 < j < |s| then [s[..j]] + Args(SkipBlanks(s[j + 1..])) else [s]
  }

  lemma FirstArg(s: string)
    requires 0 < WordEnd(s) < |s|
    ensures Args(s) == [s[..WordEnd(s)]] + Args(SkipBlanks(s[WordEnd(s) + 1..]))
  {
  }

  lemma OnlyArg(s: string)
    requires s != "" && (WordEnd(s) == 0 || WordEnd(s) == |s|)
    ensures Args(s) == [s] + Args("")
  {
  }

  lemma {:induction false} WordsSkipBlanks(s: string)
    ensures Words(s) == Words(SkipBlanks(s))
    decreases |s|
  {
    if StartsWord(s) {
      BlankEndUnique(s, 0);
      assert s[0..] == s;
    } else {
      var e := BlankEnd(s);
      BlankEndUnique(s[1..], e - 1);
      WordsSkipBlanks(s[1..]);
      assert s[1..][e - 1..] == s[e..];
    }
  }

  lemma {:induction false} WordsAreWords(s: string)
    ensures forall i | 0 <= i < |Words(s)| :: IsWord(Words(s)[i])
    decreases |s|
  {
    if s != "" {
      if Blank(s[0]) {
        WordsAreWords(s[1..]);
      } else {
        WordsAreWords(s[WordEnd(s)..]);
        assert IsWord(s[..WordEnd(s)]);
      }
    }
  }

  lemma {:induction false} ArgsAreWords(s: string)
    requires StartsWord(s)
    ensures Args(s) == Words(s)
    decreases |s|
  {
    if s != "" {
      var j := WordEnd(s);
      if j < |s| {
        var rest := s[j + 1..];
        assert s[j..][1..] == rest;
        WordsSkipBlanks(rest);
        ArgsAreWords(SkipBlanks(rest));
      } else {
        assert s[..j] == s && s[j..] == "";
      }
    }
  }

  /** The arguments are the words of the string exactly when it does not start with a blank. */
  lemma ArgsAreWordsIff(s: string)
    ensures Args(s) == Words(s) <==> StartsWord(s)
  {
    if StartsWord(s) {
      ArgsAreWords(s);
    } else {
      WordEndUnique(s, 0);
      WordsAreWords(s);
      assert Args(s) == [s] && !IsWord(s);
      assert |Words(s)| == 1 ==> IsWord(Words(s)[0]);
    }
  }

  // ---------- joining ----------

  /** Each word followed by its gap. */
  function Join(words: seq<string>, gaps: seq<string>): string
    requires |words| == |gaps|
  {
    if words == [] then "" else words[0] + gaps[0] + Join(words[1..], gaps[1..])
  }

  predicate IsGap(s: string) {
    forall k | 0 <= k < |s| :: s[k] == ' ' || s[k] == '\t'
  }

  /** Words with a gap after each, of which only the last may be empty. */
  ghost predicate Separated(words: seq<string>, gaps: seq<string>) {
    && |words| == |gaps|
    && (forall i | 0 <= i < |words| :: IsWord(words[i]))
    && (forall i | 0 <= i < |gaps| :: IsGap(gaps[i]))
    && (forall i | 0 <= i < |gaps| - 1 :: gaps[i] != "")
  }

  lemma JoinStart(words: seq<string>, gaps: seq<string>)
    requires Separated(words, gaps)
    ensures StartsWord(Join(words, gaps))
  {
    if words != [] {
      assert IsWord(words[0]) && Join(words, gaps)[0] == words[0][0];
    }
  }

  lemma ArgsOfWord(w: string)
    requires IsWord(w)
    ensures Args(w) == [w]
  {
    WordEndUnique(w, |w|);
  }

  lemma ArgsOfJoin(w: string, gap: string, tail: string)
    requires IsWord(w) && IsGap(gap) && gap != "" && StartsWord(tail)
    ensures Args(w + gap + tail) == [w] + Args(tail)
  {
    var s := w + gap + tail;
    assert s[..|w|] == w && s[|w|] == gap[0];
    WordEndUnique(s, |w|);
    var rest := s[|w| + 1..];
    assert rest == gap[1..] + tail;
    BlankEndUnique(rest, |gap| - 1);
    assert rest[|gap| - 1..] == tail;
  }

  /** Words joined by any runs of blanks are parsed back. */
  lemma {:induction false} JoinedParse(words: seq<string>, gaps: seq<string>)
    requires Separated(words, gaps)
    ensures Args(Join(words, gaps)) == words
    decreases |words|
  {
    if words != [] {
      var w, gap, tail := words[0], gaps[0], Join(words[1..], gaps[1..]);
      assert IsWord(w) && IsGap(gap);
      assert Separated(words[1..], gaps[1..]);
      JoinStart(words[1..], gaps[1..]);
      JoinedParse(words[1..], gaps[1..]);
      assert words == [w] + words[1..];
      if gap != "" {
        ArgsOfJoin(w, gap, tail);
      } else {
        assert words[1..] == [] && w + gap + tail == w;
        ArgsOfWord(w);
      }
    }
  }

  lemma SeparatedCons(w: string, gap: string, words: seq<string>, gaps: seq<string>)
    requires IsWord(w) && IsGap(gap) && (gap == "" ==> words == []) && Separated(words, gaps)
    ensures Separated([w] + words, [gap] + gaps)
    ensures Join([w] + words, [gap] + gaps) == w + gap + Join(words, gaps)
  {
    var ws, gs := [w] + words, [gap] + gaps;
    assert ws[1..] == words && gs[1..] == gaps;
    forall i | 0 <= i < |ws| ensures IsWord(ws[i]) && IsGap(gs[i]) {
      if i > 0 { assert IsWord(words[i - 1]) && IsGap(gaps[i - 1]); }
    }
  }

  /** What comes before the first argument's end, the gap after it, and the rest. */
  lemma SplitAtGap(s: string) returns (gap: string)
    requires s != "" && StartsWord(s) && WordEnd(s) < |s|
    ensures var w, tail := s[..WordEnd(s)], SkipBlanks(s[WordEnd(s) + 1..]);
            IsWord(w) && IsGap(gap) && gap != "" && s == w + gap + tail && Args(s) == [w] + Args(tail)
  {
    var j := WordEnd(s);
    var rest := s[j + 1..];
    var e := BlankEnd(rest);
    gap := s[j..j + 1 + e];
    assert forall k | 1 <= k < |gap| :: gap[k] == rest[k - 1];
    assert s == s[..j] + gap + rest[e..];
  }

  /** Every string that does not start with a blank is such a joining of its arguments: only blanks are dropped. */
  lemma {:induction false} ParsedJoin(s: string) returns (gaps: seq<string>)
    requires StartsWord(s)
    ensures Separated(Args(s), gaps) && Join(Args(s), gaps) == s
    decreases |s|
  {
    if s == "" {
      gaps := [];
    } else {
      var j := WordEnd(s);
      if j == |s| {
        SeparatedCons(s, "", [], []);
        gaps := [""];
        assert [""] + [] == gaps && [s] + [] == Args(s);
      } else {
        var gap := SplitAtGap(s);
        var tail := SkipBlanks(s[j + 1..]);
        var more := ParsedJoin(tail);
        SeparatedCons(s[..j], gap, Args(tail), more);
        gaps := [gap] + more;
      }
    }
  }
}

/** The parser with its copy of the string cut in place, its linked list and its argument array. */
module ArgvParser {
  import opened Common
  import opened ArgvWords

  datatype LineList = Nil | Cons(stringArg: string, next: LineList)

  /** The list after pushing these strings in order: the last one is in front. */
  function PushAll(list: LineList, args: seq<string>): LineList {
    if args == [] then list else Cons(args[|args| - 1], PushAll(list, args[..|args| - 1]))
  }

  lemma PushAllSnoc(list: LineList, args: seq<string>, s: string)
    ensures PushAll(list, args + [s]) == Cons(s, PushAll(list, args))
  {
    assert (args + [s])[..|args|] == args;
  }

  lemma {:induction false} PushAllAppend(list: LineList, first: seq<string>, args: seq<string>)
    ensures PushAll(PushAll(list, first), args) == PushAll(list, first + args)
  {
    if args == [] {
      assert first + args == first;
    } else {
      var n := |args| - 1;
      PushAllAppend(list, first, args[..n]);
      assert first + args == (first + args[..n]) + [args[n]];
      PushAllSnoc(list, first + args[..n], args[n]);
    }
  }

  lemma MoveOver<T>(a: seq<T>, x: T, b: seq<T>)
    ensures a + ([x] + b) == (a + [x]) + b
  {
  }

  /** The NUL-terminated string at offset `p`. */
  ghost predicate CStringAt(a: array<char>, p: nat, t: string)
    reads a
  {
    p + |t| < a.Length && (forall k | 0 <= k < |t| :: a[p + k] == t[k]) && a[p + |t|] == NUL && NoNul(t)
  }

  lemma CharAt(a: array<char>, p: nat, t: string, k: nat)
    requires CStringAt(a, p, t) && k <= |t|
    ensures a[p + k] == if k < |t| then t[k] else NUL
    ensures a[p + k] == NUL <==> k == |t|
  {
    if k < |t| { assert a[p + k] == t[k]; }
  }

  lemma SuffixAt(a: array<char>, p: nat, t: string, k: nat)
    requires CStringAt(a, p, t) && k <= |t|
    ensures CStringAt(a, p + k, t[k..])
  {
    forall i | 0 <= i < |t| - k ensures a[p + k + i] == t[k..][i] && t[k..][i] != NUL {
      assert a[p + (k + i)] == t[k + i];
    }
  }

  method ReadAt(a: array<char>, p: nat, len: nat, ghost t: string) returns (s: string)
    requires CStringAt(a, p, t) && len == |t|
    ensures s == t
  {
    s := a[p..p + len];
    assert forall i | 0 <= i < len :: s[i] == t[i];
  }

  method Strlen(a: array<char>, p: nat, ghost t: string) returns (len: nat)
    requires CStringAt(a, p, t)
    ensures len == |t|
  {
    len := 0;
    CharAt(a, p, t, 0);
    while a[p + len] != NUL
      invariant len <= |t| && (a[p + len] == NUL <==> len == |t|)
      decreases |t| - len
    {
      len := len + 1;
      CharAt(a, p, t, len);
    }
  }

  /** The offset of the first blank or the end: `strcspn`. */
  method Strcspn(a: array<char>, p: nat, ghost t: string) returns (j: nat)
    requires CStringAt(a, p, t)
    ensures j == WordEnd(t)
  {
    j := 0;
    CharAt(a, p, t, 0);
    while a[p + j] != NUL && !Blank(a[p + j])
      invariant j <= |t| && NoBlank(t, j)
      invariant a[p + j] == (if j < |t| then t[j] else NUL) && (a[p + j] == NUL <==> j == |t|)
      decreases |t| - j
    {
      j := j + 1;
      CharAt(a, p, t, j);
    }
    WordEndUnique(t, j);
  }

  /** The offset of the first character that is no blank: `strspn`. */
  method Strspn(a: array<char>, p: nat, ghost t: string) returns (j: nat)
    requires CStringAt(a, p, t)
    ensures j == BlankEnd(t)
  {
    j := 0;
    CharAt(a, p, t, 0);
    while Blank(a[p + j])
      invariant j <= |t| && AllBlank(t, j)
      invariant a[p + j] == if j < |t| then t[j] else NUL
      decreases |t| - j
    {
      j := j + 1;
      CharAt(a, p, t, j);
    }
    BlankEndUnique(t, j);
  }

  /** Ends the string at `p` before its `j`-th character: what stands there and what follows. */
  method Cut(a: array<char>, p: nat, j: nat, ghost t: string) returns (word: string)
    requires CStringAt(a, p, t) && j < |t|
    modifies a
    ensures word == t[..j] && CStringAt(a, p + j + 1, t[j + 1..])
  {
    SuffixAt(a, p, t, j + 1);
    a[p + j] := NUL;
    word := ReadAt(a, p, j, t[..j]);
  }

  /** The offset of the first character at or after `p` that is no blank. */
  method Skip(a: array<char>, p: nat, ghost t: string) returns (q: nat)
    requires CStringAt(a, p, t)
    ensures CStringAt(a, q, SkipBlanks(t))
  {
    var k := Strspn(a, p, t);
    SuffixAt(a, p, t, k);
    q := p + k;
  }

  /** The argument at `p`, cut out of the string when another one follows; `next` is what is left to parse. */
  method NextArg(a: array<char>, p: nat, len: nat, ghost rest: string)
    returns (q: nat, word: string, last: bool, ghost next: string)
    requires CStringAt(a, p, rest) && len == |rest| > 0
    modifies a
    ensures Args(rest) == [word] + Args(next)
    ensures CStringAt(a, q, next) && |next| < |rest| && (last ==> next == "")
  {
    var j := Strcspn(a, p, rest);
    if 0 < j && j < len {
      word := Cut(a, p, j, rest);
      next := SkipBlanks(rest[j + 1..]);
      q := Skip(a, p + j + 1, rest[j + 1..]);
      FirstArg(rest);
      last := false;
    } else {
      word := ReadAt(a, p, len, rest);
      SuffixAt(a, p, rest, len);
      OnlyArg(rest);
      q, last, next := p + len, true, rest[len..];
    }
  }

  /** The array holds these strings in order, then a null. */
  ghost predicate IsArgv(argv: array<Option<string>>, all: seq<string>)
    reads argv
  {
    && argv.Length == |all| + 1
    && (forall k | 0 <= k < |all| :: argv[k] == Some(all[k]))
    && argv[|all|] == None
  }

  class Parser {
    var cmdLineList: LineList

    constructor ()
      ensures cmdLineList == Nil
    {
      cmdLineList := Nil;
    }

    method Push(s: string, ghost start: LineList, ghost pushed: seq<string>)
      requires cmdLineList == PushAll(start, pushed)
      modifies this
      ensures cmdLineList == Cons(s, old(cmdLineList)) == PushAll(start, pushed + [s])
    {
      PushAllSnoc(start, pushed, s);
      cmdLineList := Cons(s, cmdLineList);
    }

    /** Pushes the argument at `p`; `next` is what is left to parse. */
    method PushNext(cmdline: array<char>, p: nat, len: nat, ghost rest: string, ghost start: LineList,
                    ghost pushed: seq<string>)
      returns (q: nat, last: bool, ghost next: string, ghost now: seq<string>)
      requires CStringAt(cmdline, p, rest) && len == |rest| > 0
      requires cmdLineList == PushAll(start, pushed)
      modifies this, cmdline
      ensures CStringAt(cmdline, q, next) && |next| < |rest| && (last ==> next == "")
      ensures |now| == |pushed| + 1 && cmdLineList == PushAll(start, now)
      ensures now + Args(next) == pushed + Args(rest)
    {
      var word: string;
      q, word, last, next := NextArg(cmdline, p, len, rest);
      Push(word, start, pushed);
      MoveOver(pushed, word, Args(next));
      now := pushed + [word];
    }

    /** Pushes the arguments of the string held in the array. */
    method PushFrom(cmdline: array<char>, ghost s: string) returns (n: nat)
      requires CStringAt(cmdline, 0, s)
      modifies this, cmdline
      ensures n == |Args(s)| && cmdLineList == PushAll(old(cmdLineList), Args(s))
    {
      var p: nat, last := 0, false;
      n := 0;
      ghost var start, rest, pushed: seq<string> := cmdLineList, s, [];
      while !last
        invariant CStringAt(cmdline, p, rest) && (last ==> rest == "")
        invariant Args(s) == pushed + Args(rest)
        invariant n == |pushed| && cmdLineList == PushAll(start, pushed)
        decreases !last, |rest|
      {
        var len := Strlen(cmdline, p, rest);
        if len == 0 { break; }
        n := n + 1;
        p, last, rest, pushed := PushNext(cmdline, p, len, rest, start, pushed);
      }
      assert Args(s) == pushed;
    }

    /** Pushes the arguments of a string onto the list. */
    method PushArgs(cmdline_: string) returns (n: nat)
      requires NoNul(cmdline_)
      modifies this
      ensures n == |Args(cmdline_)| && cmdLineList == PushAll(old(cmdLineList), Args(cmdline_))
    {
      var cmdline := new char[|cmdline_| + 1](k requires 0 <= k => if k < |cmdline_| then cmdline_[k] else NUL);
      n := PushFrom(cmdline, cmdline_);
    }

    static ghost function AllArgs(progName: Option<string>, cmdline: string): seq<string> {
      (if progName.Some? then [progName.value] else []) + Args(cmdline)
    }

    /** Builds the argument vector: the program name, if given, and the arguments in their original order, although
        they sit in the list in reverse and the array is filled from its end. */
    method CreateArgv(cmdline: string, progName: Option<string>) returns (n: nat, argv: array<Option<string>>)
      requires NoNul(cmdline)
      modifies this
      ensures fresh(argv) && IsArgv(argv, AllArgs(progName, cmdline)) && n == |AllArgs(progName, cmdline)|
      ensures cmdLineList == PushAll(old(cmdLineList), AllArgs(progName, cmdline))
    {
      ghost var start, first: seq<string> := cmdLineList, [];
      n := 0;
      if progName.Some? {
        Push(progName.value, start, first);
        first := first + [progName.value];
        n := n + 1;
      }
      var m := PushArgs(cmdline);
      n := n + m;
      PushAllAppend(start, first, Args(cmdline));
      argv := new Option<string>[n + 1](_ => None);
      FillArgv(argv, start, AllArgs(progName, cmdline));
    }

    /** Copies the list into the array, from the last argument to the first. */
    method FillArgv(argv: array<Option<string>>, ghost start: LineList, ghost all: seq<string>)
      requires argv.Length == |all| + 1 && argv[|all|] == None
      requires cmdLineList == PushAll(start, all)
      modifies argv
      ensures IsArgv(argv, all)
    {
      var tmp := cmdLineList;
      var i := argv.Length - 2;
      assert all[..|all|] == all;
      while i >= 0
        invariant -1 <= i < |all|
        invariant tmp == PushAll(start, all[..i + 1])
        invariant forall k | i < k < |all| :: argv[k] == Some(all[k])
        invariant argv[|all|] == None
      {
        assert all[..i + 1][..i] == all[..i];
        argv[i] := Some(tmp.stringArg);
        tmp := tmp.next;
        i := i - 1;
      }
    }
  }
}
