/** The command-line splitter, which rewrites the line in place. */
module SplitArgv {
  import opened Common

  const SPACE: byte := 32
  const QUOTE: byte := 34
  const ESCAPE: byte := 92

  predicate Escapable(c: byte) {
    c == ESCAPE || c == QUOTE || c == SPACE
  }

  /** A character after a backslash; an unknown one is dropped. */
  function Unescaped(c: byte): seq<byte> {
    if Escapable(c) then [c] else []
  }

  /** The arguments of s, read from between two arguments.  The other functions are in the middle
      of an argument of which `cur` has been read.  An argument may end with the line. */
  function Args(s: seq<byte>): seq<seq<byte>>
    decreases |s|
  {
    if s == [] then []
    else if s[0] == SPACE then Args(s[1..])
    else if s[0] == QUOTE then InQuotes([], s[1..])
    else if s[0] == ESCAPE then AfterBackslash(false, [], s[1..])
    else InArg([s[0]], s[1..])
  }

  function InArg(cur: seq<byte>, s: seq<byte>): seq<seq<byte>>
    decreases |s|
  {
    if s == [] then [cur]
    else if s[0] == SPACE then [cur] + Args(s[1..])
    else if s[0] == ESCAPE then AfterBackslash(false, cur, s[1..])
    else InArg(cur + [s[0]], s[1..])
  }

  function InQuotes(cur: seq<byte>, s: seq<byte>): seq<seq<byte>>
    decreases |s|
  {
    if s == [] then [cur]
    else if s[0] == QUOTE then [cur] + Args(s[1..])
    else if s[0] == ESCAPE then AfterBackslash(true, cur, s[1..])
    else InQuotes(cur + [s[0]], s[1..])
  }

  function AfterBackslash(quoted: bool, cur: seq<byte>, s: seq<byte>): seq<seq<byte>>
    decreases |s|
  {
    if s == [] then [cur]
    else if quoted then InQuotes(cur + Unescaped(s[0]), s[1..])
    else InArg(cur + Unescaped(s[0]), s[1..])
  }

  /** In an argument, with or without quotes, a backslash makes the next character part of it if that is
      a backslash, a double quote or a space; before any other character it drops both. */
  lemma Escapes(cur: seq<byte>, c: byte, s: seq<byte>)
    ensures c in {92, 34, 32} ==>
              && InArg(cur, [92, c] + s) == InArg(cur + [c], s)
              && InQuotes(cur, [92, c] + s) == InQuotes(cur + [c], s)
              && Args([92, c] + s) == InArg([c], s)
    ensures c !in {92, 34, 32} ==>
              && InArg(cur, [92, c] + s) == InArg(cur, s)
              && InQuotes(cur, [92, c] + s) == InQuotes(cur, s)
              && Args([92, c] + s) == InArg([], s)
  {
    assert ([92, c] + s)[1..] == [c] + s && ([c] + s)[1..] == s;
    assert forall t: seq<byte> :: t + [] == t && [] + t == t;
  }

  datatype State = InSpace | Arg | QuotedArg | ArgEscaped | QuotedArgEscaped

  /** The arguments still to come in a state of the splitter. */
  function Rest(state: State, cur: seq<byte>, s: seq<byte>): seq<seq<byte>> {
    match state
    case InSpace => Args(s)
    case Arg => InArg(cur, s)
    case QuotedArg => InQuotes(cur, s)
    case ArgEscaped => AfterBackslash(false, cur, s)
    case QuotedArgEscaped => AfterBackslash(true, cur, s)
  }

  /** How arguments lie in memory: one NUL-terminated string after the other. */
  function Layout(args: seq<seq<byte>>): seq<byte> {
    if args == [] then [] else Layout(args[..|args| - 1]) + args[|args| - 1] + [0]
  }

  lemma LayoutMore(done: seq<seq<byte>>, arg: seq<byte>)
    ensures Layout(done + [arg]) == Layout(done) + arg + [0]
  {
    assert (done + [arg])[..|done|] == done;
  }

  /** `argv` points at the strings of `done`. */
  ghost predicate PointsAt(argv: seq<Option<nat>>, done: seq<seq<byte>>) {
    |done| <= |argv| && forall i :: 0 <= i < |done| ==> argv[i] == Some(|Layout(done[..i])|)
  }

  lemma PointsAtMore(argv: seq<Option<nat>>, done: seq<seq<byte>>, arg: seq<byte>)
    requires PointsAt(argv, done) && |done| < |argv|
    ensures PointsAt(argv[|done| := Some(|Layout(done)|)], done + [arg])
  {
    forall i | 0 <= i < |done| ensures (done + [arg])[..i] == done[..i] {
    }
    assert (done + [arg])[..|done|] == done;
  }

  /** What is output for a character: nothing (-1), the end of an argument (0), or a byte. */
  function Emitted(charOut: int): seq<byte> {
    if 0 < charOut < 256 then [charOut] else []
  }

  /** The `switch` over the state, for one character. */
  method Step(state: State, c: byte, ghost cur: seq<byte>, ghost s: seq<byte>)
    returns (next: State, charOut: int, starts: bool)
    requires c != 0 && (state == InSpace ==> cur == [])
    ensures -1 <= charOut < 256 && (charOut == 0 ==> state != InSpace)
    ensures starts <==> state == InSpace && next != InSpace
    ensures next == InSpace <==> charOut == 0 || (state == InSpace && c == SPACE)
    ensures next == InSpace ==> charOut <= 0
    ensures Rest(state, cur, [c] + s) ==
            if charOut == 0 then [cur] + Args(s) else Rest(next, cur + Emitted(charOut), s)
  {
    next, charOut, starts := state, -1, false;
    assert ([c] + s)[1..] == s;
    assert cur + [] == cur && (cur == [] ==> cur + [c] == [c]);
    match state
    case InSpace =>
      if c == SPACE {
      } else if c == QUOTE {
        next, starts := QuotedArg, true;
      } else if c == ESCAPE {
        next, starts := ArgEscaped, true;
      } else {
        next, starts, charOut := Arg, true, c;
      }
    case QuotedArg =>
      if c == QUOTE {
        next, charOut := InSpace, 0;
      } else if c == ESCAPE {
        next := QuotedArgEscaped;
      } else {
        charOut := c;
      }
    case ArgEscaped | QuotedArgEscaped =>
      if c == ESCAPE || c == QUOTE || c == SPACE {
        charOut := c;
      }
      next := if state == ArgEscaped then Arg else QuotedArg;
    case Arg =>
      if c == SPACE {
        next, charOut := InSpace, 0;
      } else if c == ESCAPE {
        next := ArgEscaped;
      } else {
        charOut := c;
      }
  }

  /** Reading one more character of the line. */
  method Read(state: State, c: byte, ghost text: seq<byte>, ghost inPtr: nat,
              ghost done: seq<seq<byte>>, ghost cur: seq<byte>)
    returns (next: State, charOut: int, starts: bool)
    requires inPtr < |text| && c == text[inPtr] != 0 && (state == InSpace ==> cur == [])
    requires Args(text) == done + Rest(state, cur, text[inPtr..])
    ensures -1 <= charOut < 256 && (charOut == 0 ==> state != InSpace && next == InSpace)
    ensures starts <==> state == InSpace && next != InSpace
    ensures next == InSpace && charOut != 0 ==> state == InSpace && Emitted(charOut) == []
    ensures charOut == 0 ==> Args(text) == (done + [cur]) + Rest(next, [], text[inPtr + 1..])
    ensures charOut != 0 ==> Args(text) == done + Rest(next, cur + Emitted(charOut), text[inPtr + 1..])
  {
    hide Args, InArg, InQuotes, AfterBackslash;
    ghost var s := text[inPtr + 1..];
    next, charOut, starts := Step(state, c, cur, s);
    assert text[inPtr..] == [c] + s;
    assert done + ([cur] + Args(s)) == (done + [cur]) + Args(s);
  }

  /** What has been collected when the loop ends are the first arguments of the line. */
  lemma EndOfLine(text: seq<byte>, inPtr: nat, state: State, done: seq<seq<byte>>, cur: seq<byte>,
                  argc: nat, argvSize: nat)
    requires inPtr <= |text| && |done| == argc <= argvSize - 1
    requires argc < argvSize - 1 ==> inPtr == |text|
    requires Args(text) == done + Rest(state, cur, text[inPtr..])
    requires if state == InSpace then cur == [] else argc < argvSize - 1
    ensures argc + (if state != InSpace then 1 else 0) == Min(|Args(text)|, argvSize - 1)
    ensures (if state != InSpace then done + [cur] else done) == Args(text)[..Min(|Args(text)|, argvSize - 1)]
  {
  }

  lemma PointsAtPrefix(argv: seq<Option<nat>>, argv': seq<Option<nat>>, done: seq<seq<byte>>)
    requires PointsAt(argv, done) && |done| < |argv| == |argv'|
    requires forall i :: 0 <= i < |done| ==> argv'[i] == argv[i]
    ensures PointsAt(argv', done)
  {
  }

  /** `*out_ptr = char_out; ++out_ptr`. */
  method Put(line: array<byte>, outPtr: nat, charOut: byte, ghost inPtr: nat) returns (outPtr': nat)
    requires outPtr <= inPtr < line.Length
    modifies line
    ensures outPtr' == outPtr + 1
    ensures line[..outPtr'] == old(line[..outPtr]) + [charOut]
    ensures forall k :: inPtr < k < line.Length ==> line[k] == old(line[k])
  {
    line[outPtr] := charOut;
    return outPtr + 1;
  }

  /** `argv[argc++] = next_arg_start`. */
  method AddPointer(argv: array<Option<nat>>, argc: nat, nextArgStart: nat,
                    ghost done: seq<seq<byte>>, ghost arg: seq<byte>)
    requires argc == |done| < argv.Length && PointsAt(argv[..], done) && nextArgStart == |Layout(done)|
    modifies argv
    ensures PointsAt(argv[..], done + [arg])
    ensures Layout(done + [arg]) == Layout(done) + arg + [0]
    ensures forall i :: argc < i < argv.Length ==> argv[i] == old(argv[i])
  {
    PointsAtMore(argv[..], done, arg);
    LayoutMore(done, arg);
    ghost var pointers := argv[..];
    argv[argc] := Some(nextArgStart);
    assert argv[..] == pointers[argc := Some(nextArgStart)];
  }

  /** What the loop does with the result of a character: it ends the argument, or outputs a byte
      or nothing.  The output stays behind the input. */
  method Output(line: array<byte>, argv: array<Option<nat>>, charOut: int, outPtr: nat, argc: nat, nextArgStart: nat,
                ghost inPtr: nat, ghost done: seq<seq<byte>>, ghost cur: seq<byte>)
    returns (outPtr': nat, argc': nat)
    requires outPtr <= inPtr < line.Length && -1 <= charOut < 256
    requires line[..outPtr] == Layout(done) + cur && |done| == argc < argv.Length && PointsAt(argv[..], done)
    requires charOut == 0 ==> nextArgStart == |Layout(done)|
    modifies line, argv
    ensures outPtr' <= inPtr + 1 && argc' == if charOut == 0 then argc + 1 else argc
    ensures charOut == 0 ==> line[..outPtr'] == Layout(done + [cur]) && PointsAt(argv[..], done + [cur])
    ensures charOut != 0 ==> line[..outPtr'] == Layout(done) + (cur + Emitted(charOut)) && argv[..] == old(argv[..])
    ensures forall k :: inPtr < k < line.Length ==> line[k] == old(line[k])
    ensures forall i :: argc' <= i < argv.Length ==> argv[i] == old(argv[i])
  {
    hide PointsAt, Layout;
    outPtr', argc' := outPtr, argc;
    if charOut == 0 {
      AddPointer(argv, argc, nextArgStart, done, cur);
      argc' := argc + 1;
    }
    if charOut >= 0 {
      outPtr' := Put(line, outPtr, charOut, inPtr);
    }
  }

  /** The string ends at its first NUL, at n. */
  ghost predicate EndsAt(line: seq<byte>, n: nat) {
    n < |line| && line[n] == 0 && forall k :: 0 <= k < n ==> line[k] != 0
  }

  lemma AtStart(text: seq<byte>, argv: seq<Option<nat>>)
    ensures Args(text) == [] + Rest(InSpace, [], text[0..]) && Layout([]) + [] == [] && PointsAt(argv, [])
  {
    assert text[0..] == text;
  }

  /** The loop of `esp_console_split_argv`.  The complete arguments are `done`, the one being read
      is `cur`; the output never passes the input. */
  method Scan(line: array<byte>, ghost n: nat, argv: array<Option<nat>>, argvSize: nat)
    returns (argc: nat, state: State, nextArgStart: nat, outPtr: nat, inPtr: nat,
             ghost done: seq<seq<byte>>, ghost cur: seq<byte>)
    requires EndsAt(line[..], n) && 1 <= argvSize <= argv.Length
    modifies line, argv
    ensures outPtr <= inPtr <= n && (argc < argvSize - 1 ==> inPtr == n)
    ensures Args(old(line[..n])) == done + Rest(state, cur, old(line[..n])[inPtr..])
    ensures line[..outPtr] == Layout(done) + cur
    ensures |done| == argc <= argvSize - 1 && PointsAt(argv[..], done)
    ensures if state == InSpace then cur == [] else nextArgStart == |Layout(done)| && argc < argvSize - 1
    ensures forall k :: inPtr <= k < line.Length ==> line[k] == old(line[k])
    ensures forall i :: argc <= i < argv.Length ==> argv[i] == old(argv[i])
  {
    ghost var text := line[..n];
    AtStart(text, argv[..]);
    hide PointsAt, Layout, Args, InArg, InQuotes, AfterBackslash, Rest, Emitted;
    done, cur := [], [];
    state, argc, nextArgStart := InSpace, 0, 0;
    outPtr, inPtr := 0, 0;
    while argc < argvSize - 1 && line[inPtr] != 0
      invariant outPtr <= inPtr <= n
      invariant forall k :: inPtr <= k < line.Length ==> line[k] == old(line[k])
      invariant Args(text) == done + Rest(state, cur, text[inPtr..])
      invariant line[..outPtr] == Layout(done) + cur
      invariant |done| == argc <= argvSize - 1 && PointsAt(argv[..], done)
      invariant if state == InSpace then cur == [] else nextArgStart == |Layout(done)| && argc < argvSize - 1
      invariant forall i :: argc <= i < argv.Length ==> argv[i] == old(argv[i])
      decreases n - inPtr
    {
      var next, charOut, starts := Read(state, line[inPtr], text, inPtr, done, cur);
      assert outPtr == |Layout(done)| + |cur|;
      if starts {
        nextArgStart := outPtr;
      }
      outPtr, argc := Output(line, argv, charOut, outPtr, argc, nextArgStart, inPtr, done, cur);
      if charOut == 0 {
        done, cur := done + [cur], [];
      } else {
        cur := cur + Emitted(charOut);
      }
      state := next;
      inPtr := inPtr + 1;
    }
  }

  /** `esp_console_split_argv`: the arguments of the line, as many as fit, end up as consecutive
      strings at the front of the buffer. */
  method Split(line: array<byte>, ghost n: nat, argv: array<Option<nat>>, argvSize: nat) returns (argc: nat)
    requires EndsAt(line[..], n) && 1 <= argvSize <= argv.Length
    modifies line, argv
    ensures var args := Args(old(line[..n]));
            && argc == Min(|args|, argvSize - 1)
            && PointsAt(argv[..], args[..argc]) && argv[argc] == None
            && Layout(args[..argc]) <= line[..n + 1]
            && forall i :: 0 <= i < argc ==> argv[i].Some? && CString(line[..], argv[i].value) == args[i]
    ensures forall k :: n < k < line.Length ==> line[k] == old(line[k])
    ensures forall i :: argc < i < argv.Length ==> argv[i] == old(argv[i])
  {
    hide PointsAt, Layout, Args, InArg, InQuotes, AfterBackslash;
    ghost var text := line[..n];
    var state, nextArgStart, outPtr, inPtr;
    ghost var done, cur;
    argc, state, nextArgStart, outPtr, inPtr, done, cur := Scan(line, n, argv, argvSize);
    EndOfLine(text, inPtr, state, done, cur, argc, argvSize);
    outPtr := Put(line, outPtr, 0, inPtr);
    if state != InSpace && argc < argvSize - 1 {
      AddPointer(argv, argc, nextArgStart, done, cur);
      argc := argc + 1;
      done := done + [cur];
    }
    ghost var pointers := argv[..];
    argv[argc] := None;
    PointsAtPrefix(pointers, argv[..], done);
    assert line[..outPtr] <= line[..n + 1] <= line[..];
    ArgsAreNulFree(InSpace, [], text);
    PointersLeadToArgs(argv[..], Args(text)[..argc], line[..]);
  }

  // ---- What the pointers mean ----

  ghost predicate NulFree(s: seq<byte>) {
    forall k :: 0 <= k < |s| ==> s[k] != 0
  }

  /** The string that starts at p in memory. */
  function CString(mem: seq<byte>, p: nat): seq<byte>
    decreases |mem| - p
  {
    if p >= |mem| || mem[p] == 0 then [] else [mem[p]] + CString(mem, p + 1)
  }

  /** Arguments are made of characters of the line only. */
  lemma {:induction false} ArgsAreNulFree(state: State, cur: seq<byte>, s: seq<byte>)
    requires NulFree(cur) && NulFree(s)
    ensures forall arg :: arg in Rest(state, cur, s) ==> NulFree(arg)
    decreases |s|
  {
    if s != [] {
      var next, c := s[1..], s[0];
      match state
      case InSpace =>
        ArgsAreNulFree(InSpace, [], next);
        ArgsAreNulFree(QuotedArg, [], next);
        ArgsAreNulFree(ArgEscaped, [], next);
        ArgsAreNulFree(Arg, [c], next);
      case Arg =>
        ArgsAreNulFree(InSpace, [], next);
        ArgsAreNulFree(ArgEscaped, cur, next);
        ArgsAreNulFree(Arg, cur + [c], next);
      case QuotedArg =>
        ArgsAreNulFree(InSpace, [], next);
        ArgsAreNulFree(QuotedArgEscaped, cur, next);
        ArgsAreNulFree(QuotedArg, cur + [c], next);
      case ArgEscaped =>
        ArgsAreNulFree(Arg, cur + Unescaped(c), next);
      case QuotedArgEscaped =>
        ArgsAreNulFree(QuotedArg, cur + Unescaped(c), next);
    }
  }

  lemma {:induction false} CStringReads(mem: seq<byte>, p: nat, arg: seq<byte>)
    requires NulFree(arg) && p + |arg| < |mem| && mem[p..p + |arg|] == arg && mem[p + |arg|] == 0
    ensures CString(mem, p) == arg
    decreases |arg|
  {
    if arg != [] {
      assert mem[p] == mem[p..p + |arg|][0];
      assert mem[p + 1..p + |arg|] == mem[p..p + |arg|][1..];
      CStringReads(mem, p + 1, arg[1..]);
      assert arg == [arg[0]] + arg[1..];
    }
  }

  lemma {:induction false} LayoutPrefix(args: seq<seq<byte>>, i: nat)
    requires i < |args|
    ensures Layout(args[..i]) + args[i] + [0] <= Layout(args)
    decreases |args|
  {
    var front := args[..|args| - 1];
    if i < |args| - 1 {
      LayoutPrefix(front, i);
      assert front[..i] == args[..i];
    }
  }

  /** Every pointer leads to its argument. */
  lemma PointersLeadToArgs(argv: seq<Option<nat>>, args: seq<seq<byte>>, mem: seq<byte>)
    requires PointsAt(argv, args) && Layout(args) <= mem
    requires forall arg :: arg in args ==> NulFree(arg)
    ensures forall i :: 0 <= i < |args| ==> argv[i].Some? && CString(mem, argv[i].value) == args[i]
  {
    forall i | 0 <= i < |args| ensures argv[i].Some? && CString(mem, argv[i].value) == args[i] {
      var before := Layout(args[..i]);
      LayoutPrefix(args, i);
      var upTo := before + args[i] + [0];
      assert upTo <= mem;
      assert upTo[|before|..|before| + |args[i]|] == args[i];
      assert mem[|before|..|before| + |args[i]|] == upTo[|before|..|before| + |args[i]|];
      assert args[i] in args;
      CStringReads(mem, |before|, args[i]);
    }
  }

  // ---- Quoting and splitting ----

  /** w spells arg as the documentation allows: a backslash before a space, quote or backslash;
      any other character as itself; within quotes, a space as itself too. */
  ghost predicate Spells(w: seq<byte>, arg: seq<byte>, quoted: bool) {
    if w == [] then arg == []
    else if w[0] == ESCAPE then
      |w| >= 2 && Escapable(w[1]) && arg != [] && arg[0] == w[1] && Spells(w[2..], arg[1..], quoted)
    else
      w[0] != QUOTE && (quoted || w[0] != SPACE) && arg != [] && arg[0] == w[0] && Spells(w[1..], arg[1..], quoted)
  }

  lemma {:induction false} UnquotedReads(cur: seq<byte>, w: seq<byte>, arg: seq<byte>, rest: seq<byte>)
    requires Spells(w, arg, false)
    ensures InArg(cur, w + rest) == InArg(cur + arg, rest)
    decreases |w|
  {
    if w == [] {
      assert w + rest == rest && cur + arg == cur;
    } else if w[0] == ESCAPE {
      assert (w + rest)[1..][1..] == w[2..] + rest;
      UnquotedReads(cur + [w[1]], w[2..], arg[1..], rest);
      assert cur + [w[1]] + arg[1..] == cur + arg;
    } else {
      assert (w + rest)[1..] == w[1..] + rest;
      UnquotedReads(cur + [w[0]], w[1..], arg[1..], rest);
      assert cur + [w[0]] + arg[1..] == cur + arg;
    }
  }

  lemma {:induction false} QuotedReads(cur: seq<byte>, w: seq<byte>, arg: seq<byte>, rest: seq<byte>)
    requires Spells(w, arg, true)
    ensures InQuotes(cur, w + rest) == InQuotes(cur + arg, rest)
    decreases |w|
  {
    if w == [] {
      assert w + rest == rest && cur + arg == cur;
    } else if w[0] == ESCAPE {
      assert (w + rest)[1..][1..] == w[2..] + rest;
      QuotedReads(cur + [w[1]], w[2..], arg[1..], rest);
      assert cur + [w[1]] + arg[1..] == cur + arg;
    } else {
      assert (w + rest)[1..] == w[1..] + rest;
      QuotedReads(cur + [w[0]], w[1..], arg[1..], rest);
      assert cur + [w[0]] + arg[1..] == cur + arg;
    }
  }

  function Spaces(n: nat): seq<byte> {
    seq(n, _ => SPACE)
  }

  lemma {:induction false} SpacesAreSkipped(n: nat, rest: seq<byte>)
    ensures Args(Spaces(n) + rest) == Args(rest)
    decreases n
  {
    if n == 0 {
      assert Spaces(n) + rest == rest;
    } else {
      assert (Spaces(n) + rest)[1..] == Spaces(n - 1) + rest;
      SpacesAreSkipped(n - 1, rest);
    }
  }

  /** One argument on a command line, with the spaces in front of it. */
  datatype Word = Word(gap: nat, quoted: bool, spelling: seq<byte>, arg: seq<byte>)

  ghost predicate IsSpelledOut(words: seq<Word>) {
    forall i :: 0 <= i < |words| ==>
      && Spells(words[i].spelling, words[i].arg, words[i].quoted)
      && (words[i].quoted || words[i].spelling != [])
      && (i > 0 && !words[i - 1].quoted ==> words[i].gap > 0)
  }

  function Written(w: Word): seq<byte> {
    if w.quoted then [QUOTE] + w.spelling + [QUOTE] else w.spelling
  }

  function CommandLine(words: seq<Word>, trailing: nat): seq<byte> {
    if words == [] then Spaces(trailing)
    else Spaces(words[0].gap) + Written(words[0]) + CommandLine(words[1..], trailing)
  }

  function Meant(words: seq<Word>): seq<seq<byte>> {
    if words == [] then [] else [words[0].arg] + Meant(words[1..])
  }

  /** A quoted argument, read from between two arguments. */
  lemma QuotedWord(w: seq<byte>, arg: seq<byte>, rest: seq<byte>)
    requires Spells(w, arg, true)
    ensures Args([QUOTE] + w + [QUOTE] + rest) == [arg] + Args(rest)
  {
    var line := [QUOTE] + w + [QUOTE] + rest;
    assert line[1..] == w + ([QUOTE] + rest);
    QuotedReads([], w, arg, [QUOTE] + rest);
    assert [] + arg == arg && ([QUOTE] + rest)[1..] == rest;
  }

  /** An unquoted argument, followed by a space or by nothing. */
  lemma UnquotedWord(w: seq<byte>, arg: seq<byte>, rest: seq<byte>)
    requires Spells(w, arg, false) && w != [] && (rest == [] || rest[0] == SPACE)
    ensures Args(w + rest) == [arg] + Args(rest)
  {
    var line := w + rest;
    if w[0] == ESCAPE {
      assert line[1..][1..] == w[2..] + rest;
      assert [] + [w[1]] == [w[1]];
      UnquotedReads([w[1]], w[2..], arg[1..], rest);
      assert [w[1]] + arg[1..] == arg;
    } else {
      assert line[1..] == w[1..] + rest;
      UnquotedReads([w[0]], w[1..], arg[1..], rest);
      assert [w[0]] + arg[1..] == arg;
    }
  }

  /** Writing any arguments in any of the documented ways and splitting gives the arguments back. */
  lemma {:induction false} SplitUndoesQuoting(words: seq<Word>, trailing: nat)
    requires IsSpelledOut(words)
    ensures Args(CommandLine(words, trailing)) == Meant(words)
    decreases |words|
  {
    if words == [] {
      SpacesAreSkipped(trailing, []);
      assert Spaces(trailing) + [] == Spaces(trailing);
    } else {
      var w, rest := words[0], CommandLine(words[1..], trailing);
      SplitUndoesQuoting(words[1..], trailing);
      SpacesAreSkipped(w.gap, Written(w) + rest);
      assert Spaces(w.gap) + Written(w) + rest == Spaces(w.gap) + (Written(w) + rest);
      if w.quoted {
        QuotedWord(w.spelling, w.arg, rest);
      } else {
        assert |words| > 1 ==> words[1..][0] == words[1];
        UnquotedWord(w.spelling, w.arg, rest);
      }
    }
  }

  /** A way to quote any argument: a backslash before each quote and backslash, all in quotes. */
  function Quoted(arg: seq<byte>): seq<byte> {
    if arg == [] then []
    else (if arg[0] == QUOTE || arg[0] == ESCAPE then [ESCAPE, arg[0]] else [arg[0]]) + Quoted(arg[1..])
  }

  lemma {:induction false} QuotedSpells(arg: seq<byte>)
    ensures Spells(Quoted(arg), arg, true)
    decreases |arg|
  {
    if arg != [] {
      QuotedSpells(arg[1..]);
      var head := if arg[0] == QUOTE || arg[0] == ESCAPE then [ESCAPE, arg[0]] else [arg[0]];
      assert Quoted(arg)[|head|..] == Quoted(arg[1..]);
    }
  }

  /** So every list of arguments has a command line. */
  lemma EveryListCanBeQuoted(args: seq<seq<byte>>)
    ensures var words := seq(|args|, i requires 0 <= i < |args| => Word(1, true, Quoted(args[i]), args[i]));
            IsSpelledOut(words) && Meant(words) == args && Args(CommandLine(words, 0)) == args
  {
    var words := seq(|args|, i requires 0 <= i < |args| => Word(1, true, Quoted(args[i]), args[i]));
    forall i | 0 <= i < |args| ensures Spells(Quoted(args[i]), args[i], true) {
      QuotedSpells(args[i]);
    }
    MeantIsArgs(words, args);
    SplitUndoesQuoting(words, 0);
  }

  lemma {:induction false} MeantIsArgs(words: seq<Word>, args: seq<seq<byte>>)
    requires |words| == |args| && forall i :: 0 <= i < |args| ==> words[i].arg == args[i]
    ensures Meant(words) == args
    decreases |args|
  {
    if args != [] {
      MeantIsArgs(words[1..], args[1..]);
    }
  }

  lemma {:induction false} SpellingIsNulFree(w: seq<byte>, arg: seq<byte>, quoted: bool)
    requires Spells(w, arg, quoted) && NulFree(arg)
    ensures NulFree(w)
    decreases |w|
  {
    if w != [] {
      var n := if w[0] == ESCAPE then 2 else 1;
      SpellingIsNulFree(w[n..], arg[1..], quoted);
      assert w == w[..n] + w[n..];
    }
  }

  lemma SpacesAreNulFree(n: nat)
    ensures NulFree(Spaces(n))
  {
  }

  lemma QuoteIsNulFree(w: seq<byte>)
    requires NulFree(w)
    ensures NulFree([QUOTE] + w + [QUOTE])
  {
  }

  lemma NulFreeConcat(a: seq<byte>, b: seq<byte>)
    requires NulFree(a) && NulFree(b)
    ensures NulFree(a + b)
  {
  }

  /** The line in memory does not end early. */
  lemma {:induction false} CommandLineIsNulFree(words: seq<Word>, trailing: nat)
    requires IsSpelledOut(words) && forall w :: w in words ==> NulFree(w.arg)
    ensures NulFree(CommandLine(words, trailing))
    decreases |words|
  {
    hide NulFree;
    if words == [] {
      SpacesAreNulFree(trailing);
    } else {
      SpacesAreNulFree(words[0].gap);
      SpellingIsNulFree(words[0].spelling, words[0].arg, words[0].quoted);
      QuoteIsNulFree(words[0].spelling);
      CommandLineIsNulFree(words[1..], trailing);
      NulFreeConcat(Spaces(words[0].gap), Written(words[0]));
      NulFreeConcat(Spaces(words[0].gap) + Written(words[0]), CommandLine(words[1..], trailing));
    }
  }

  lemma {:induction false} MeantByIndex(words: seq<Word>)
    ensures |Meant(words)| == |words| && forall i :: 0 <= i < |words| ==> Meant(words)[i] == words[i].arg
    decreases |words|
  {
    if words != [] {
      MeantByIndex(words[1..]);
    }
  }

  /** A buffer that holds a command line splits in place into the arguments that were written, all
      of them if they fit. */
  method SplitCommandLine(line: array<byte>, argv: array<Option<nat>>, argvSize: nat,
                          ghost words: seq<Word>, ghost trailing: nat)
    returns (argc: nat)
    requires IsSpelledOut(words) && forall w :: w in words ==> NulFree(w.arg)
    requires CommandLine(words, trailing) + [0] <= line[..] && 1 <= argvSize <= argv.Length
    modifies line, argv
    ensures argc == Min(|words|, argvSize - 1) && argv[argc] == None
    ensures forall i :: 0 <= i < argc ==> argv[i].Some? && CString(line[..], argv[i].value) == words[i].arg
  {
    hide CommandLine, Meant, Args, CString, IsSpelledOut, Layout, PointsAt;
    ghost var text := CommandLine(words, trailing);
    CommandLineIsNulFree(words, trailing);
    assert line[..|text|] == text;
    assert forall k :: 0 <= k < |text| ==> line[k] == text[k];
    assert line[|text|] == (text + [0])[|text|];
    SplitUndoesQuoting(words, trailing);
    MeantByIndex(words);
    argc := Split(line, |text|, argv, argvSize);
  }
}
