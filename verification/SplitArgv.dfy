/** Splitting a console line into arguments, in place. */
module SplitArgv {
  import opened Basics

  const NUL: char := '\0'

  /** Characters that an escape may stand before. */
  predicate Special(c: char) { c == '\\' || c == '"' || c == ' ' }

  /** The rest of one argument and what follows it; `escaped` says an escape was just read. */
  function Argument(quoted: bool, escaped: bool, s: string): (r: (string, string))
    ensures |r.1| <= |s|
    decreases |s|
  {
    if s == "" then ("", "")
    else if escaped then
      var (a, rest) := Argument(quoted, false, s[1..]);
      (if Special(s[0]) then [s[0]] + a else a, rest)
    else if s[0] == (if quoted then '"' else ' ') then ("", s[1..])
    else if s[0] == '\\' then Argument(quoted, true, s[1..])
    else
      var (a, rest) := Argument(quoted, false, s[1..]);
      ([s[0]] + a, rest)
  }

  /** The arguments of a line. */
  function Tokens(s: string): (args: seq<string>)
    decreases |s|
  {
    if s == "" then []
    else if s[0] == ' ' then Tokens(s[1..])
    else
      var (a, rest) := if s[0] == '"' then Argument(true, false, s[1..]) else Argument(false, false, s);
      assert s[0] != '"' ==> |rest| < |s| by { ArgumentShrinks(s); }
      [a] + Tokens(rest)
  }

  lemma ArgumentShrinks(s: string)
    requires s != "" && s[0] != ' '
    ensures |Argument(false, false, s).1| < |s|
  {
  }

  datatype Mode = Space | Arg(quoted: bool, escaped: bool)

  /** All arguments, given those finished, the current one so far and the rest of the line. */
  function Pending(mode: Mode, cur: string, rest: string): (args: seq<string>) {
    match mode
    case Space => Tokens(rest)
    case Arg(quoted, escaped) =>
      var (a, more) := Argument(quoted, escaped, rest);
      [cur + a] + Tokens(more)
  }

  /** How the arguments lie in the buffer: one after the other, each closed by NUL. */
  function Layout(args: seq<string>): (s: string) {
    if args == [] then [] else Layout(args[..|args| - 1]) + args[|args| - 1] + [NUL]
  }

  /** The C string that starts at an offset. */
  function CString(a: string, at: nat): (s: string)
    decreases |a| - at
  {
    if at >= |a| || a[at] == NUL then "" else [a[at]] + CString(a, at + 1)
  }

  /** What reading one character does: next mode, character to store (NUL ends the argument) and the argument so far. */
  function Step(mode: Mode, c: char): (r: (Mode, Option<char>))
    ensures r.0.Space? ==> r.1 == if mode.Arg? then Some(NUL) else None
  {
    match mode
    case Space =>
      if c == ' ' then (Space, None)
      else if c == '"' then (Arg(true, false), None)
      else if c == '\\' then (Arg(false, true), None)
      else (Arg(false, false), Some(c))
    case Arg(quoted, escaped) =>
      if escaped then (Arg(quoted, false), if Special(c) then Some(c) else None)
      else if c == (if quoted then '"' else ' ') then (Space, Some(NUL))
      else if c == '\\' then (Arg(quoted, true), None)
      else (mode, Some(c))
  }

  lemma TokensStep(s: string)
    requires s != ""
    ensures s[0] == ' ' ==> Tokens(s) == Tokens(s[1..])
    ensures s[0] == '"' ==>
      var r := Argument(true, false, s[1..]); Tokens(s) == [r.0] + Tokens(r.1)
    ensures s[0] != ' ' && s[0] != '"' ==>
      var r := Argument(false, false, s); Tokens(s) == [r.0] + Tokens(r.1)
  {
  }

  /** Reading one character agrees with the tokenizer. */
  lemma StepPending(mode: Mode, cur: string, rest: string)
    requires rest != "" && (mode.Space? ==> cur == "")
    ensures var (mode', out) := Step(mode, rest[0]);
      Pending(mode, cur, rest) ==
        if mode.Arg? && mode'.Space? then [cur] + Pending(Space, "", rest[1..])
        else Pending(mode', if out.Some? then cur + [out.value] else cur, rest[1..])
  {
    hide Tokens, Special;
    var (mode', out) := Step(mode, rest[0]);
    match mode
    case Space =>
      TokensStep(rest);
      if mode'.Arg? {
        var (a, more) := Argument(mode'.quoted, mode'.escaped, rest[1..]);
        assert "" + a == a && "" + [rest[0]] + a == [rest[0]] + a;
      }
    case Arg(quoted, escaped) =>
      var (a, more) := Argument(quoted, false, rest[1..]);
      assert cur + "" == cur && cur + ([rest[0]] + a) == cur + [rest[0]] + a;
  }

  /** Where reading stands: arguments finished, mode, and the current argument so far. */
  datatype Reading = Reading(done: seq<string>, mode: Mode, cur: string) {
    function Fed(c: char): (r: Reading) {
      var (mode', out) := Step(mode, c);
      if mode.Arg? && mode'.Space? then Reading(done + [cur], Space, "")
      else Reading(done, mode', if out.Some? then cur + [out.value] else cur)
    }

    function FedAll(p: string): (r: Reading)
      decreases |p|
    {
      if p == "" then this else Fed(p[0]).FedAll(p[1..])
    }

    /** All arguments, given what is left of the line. */
    function Yields(rest: string): (args: seq<string>) { done + Pending(mode, cur, rest) }
  }

  const START := Reading([], Space, "")

  lemma FedOnce(r: Reading, s: string)
    requires s != "" && (r.mode.Space? ==> r.cur == "")
    ensures r.Yields(s) == r.Fed(s[0]).Yields(s[1..]) && (r.Fed(s[0]).mode.Space? ==> r.Fed(s[0]).cur == "")
  {
    StepPending(r.mode, r.cur, s);
    hide Pending;
    var next := Pending(Space, "", s[1..]);
    assert r.done + ([r.cur] + next) == r.done + [r.cur] + next;
  }

  lemma {:induction false} FedYields(r: Reading, p: string, rest: string)
    requires r.mode.Space? ==> r.cur == ""
    ensures r.Yields(p + rest) == r.FedAll(p).Yields(rest)
    decreases |p|
  {
    hide Reading.Yields, Reading.Fed;
    if p == "" {
      assert p + rest == rest;
    } else {
      FedOnce(r, p + rest);
      FedYields(r.Fed(p[0]), p[1..], rest);
      assert (p + rest)[1..] == p[1..] + rest;
    }
  }

  lemma TwoFed(r: Reading, a: char, b: char)
    ensures r.FedAll([a, b]) == r.Fed(a).Fed(b)
  {
    assert [a, b][1..] == [b] && [b][1..] == "";
    assert r.Fed(a).FedAll([b]) == r.Fed(a).Fed(b).FedAll("");
  }

  /** An escape inside an argument: before a backslash, a quote or a space it makes that character part of the argument;
      before any other character it vanishes together with it. */
  lemma EscapeExactly(p: string, c: char, rest: string)
    requires START.FedAll(p).mode.Arg? && !START.FedAll(p).mode.escaped
    ensures c != '\\' && c != '"' && c != ' ' ==> Tokens(p + ['\\', c] + rest) == Tokens(p + rest)
    ensures c == '\\' || c == '"' || c == ' ' ==>
      var r := START.FedAll(p); Tokens(p + ['\\', c] + rest) == r.(cur := r.cur + [c]).Yields(rest)
  {
    hide Tokens, Reading.Yields, Reading.FedAll, Reading.Fed;
    var r, t := START.FedAll(p), ['\\', c] + rest;
    assert p + ['\\', c] + rest == p + t;
    FedYields(START, p, t);
    FedYields(START, p, rest);
    FedYields(r, ['\\', c], rest);
    TwoFed(r, '\\', c);
    EscapeFed(r, c);
    StartYields(p + t);
    StartYields(p + rest);
  }

  lemma EscapeFed(r: Reading, c: char)
    requires r.mode.Arg? && !r.mode.escaped
    ensures r.Fed('\\').Fed(c) == if Special(c) then r.(cur := r.cur + [c]) else r
  {
  }

  lemma StartYields(s: string)
    ensures START.Yields(s) == Tokens(s)
  {
    hide Tokens;
    assert [] + Tokens(s) == Tokens(s);
  }

  /** Text without escapes is read as it is up to the character that ends the argument. */
  lemma {:induction false} ReadVerbatim(quoted: bool, w: string, rest: string)
    requires '\\' !in w && (if quoted then '"' else ' ') !in w
    ensures Argument(quoted, false, w + [if quoted then '"' else ' '] + rest) == (w, rest)
    ensures Argument(quoted, false, w) == (w, "")
    decreases |w|
  {
    var end := if quoted then '"' else ' ';
    if w == "" {
      assert (w + [end] + rest)[1..] == rest;
    } else {
      assert (w + [end] + rest)[1..] == w[1..] + [end] + rest && [w[0]] + w[1..] == w;
      ReadVerbatim(quoted, w[1..], rest);
    }
  }

  /** Text in quotes is one argument, also with spaces in it; the closing quote ends it, whatever follows. Bare text is
      one argument up to the next space or the end of the line, also with quotes in it. */
  lemma VerbatimExactly(w: string, rest: string)
    requires '\\' !in w
    ensures '"' !in w ==> Tokens(['"'] + w + ['"'] + rest) == [w] + Tokens(rest) && Tokens(['"'] + w) == [w]
    ensures w != "" && ' ' !in w && w[0] != '"' ==>
      Tokens(w + [' '] + rest) == [w] + Tokens(rest) && Tokens(w) == [w]
  {
    assert Tokens("") == [];
    if '"' !in w {
      ReadVerbatim(true, w, rest);
      TokensStep(['"'] + w + ['"'] + rest);
      TokensStep(['"'] + w);
      assert (['"'] + w + ['"'] + rest)[1..] == w + ['"'] + rest && (['"'] + w)[1..] == w;
    }
    if w != "" && ' ' !in w && w[0] != '"' {
      ReadVerbatim(false, w, rest);
      TokensStep(w + [' '] + rest);
      TokensStep(w);
    }
  }

  /** An entry points to a NUL-terminated copy of the argument. */
  ghost predicate Reads(a: string, entry: Option<nat>, w: string) {
    entry.Some? && entry.value + |w| < |a| && a[entry.value + |w|] == NUL && CString(a, entry.value) == w
  }

  /** The k-th argument lies at the end of the layout of those before it. */
  lemma {:induction false} LayoutAt(args: seq<string>, k: nat)
    requires k < |args|
    ensures var at := |Layout(args[..k])|;
      at + |args[k]| < |Layout(args)| && Layout(args)[at..at + |args[k]| + 1] == args[k] + [NUL]
    decreases |args|
  {
    var last := |args| - 1;
    if k < last {
      LayoutAt(args[..last], k);
      assert args[..last][..k] == args[..k];
    }
  }

  /** Reading a C string stops at its NUL. */
  lemma {:induction false} CStringAt(a: string, at: nat, w: string)
    requires at + |w| < |a| && a[at..at + |w| + 1] == w + [NUL] && NUL !in w
    ensures CString(a, at) == w
    decreases |w|
  {
    assert a[at] == (w + [NUL])[0];
    if w != "" {
      assert a[at + 1..at + 1 + |w[1..]| + 1] == (w + [NUL])[1..] == w[1..] + [NUL];
      CStringAt(a, at + 1, w[1..]);
    }
  }

  /** Arguments laid out at the start of a buffer read back as they are. */
  lemma LayoutReadsBack(a: string, args: seq<string>, k: nat)
    requires Layout(args) <= a && k < |args| && NUL !in args[k]
    ensures var at := |Layout(args[..k])|;
      at + |args[k]| < |a| && a[at + |args[k]|] == NUL && CString(a, at) == args[k]
  {
    LayoutAt(args, k);
    var at, w := |Layout(args[..k])|, args[k];
    var l := Layout(args);
    assert a[at..at + |w| + 1] == l[at..at + |w| + 1] == w + [NUL];
    assert (w + [NUL])[|w|] == NUL;
    CStringAt(a, at, w);
  }

  lemma {:induction false} ArgumentNulFree(quoted: bool, escaped: bool, s: string)
    requires NUL !in s
    ensures NUL !in Argument(quoted, escaped, s).0 && NUL !in Argument(quoted, escaped, s).1
    decreases |s|
  {
    if s != "" {
      ArgumentNulFree(quoted, false, s[1..]);
      ArgumentNulFree(quoted, true, s[1..]);
    }
  }

  lemma {:induction false} TokensNulFree(s: string, k: nat)
    requires NUL !in s && k < |Tokens(s)|
    ensures NUL !in Tokens(s)[k]
    decreases |s|
  {
    if s[0] == ' ' {
      TokensNulFree(s[1..], k);
    } else {
      ArgumentNulFree(true, false, s[1..]);
      ArgumentNulFree(false, false, s);
      ArgumentShrinks(s);
      var (a, rest) := if s[0] == '"' then Argument(true, false, s[1..]) else Argument(false, false, s);
      if k > 0 {
        TokensNulFree(rest, k - 1);
      }
    }
  }

  /** State of the scan: `done` is laid out before `out`, followed by the current argument. */
  ghost predicate Scanned(line: array<char>, argv: array<Option<nat>>, argc: nat, mode: Mode, start: nat, out: nat,
                          done: seq<string>, cur: string)
    reads line, argv
    ensures Scanned(line, argv, argc, mode, start, out, done, cur) ==> argc == |done| < argv.Length && out < line.Length
  {
    && argc == |done| < argv.Length && out < line.Length
    && line[..out] == Layout(done) + cur && (mode.Space? ==> cur == "") && (mode.Arg? ==> start == |Layout(done)|)
    && Offsets(argv[..], done)
  }

  /** The first entries point to the arguments laid out. */
  ghost predicate Offsets(v: seq<Option<nat>>, done: seq<string>) {
    |done| <= |v| && forall k :: 0 <= k < |done| ==> v[k] == Some(|Layout(done[..k])|)
  }

  lemma OffsetsOneMore(v: seq<Option<nat>>, v': seq<Option<nat>>, done: seq<string>, cur: string)
    requires Offsets(v, done) && |done| < |v| == |v'| && v'[|done|] == Some(|Layout(done)|)
    requires forall k :: 0 <= k < |done| ==> v'[k] == v[k]
    ensures Offsets(v', done + [cur])
  {
    hide Layout;
    assert forall k :: 0 <= k <= |done| ==> (done + [cur])[..k] == done[..k];
    assert done[..|done|] == done;
  }

  /** Store one character of the current argument. */
  method Emit(line: array<char>, ghost argv: array<Option<nat>>, ghost argc: nat, ghost mode: Mode, ghost start: nat,
              out: nat, c: char, ghost done: seq<string>, ghost cur: string)
    requires Scanned(line, argv, argc, mode, start, out, done, cur) && mode.Arg? && out + 1 < line.Length
    modifies line
    ensures Scanned(line, argv, argc, mode, start, out + 1, done, cur + [c])
    ensures forall j :: out < j < line.Length ==> line[j] == old(line[j])
  {
    hide Layout;
    line[out] := c;
    assert line[..out + 1] == old(line[..out]) + [c];
  }

  /** Close the current argument and record where it starts. */
  method EndArgument(line: array<char>, argv: array<Option<nat>>, argc: nat, ghost mode: Mode, start: nat, out: nat,
                     ghost done: seq<string>, ghost cur: string)
    requires Scanned(line, argv, argc, mode, start, out, done, cur) && mode.Arg? && argc + 1 < argv.Length
    modifies line, argv
    ensures line[..out + 1] == Layout(done + [cur]) && line[out] == NUL && Offsets(argv[..], done + [cur])
    ensures forall j :: out < j < line.Length ==> line[j] == old(line[j])
  {
    assert (done + [cur])[..|done|] == done;
    assert Layout(done + [cur]) == Layout(done) + cur + [NUL];
    hide Layout;
    argv[argc] := Some(start);
    OffsetsOneMore(old(argv[..]), argv[..], done, cur);
    line[out] := NUL;
    assert line[..out + 1] == old(line[..out]) + [NUL];
  }

  /** Process one character of the line. */
  method ScanChar(line: array<char>, argv: array<Option<nat>>, argc: nat, mode: Mode, start: nat, out: nat, c: char,
                  ghost done: seq<string>, ghost cur: string, ghost rest: string)
    returns (argc': nat, mode': Mode, start': nat, out': nat, ghost done': seq<string>, ghost cur': string)
    requires Scanned(line, argv, argc, mode, start, out, done, cur) && argc + 1 < argv.Length && out + 1 < line.Length
    requires rest != "" && rest[0] == c
    modifies line, argv
    ensures Scanned(line, argv, argc', mode', start', out', done', cur') && out <= out' <= out + 1
    ensures done' + Pending(mode', cur', rest[1..]) == done + Pending(mode, cur, rest)
    ensures forall j :: out < j < line.Length ==> line[j] == old(line[j])
  {
    StepPending(mode, cur, rest);
    hide Layout, Tokens, Argument, Pending, Special, Offsets, Step;
    argc', start', out', done', cur' := argc, start, out, done, cur;
    var charOut;
    var step := Step(mode, c);
    mode', charOut := step.0, step.1;
    if mode.Space? && mode'.Arg? {
      start' := out;
    }
    if mode.Arg? && mode'.Space? {
      EndArgument(line, argv, argc, mode, start, out, done, cur);
      argc', out' := argc + 1, out + 1;
      done', cur' := done + [cur], "";
    } else if charOut.Some? {
      Emit(line, argv, argc, mode', start', out, charOut.value, done, cur);
      out', cur' := out + 1, cur + [charOut.value];
    }
  }

  /** The scanning loop; no character is overwritten before it is read. */
  method Scan(line: array<char>, argv: array<Option<nat>>, ghost s: string)
    returns (argc: nat, mode: Mode, start: nat, out: nat, ghost done: seq<string>, ghost cur: string)
    requires argv.Length >= 1 && |s| < line.Length && line[..|s|] == s && NUL !in s && line[|s|] == NUL
    modifies line, argv
    ensures Scanned(line, argv, argc, mode, start, out, done, cur) && out <= |s|
    ensures forall j :: |s| <= j < line.Length ==> line[j] == old(line[j])
    ensures Tokens(s) == done + Pending(mode, cur, "") || (argc == argv.Length - 1 && done <= Tokens(s))
  {
    mode := Space;
    argc, start, out := 0, 0, 0;
    done, cur := [], "";
    var i := 0;
    assert Scanned(line, argv, argc, mode, start, out, done, cur);
    assert s[0..] == s && Pending(mode, cur, s) == Tokens(s);
    hide Layout, Tokens, Argument, Pending, Special, Offsets, Scanned;
    while argc < argv.Length - 1 && line[i] != NUL
      invariant Scanned(line, argv, argc, mode, start, out, done, cur) && out <= i <= |s|
      invariant forall j :: i <= j < line.Length ==> line[j] == old(line[j])
      invariant Tokens(s) == done + Pending(mode, cur, s[i..])
      decreases |s| - i
    {
      assert i < |s| && line[i] == s[i] && s[i..][1..] == s[i + 1..];
      argc, mode, start, out, done, cur := ScanChar(line, argv, argc, mode, start, out, line[i], done, cur, s[i..]);
      i := i + 1;
    }
    assert argc < argv.Length - 1 ==> s[i..] == "";
  }

  /** The arguments found are the first ones of the line, as many as fit before the closing NULL; each reads back from
      the buffer as a C string, and nothing behind the end of the line is touched. */
  method Split(line: array<char>, argv: array<Option<nat>>, ghost s: string) returns (argc: nat)
    requires argv.Length >= 1 && |s| < line.Length && line[..|s|] == s && NUL !in s && line[|s|] == NUL
    modifies line, argv
    ensures argc == Min(|Tokens(s)|, argv.Length - 1) && argv[argc] == None
    ensures forall k :: 0 <= k < argc ==> Reads(line[..], argv[..][k], Tokens(s)[k])
    ensures forall j :: |s| <= j < line.Length ==> line[j] == old(line[j])
  {
    hide *;
    var mode, start, out;
    ghost var done, cur;
    argc, mode, start, out, done, cur := Scan(line, argv, s);
    ghost var found;
    argc, found := Finish(line, argv, argc, mode, start, out, done, cur, s);
    AllRead(line[..], found, argv[..], s);
  }

  /** Terminate the last argument, record it if there is room, and close the table with NULL. */
  method Finish(line: array<char>, argv: array<Option<nat>>, argc: nat, mode: Mode, start: nat, out: nat,
                ghost done: seq<string>, ghost cur: string, ghost s: string)
    returns (argc': nat, ghost found: seq<string>)
    requires Scanned(line, argv, argc, mode, start, out, done, cur)
    requires Tokens(s) == done + Pending(mode, cur, "") || (argc == argv.Length - 1 && done <= Tokens(s))
    modifies line, argv
    ensures argc' == |found| == Min(|Tokens(s)|, argv.Length - 1) && found <= Tokens(s)
    ensures argv[argc'] == None && Offsets(argv[..], found) && Layout(found) <= line[..]
    ensures line[out] == NUL && forall j :: out < j < line.Length ==> line[j] == old(line[j])
  {
    assert Pending(mode, cur, "") == if mode.Space? then [] else [cur] by {
      assert cur + "" == cur;
    }
    hide Pending, Layout, Tokens, Offsets;
    argc', found := argc, done;
    if mode.Arg? && argc < argv.Length - 1 {
      EndArgument(line, argv, argc, mode, start, out, done, cur);
      argc', found := argc + 1, done + [cur];
    } else {
      line[out] := NUL;
    }
    ghost var v := argv[..];
    argv[argc'] := None;
    LastEntryFree(v, argv[..], found);
  }

  lemma AllRead(a: string, done: seq<string>, v: seq<Option<nat>>, s: string)
    requires NUL !in s && done <= Tokens(s) && Layout(done) <= a && Offsets(v, done)
    ensures forall k :: 0 <= k < |done| ==> Reads(a, v[k], Tokens(s)[k])
  {
    hide Layout, Tokens, Reads;
    forall k | 0 <= k < |done|
      ensures Reads(a, v[k], Tokens(s)[k])
    {
      TokensNulFree(s, k);
      assert done[k] == Tokens(s)[k];
      ReadsBack(a, done, v[k], k);
    }
  }

  lemma LastEntryFree(v: seq<Option<nat>>, v': seq<Option<nat>>, done: seq<string>)
    requires Offsets(v, done) && |v| == |v'| && forall k :: 0 <= k < |done| ==> v'[k] == v[k]
    ensures Offsets(v', done)
  {
  }

  lemma ReadsBack(a: string, done: seq<string>, entry: Option<nat>, k: nat)
    requires k < |done| && NUL !in done[k] && Layout(done) <= a && entry == Some(|Layout(done[..k])|)
    ensures Reads(a, entry, done[k])
  {
    LayoutReadsBack(a, done, k);
    hide *;
  }

  /** Put an escape before every character that would otherwise not stand for itself. */
  function Escape(quoted: bool, a: string): (s: string) {
    if a == "" then ""
    else
      var escaped := a[0] == '\\' || a[0] == '"' || (a[0] == ' ' && !quoted);
      (if escaped then ['\\', a[0]] else [a[0]]) + Escape(quoted, a[1..])
  }

  /** An argument to print, in quotes or bare; only a non-empty one can be bare. */
  datatype Printed = Printed(arg: string, quoted: bool) {
    predicate Valid() { quoted || arg != "" }

    function Text(): (s: string) { if quoted then ['"'] + Escape(true, arg) + ['"'] else Escape(false, arg) }
  }

  function Line(args: seq<Printed>): (s: string) {
    if args == [] then "" else if |args| == 1 then args[0].Text() else args[0].Text() + [' '] + Line(args[1..])
  }

  function Args(args: seq<Printed>): (r: seq<string>) {
    if args == [] then [] else [args[0].arg] + Args(args[1..])
  }

  /** Reading an escaped argument gives it back, up to its closing character or the end of the line. */
  lemma {:induction false} ArgumentReadsEscape(quoted: bool, a: string, tail: string)
    ensures Argument(quoted, false, Escape(quoted, a) + [if quoted then '"' else ' '] + tail) == (a, tail)
    ensures Argument(quoted, false, Escape(quoted, a)) == (a, "")
    decreases |a|
  {
    var close := [if quoted then '"' else ' '];
    var e := Escape(quoted, a);
    assert a != "" ==> [a[0]] + a[1..] == a;
    if a == "" {
      assert (e + close + tail)[1..] == tail;
    } else {
      ArgumentReadsEscape(quoted, a[1..], tail);
      var f := Escape(quoted, a[1..]);
      if |e| == |f| + 2 {
        var w := e + close + tail;
        assert w[1..][1..] == f + close + tail && e[1..][1..] == f && w[1..][0] == a[0];
        assert Argument(quoted, false, w) == Argument(quoted, true, w[1..]) == ([a[0]] + a[1..], tail);
      } else {
        assert (e + close + tail)[1..] == f + close + tail && e[1..] == f;
      }
    }
  }

  /** Splitting a printed argument list gives back the list. */
  lemma {:induction false} SplitReadsLine(args: seq<Printed>)
    requires forall i :: 0 <= i < |args| ==> args[i].Valid()
    ensures Tokens(Line(args)) == Args(args)
    decreases |args|
  {
    if args != [] {
      var p, rest := args[0], args[1..];
      SplitReadsLine(rest);
      TokensOfText(p, Line(rest));
      if |args| == 1 {
        assert Line(rest) == "";
      } else {
        assert Line(args) == p.Text() + [' '] + Line(rest);
      }
    }
  }

  lemma {:induction false} EscapeNulFree(quoted: bool, a: string)
    requires NUL !in a
    ensures NUL !in Escape(quoted, a)
    decreases |a|
  {
    if a != "" {
      EscapeNulFree(quoted, a[1..]);
    }
  }

  /** Arguments without NUL print as a line without NUL. */
  lemma {:induction false} LineNulFree(args: seq<Printed>)
    requires forall i :: 0 <= i < |args| ==> NUL !in args[i].arg
    ensures NUL !in Line(args)
    decreases |args|
  {
    if args != [] {
      EscapeNulFree(args[0].quoted, args[0].arg);
      LineNulFree(args[1..]);
    }
  }

  lemma {:induction false} ArgsAt(args: seq<Printed>, k: nat)
    requires k < |args|
    ensures |Args(args)| == |args| && Args(args)[k] == args[k].arg
    decreases |args|
  {
    if |args| > 1 {
      ArgsAt(args[1..], if k > 0 then k - 1 else 0);
    }
  }

  /** Any list of NUL-free arguments, printed with quotes or escapes and split in place, comes back argument by argument
      as C strings in the buffer, as many as the table has room for. */
  method SplitPrinted(line: array<char>, argv: array<Option<nat>>, ghost args: seq<Printed>) returns (argc: nat)
    requires forall i :: 0 <= i < |args| ==> args[i].Valid() && NUL !in args[i].arg
    requires argv.Length >= 1 && Line(args) + [NUL] <= line[..]
    modifies line, argv
    ensures argc == Min(|args|, argv.Length - 1) && argv[argc] == None
    ensures forall k :: 0 <= k < argc ==> Reads(line[..], argv[..][k], args[k].arg)
  {
    ghost var s := Line(args);
    LineNulFree(args);
    SplitReadsLine(args);
    forall k | 0 <= k < |args|
      ensures |Args(args)| == |args| && Args(args)[k] == args[k].arg
    {
      ArgsAt(args, k);
    }
    assert args == [] ==> Args(args) == [];
    hide Tokens, Line, Reads, Args;
    assert line[..|s|] == (s + [NUL])[..|s|] == s && line[|s|] == (s + [NUL])[|s|];
    argc := Split(line, argv, s);
  }

  /** A printed argument is one token, at the end of the line or before a space. */
  lemma TokensOfText(p: Printed, tail: string)
    requires p.Valid()
    ensures Tokens(p.Text()) == [p.arg]
    ensures Tokens(p.Text() + [' '] + tail) == [p.arg] + Tokens(tail)
  {
    var e := Escape(p.quoted, p.arg);
    if p.quoted {
      ArgumentReadsEscape(true, p.arg, "");
      ArgumentReadsEscape(true, p.arg, [' '] + tail);
      assert p.Text()[1..] == e + ['"'] + "";
      assert (p.Text() + [' '] + tail)[1..] == e + ['"'] + ([' '] + tail);
      assert ([' '] + tail)[1..] == tail;
    } else {
      ArgumentReadsEscape(false, p.arg, tail);
      assert e[0] != ' ' && e[0] != '"';
    }
  }
}
