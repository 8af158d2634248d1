/**
 The command line that process_run builds on Windows (libs/extc/process_stubs.c:284-329), and the
 rules by which the started program splits it again: those of the Microsoft C runtime.
 */
module CommandLine {
  import opened ChunkBuffer
  import opened Sequences

  function Slashes(n: nat): (s: seq<char>)
    ensures |s| == n && forall i :: 0 <= i < n ==> s[i] == '\\'
  {
    seq(n, _ => '\\')
  }

  /** What is still to be written of an argument when v is left of it and bs backslashes are held back. */
  function Quoted(v: seq<char>, bs: nat): seq<char> {
    if v == [] then Slashes(bs * 2) + ['"']
    else if v[0] == '"' then Slashes(bs * 2) + ['\\', '"'] + Quoted(v[1..], 0)
    else if v[0] == '\\' then Quoted(v[1..], bs + 1)
    else Slashes(bs) + [v[0]] + Quoted(v[1..], 0)
  }

  function QuotedArgs(args: seq<seq<char>>): seq<char> {
    if args == [] then [] else [' ', '"'] + Quoted(args[0], 0) + QuotedArgs(args[1..])
  }

  function QuotedLine(cmd: seq<char>, args: seq<seq<char>>): seq<char> {
    ['"'] + cmd + ['"'] + QuotedArgs(args)
  }

  // ------------------------------------------------------------------ the rules of the receiver

  /**
   The runtime in which two quotes inside a quoted part give one quote and end the quoted part, and
   the one in which the quoted part goes on.
   */
  datatype Runtime = Before2008 | Since2008

  predicate Blank(c: char) {
    c == ' ' || c == '\t'
  }

  /** How many backslashes s begins with. */
  function Leading(s: seq<char>): (n: nat)
    ensures n <= |s| && s[..n] == Slashes(n) && (n < |s| ==> s[n] != '\\')
  {
    if s == [] || s[0] != '\\' then 0
    else
      var n := Leading(s[1..]);
      assert s[..n + 1] == [s[0]] + s[1..][..n];
      n + 1
  }

  /** An argument and what follows it; open says whether a quoted part is open. */
  function Argument(s: seq<char>, open: bool, runtime: Runtime): (r: (seq<char>, seq<char>))
    ensures |r.1| <= |s| && (s != [] && !Blank(s[0]) ==> |r.1| < |s|)
    decreases |s|, 1
  {
    var n := Leading(s);
    AfterSlashes(n, s[n..], open, runtime)
  }

  /** The same from t on, when n backslashes have just been read and t begins with none. */
  function AfterSlashes(n: nat, t: seq<char>, open: bool, runtime: Runtime): (r: (seq<char>, seq<char>))
    ensures |r.1| <= |t| && (t != [] && !Blank(t[0]) ==> |r.1| < |t|)
    decreases |t|, 0
  {
    if t == [] then (Slashes(n), [])
    else if t[0] == '"' then
      if n % 2 == 1 then
        var (a, rest) := Argument(t[1..], open, runtime);
        (Slashes(n / 2) + ['"'] + a, rest)
      else if open && |t| > 1 && t[1] == '"' then
        var (a, rest) := Argument(t[2..], runtime == Since2008, runtime);
        (Slashes(n / 2) + ['"'] + a, rest)
      else
        var (a, rest) := Argument(t[1..], !open, runtime);
        (Slashes(n / 2) + a, rest)
    else if !open && Blank(t[0]) then (Slashes(n), t)
    else
      var (a, rest) := Argument(t[1..], open, runtime);
      (Slashes(n) + [t[0]] + a, rest)
  }

  function SplitArgs(s: seq<char>, runtime: Runtime): seq<seq<char>>
    decreases |s|
  {
    if s == [] then []
    else if Blank(s[0]) then SplitArgs(s[1..], runtime)
    else
      var (a, rest) := Argument(s, false, runtime);
      [a] + SplitArgs(rest, runtime)
  }

  /** The program name: quotes switch quoting on and off and are dropped, and nothing is an escape. */
  function ProgramName(s: seq<char>, open: bool): (r: (seq<char>, seq<char>))
    ensures |r.1| <= |s| && '"' !in r.0
  {
    if s == [] || (!open && Blank(s[0])) then ([], s)
    else if s[0] == '"' then ProgramName(s[1..], !open)
    else
      var (a, rest) := ProgramName(s[1..], open);
      ([s[0]] + a, rest)
  }

  function Split(line: seq<char>, runtime: Runtime): seq<seq<char>> {
    var (name, rest) := ProgramName(line, false);
    [name] + SplitArgs(rest, runtime)
  }

  // ------------------------------------------------------------------ splitting undoes quoting

  lemma {:induction false} LeadingOf(n: nat, c: char, rest: seq<char>)
    requires c != '\\'
    ensures Leading(Slashes(n) + [c] + rest) == n
    decreases n
  {
    var s := Slashes(n) + [c] + rest;
    if n > 0 {
      assert s[1..] == Slashes(n - 1) + [c] + rest;
      LeadingOf(n - 1, c, rest);
    }
  }

  lemma ArgumentAt(n: nat, c: char, rest: seq<char>, open: bool, runtime: Runtime)
    requires c != '\\'
    ensures Argument(Slashes(n) + [c] + rest, open, runtime) == AfterSlashes(n, [c] + rest, open, runtime)
  {
    LeadingOf(n, c, rest);
    assert (Slashes(n) + [c] + rest)[n..] == [c] + rest;
  }

  predicate Boundary(tail: seq<char>) {
    tail == [] || tail[0] == ' '
  }

  function Behind(a: seq<char>, r: (seq<char>, seq<char>)): (seq<char>, seq<char>) {
    (a + r.0, r.1)
  }

  lemma Halves(n: nat, c: char, rest: seq<char>, runtime: Runtime)
    ensures AfterSlashes(if c == '"' then n * 2 + 1 else n, [c] + rest, true, runtime)
         == Behind(Slashes(n) + [c], Argument(rest, true, runtime))
  {
    assert ([c] + rest)[1..] == rest;
  }

  lemma Closing(n: nat, rest: seq<char>, runtime: Runtime)
    requires Boundary(rest)
    ensures AfterSlashes(n * 2, ['"'] + rest, true, runtime) == (Slashes(n), rest)
  {
    assert (['"'] + rest)[1..] == rest;
    AtBoundary(rest, runtime);
    assert Slashes(n) + [] == Slashes(n);
  }

  lemma AtBoundary(tail: seq<char>, runtime: Runtime)
    requires Boundary(tail)
    ensures Argument(tail, false, runtime) == ([], tail)
  {
  }

  lemma QuotedEnd(bs: nat, tail: seq<char>)
    ensures Quoted([], bs) + tail == Slashes(bs * 2) + ['"'] + tail
  {
  }

  lemma QuotedNext(v: seq<char>, bs: nat, tail: seq<char>)
    requires v != [] && v[0] != '\\'
    ensures Quoted(v, bs) + tail
         == Slashes(if v[0] == '"' then bs * 2 + 1 else bs) + [v[0]] + (Quoted(v[1..], 0) + tail)
  {
  }

  lemma HeldBack(v: seq<char>, bs: nat)
    ensures v == [] ==> Slashes(bs) + v == Slashes(bs)
    ensures v != [] ==> Slashes(bs) + [v[0]] + (Slashes(0) + v[1..]) == Slashes(bs) + v
    ensures v != [] && v[0] == '\\' ==> Slashes(bs + 1) + v[1..] == Slashes(bs) + v
  {
  }

  lemma {:induction false} ArgumentOfQuoted(v: seq<char>, bs: nat, tail: seq<char>, runtime: Runtime)
    requires Boundary(tail)
    ensures Argument(Quoted(v, bs) + tail, true, runtime) == (Slashes(bs) + v, tail)
    decreases |v|
  {
    hide AfterSlashes, Argument, Leading, Slashes, Boundary;
    HeldBack(v, bs);
    if v == [] {
      QuotedEnd(bs, tail);
      ArgumentAt(bs * 2, '"', tail, true, runtime);
      Closing(bs, tail, runtime);
    } else if v[0] == '\\' {
      ArgumentOfQuoted(v[1..], bs + 1, tail, runtime);
    } else {
      ArgumentOfQuotedNext(v, bs, tail, runtime);
      ArgumentOfQuoted(v[1..], 0, tail, runtime);
    }
  }

  lemma ArgumentOfQuotedNext(v: seq<char>, bs: nat, tail: seq<char>, runtime: Runtime)
    requires v != [] && v[0] != '\\'
    ensures Argument(Quoted(v, bs) + tail, true, runtime)
         == Behind(Slashes(bs) + [v[0]], Argument(Quoted(v[1..], 0) + tail, true, runtime))
  {
    hide AfterSlashes, Argument, Leading, Slashes, Quoted, Behind;
    var rest := Quoted(v[1..], 0) + tail;
    QuotedNext(v, bs, tail);
    ArgumentAt(if v[0] == '"' then bs * 2 + 1 else bs, v[0], rest, true, runtime);
    Halves(bs, v[0], rest, runtime);
  }

  lemma {:induction false} SplitQuotedArgs(args: seq<seq<char>>, runtime: Runtime)
    ensures SplitArgs(QuotedArgs(args), runtime) == args
    decreases |args|
  {
    hide AfterSlashes, Argument, Leading, Quoted;
    if args != [] {
      var tail := QuotedArgs(args[1..]);
      var text := Quoted(args[0], 0) + tail;
      var s := ['"'] + text;
      assert QuotedArgs(args) == [' '] + s;
      assert ([' '] + s)[1..] == s;
      ArgumentOfQuoted(args[0], 0, tail, runtime);
      Opening(text, runtime);
      assert Slashes(0) + args[0] == args[0];
      SplitQuotedArgs(args[1..], runtime);
    }
  }

  /** A quote at the beginning opens a quoted part, whatever follows it. */
  lemma Opening(text: seq<char>, runtime: Runtime)
    ensures Argument(['"'] + text, false, runtime) == Argument(text, true, runtime)
  {
    assert Slashes(0) + ['"'] + text == ['"'] + text;
    ArgumentAt(0, '"', text, false, runtime);
    assert (['"'] + text)[1..] == text;
    var (a, rest) := Argument(text, true, runtime);
    assert Slashes(0) + a == a;
  }

  lemma {:induction false} NameOf(cmd: seq<char>, tail: seq<char>)
    requires '"' !in cmd && Boundary(tail)
    ensures ProgramName(cmd + ['"'] + tail, true) == (cmd, tail)
    decreases |cmd|
  {
    var s := cmd + ['"'] + tail;
    if cmd == [] {
      assert s[1..] == tail;
    } else {
      assert s[1..] == cmd[1..] + ['"'] + tail;
      NameOf(cmd[1..], tail);
      assert s[0] == cmd[0] && cmd[0] in cmd && [cmd[0]] + cmd[1..] == cmd;
    }
  }

  /**
   Under both runtimes, splitting the line gives back the command and exactly the arguments, if
   and only if the command has no quote in it.
   */
  lemma SplitUndoesQuoting(cmd: seq<char>, args: seq<seq<char>>, runtime: Runtime)
    ensures Split(QuotedLine(cmd, args), runtime) == [cmd] + args <==> '"' !in cmd
  {
    hide SplitArgs, Quoted;
    var tail := QuotedArgs(args);
    var line := QuotedLine(cmd, args);
    if '"' !in cmd {
      assert line[1..] == cmd + ['"'] + tail;
      NameOf(cmd, tail);
      SplitQuotedArgs(args, runtime);
    } else {
      assert Split(line, runtime)[0] != cmd;
    }
  }

  // ------------------------------------------------------------------ building the line

  method AppendSlashes(b: Buffer, n: nat)
    requires b.Valid()
    modifies b.Repr
    ensures b.Valid() && fresh(b.Repr - old(b.Repr)) && b.Contents() == old(b.Contents()) + Slashes(n)
  {
    hide Buffer.Valid, Buffer.Contents;
    var k := 0;
    while k < n
      invariant k <= n && b.Valid() && fresh(b.Repr - old(b.Repr))
      invariant b.Contents() == old(b.Contents()) + Slashes(k)
    {
      b.AppendChar('\\');
      assert Slashes(k + 1) == Slashes(k) + ['\\'];
      Assoc(old(b.Contents()), Slashes(k), ['\\']);
      k := k + 1;
    }
  }

  lemma {:induction false} QuotedArgsSnoc(args: seq<seq<char>>, v: seq<char>)
    ensures QuotedArgs(args + [v]) == QuotedArgs(args) + ([' ', '"'] + Quoted(v, 0))
    decreases |args|
  {
    if args == [] {
      assert [v][1..] == [];
      assert QuotedArgs([v]) == [' ', '"'] + Quoted(v, 0) + QuotedArgs([]);
      assert args + [v] == [v] && QuotedArgs([]) == [];
    } else {
      QuotedArgsSnoc(args[1..], v);
      assert (args + [v])[1..] == args[1..] + [v];
      var a, b := [' ', '"'] + Quoted(args[0], 0), QuotedArgs(args[1..]);
      Assoc(a, b, [' ', '"'] + Quoted(v, 0));
    }
  }

  /** What is written when c comes after bs held back backslashes, and how many are held back then. */
  function Written(c: char, bs: nat): seq<char> {
    if c == '"' then Slashes(bs * 2) + ['\\', '"'] else if c == '\\' then [] else Slashes(bs) + [c]
  }

  function HeldAfter(c: char, bs: nat): nat {
    if c == '\\' then bs + 1 else 0
  }

  lemma QuotedHead(v: seq<char>, bs: nat)
    ensures v == [] ==> Quoted(v, bs) == Slashes(bs * 2) + ['"']
    ensures v != [] ==> Quoted(v, bs) == Written(v[0], bs) + Quoted(v[1..], HeldAfter(v[0], bs))
  {
  }

  lemma StrlenWhole(s: seq<char>)
    requires '\0' !in s
    ensures Strlen(s) == |s|
  {
  }

  lemma {:induction false} StrlenBeforeNul(s: seq<char>)
    requires '\0' !in s
    ensures Strlen(s + ['\0']) == |s|
    decreases |s|
  {
    if s != [] {
      StrlenBeforeNul(s[1..]);
      assert (s + ['\0'])[1..] == s[1..] + ['\0'];
    }
  }

  method AppendArgChar(b: Buffer, c: char, bs: nat) returns (bs': nat)
    requires b.Valid()
    modifies b.Repr
    ensures b.Valid() && fresh(b.Repr - old(b.Repr))
    ensures bs' == HeldAfter(c, bs) && b.Contents() == old(b.Contents()) + Written(c, bs)
  {
    hide Buffer.Valid, Buffer.Contents;
    ghost var start := b.Contents();
    if c == '"' {
      AppendSlashes(b, bs * 2);
      StrlenWhole(['\\', '"']);
      b.AppendStr(Chars(['\\', '"']));
      Assoc(start, Slashes(bs * 2), ['\\', '"']);
      bs' := 0;
    } else if c == '\\' {
      bs' := bs + 1;
    } else {
      AppendSlashes(b, bs);
      b.AppendChar(c);
      Assoc(start, Slashes(bs), [c]);
      bs' := 0;
    }
  }

  /** The loop over the characters of one argument, between its quotes. */
  method AppendArg(b: Buffer, v: seq<char>)
    requires b.Valid()
    modifies b.Repr
    ensures b.Valid() && fresh(b.Repr - old(b.Repr))
    ensures b.Contents() == old(b.Contents()) + ([' ', '"'] + Quoted(v, 0))
  {
    hide Quoted, Slashes, Written, HeldAfter, Buffer.Valid, Buffer.Contents;
    ghost var before := b.Contents();
    StrlenWhole([' ', '"']);
    b.AppendStr(Chars([' ', '"']));
    ghost var start, done := b.Contents(), [];
    var j, bs := 0, 0;
    assert v[0..] == v;
    while j < |v|
      invariant j <= |v| && b.Valid() && fresh(b.Repr - old(b.Repr))
      invariant b.Contents() == start + done
      invariant done + Quoted(v[j..], bs) == Quoted(v, 0)
    {
      QuotedHead(v[j..], bs);
      assert v[j..][1..] == v[j + 1..];
      ghost var more := Written(v[j], bs);
      bs := AppendArgChar(b, v[j], bs);
      Assoc(start, done, more);
      Assoc(done, more, Quoted(v[j + 1..], bs));
      done := done + more;
      j := j + 1;
    }
    QuotedHead(v[j..], bs);
    AppendSlashes(b, bs * 2);
    b.AppendChar('"');
    Assoc(start + done, Slashes(bs * 2), ['"']);
    Assoc(start, done, Slashes(bs * 2) + ['"']);
    Assoc(before, [' ', '"'], Quoted(v, 0));
  }

  /** The command line as a NUL-terminated string; strlen cuts the command at its first NUL. */
  method BuildCommandLine(cmd: seq<char>, args: seq<seq<char>>) returns (sargs: array<char>)
    ensures sargs[..] == QuotedLine(cmd[..Strlen(cmd)], args) + ['\0']
  {
    hide QuotedArgs, Quoted, Buffer.Valid, Buffer.Contents;
    var b := new Buffer();
    b.AppendChar('"');
    b.AppendStr(Chars(cmd));
    b.AppendChar('"');
    ghost var head := ['"'] + cmd[..Strlen(cmd)] + ['"'];
    assert b.Contents() == head + [];
    NoArgs();
    var i := 0;
    while i < |args|
      invariant i <= |args| && b.Valid() && fresh(b.Repr)
      invariant b.Contents() == head + QuotedArgs(args[..i])
    {
      assert args[..i + 1] == args[..i] + [args[i]];
      QuotedArgsSnoc(args[..i], args[i]);
      AppendArg(b, args[i]);
      i := i + 1;
    }
    assert args[..i] == args;
    sargs := b.ToString();
    assert sargs[..] == sargs[..|b.Contents()|] + [sargs[|b.Contents()|]];
  }

  lemma NoArgs()
    ensures QuotedArgs([]) == []
  {
  }

  lemma {:induction false} QuotedHasNoNul(v: seq<char>, bs: nat)
    requires '\0' !in v
    ensures '\0' !in Quoted(v, bs)
    decreases |v|
  {
    if v != [] {
      QuotedHead(v, bs);
      QuotedHasNoNul(v[1..], HeldAfter(v[0], bs));
    }
  }

  lemma {:induction false} ArgsHaveNoNul(args: seq<seq<char>>)
    requires forall v :: v in args ==> '\0' !in v
    ensures '\0' !in QuotedArgs(args)
    decreases |args|
  {
    if args != [] {
      QuotedHasNoNul(args[0], 0);
      ArgsHaveNoNul(args[1..]);
    }
  }

  /**
   End to end, for a command and arguments without NUL: what the started program makes of the
   memory that BuildCommandLine fills is the command and the arguments, if and only if the
   command has no quote in it.
   */
  lemma RoundTrip(cmd: seq<char>, args: seq<seq<char>>, sargs: seq<char>, runtime: Runtime)
    requires '\0' !in cmd && forall v :: v in args ==> '\0' !in v
    requires sargs == QuotedLine(cmd[..Strlen(cmd)], args) + ['\0']
    ensures Split(sargs[..Strlen(sargs)], runtime) == [cmd] + args <==> '"' !in cmd
  {
    hide Quoted, QuotedArgs, Split;
    StrlenWhole(cmd);
    ArgsHaveNoNul(args);
    assert cmd[..|cmd|] == cmd;
    var line := QuotedLine(cmd, args);
    assert '\0' !in line;
    StrlenBeforeNul(line);
    assert sargs[..|line|] == line;
    SplitUndoesQuoting(cmd, args, runtime);
  }

  // ------------------------------------------------------------------ what is written, in its characters

  lemma SlashFirst(n: nat, rest: seq<char>)
    requires n > 0
    ensures var s := Slashes(n) + rest; s != [] && s[0] == '\\' && s[1..] == Slashes(n - 1) + rest
  {
  }

  lemma {:induction false} QuotedHeld(n: nat, rest: seq<char>, bs: nat)
    ensures Quoted(Slashes(n) + rest, bs) == Quoted(rest, bs + n)
    decreases n
  {
    hide Slashes;
    if n == 0 {
      NoSlashes(rest);
    } else {
      SlashFirst(n, rest);
      QuotedHeld(n - 1, rest, bs + 1);
    }
  }

  lemma NoSlashes(rest: seq<char>)
    ensures Slashes(0) + rest == rest
  {
  }

  lemma SlashesAre(s: seq<char>, n: nat)
    requires |s| == n && forall i :: 0 <= i < n ==> s[i] == '\\'
    ensures s == Slashes(n)
  {
  }

  /**
   What stands behind the opening quote of an argument: after n backslashes, a quote is written behind
   2n + 1 of them, the end of the argument behind 2n, and any other character behind n.
   */
  lemma QuotedRun(slashes: seq<char>, twice: seq<char>, c: char, rest: seq<char>)
    requires forall i :: 0 <= i < |slashes| ==> slashes[i] == '\\'
    requires |twice| == 2 * |slashes| && forall i :: 0 <= i < |twice| ==> twice[i] == '\\'
    ensures Quoted(slashes, 0) == twice + "\""
    ensures c == '"' ==> Quoted(slashes + [c] + rest, 0) == twice + "\\\"" + Quoted(rest, 0)
    ensures c != '"' && c != '\\' ==> Quoted(slashes + [c] + rest, 0) == slashes + [c] + Quoted(rest, 0)
  {
    hide Slashes;
    var n := |slashes|;
    SlashesAre(slashes, n);
    SlashesAre(twice, n * 2);
    QuotedHeld(n, [], 0);
    assert slashes + [] == slashes;
    QuotedHeld(n, [c] + rest, 0);
    assert slashes + [c] + rest == slashes + ([c] + rest) && ([c] + rest)[1..] == rest;
  }

  /** The command and every argument stand between quotes, and one space before each argument. */
  lemma LineWritten(cmd: seq<char>, args: seq<seq<char>>, a: seq<char>)
    ensures QuotedLine(cmd, []) == "\"" + cmd + "\""
    ensures QuotedLine(cmd, args + [a]) == QuotedLine(cmd, args) + (" \"" + Quoted(a, 0))
  {
    QuotedArgsSnoc(args, a);
    Assoc(['"'] + cmd + ['"'], QuotedArgs(args), " \"" + Quoted(a, 0));
  }
}
