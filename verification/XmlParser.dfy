/**
 The event-driven XML parser of the C++ runtime (std/cpp/NativeXmlImport.cpp): a state machine
 over a NUL-terminated text that calls itself for the children of every element.
 */
module XmlParser {

  datatype State =
    | IgnoreSpaces | Begin | BeginNode | TagName | Body | AttribName | Equals | AttvalBegin
    | AttribVal | Childs | Close | WaitEnd | WaitEndRet | PcData | Header | Comment | Doctype | CData

  /** The calls made on the event handler. */
  datatype Event =
    | OnXml(name: string, attribs: map<string, string>)
    | OnDone
    | OnPcData(text: string)
    | OnCData(text: string)
    | OnComment(text: string)
    | OnDoctype(text: string)

  /** The name of the enclosing element; the null String of the outermost call is None. */
  datatype Parent = None | Some(name: string)

  /** The local variables of do_parse_xml, with the events sent so far. */
  datatype Local = Local(
    state: State, next: State, aname: string, attribs: map<string, string>, nodename: string,
    start: nat, p: nat, nsubs: nat, nbrackets: int, events: seq<Event>)

  /** What one pass through the switch does next. */
  datatype Action =
    | Continue(m: Local)          // `continue`: the same character again
    | Break(m: Local)             // `break`: on to the next character
    | Descend(m: Local)           // the recursive call
    | Return(m: Local)
    | Error(msg: string, skipped: nat)  // ERROR, when the case has moved the cursor by `skipped`

  /** The character at i; the text ends with a NUL and nothing beyond that may be read. */
  function CharAt(xml: string, i: nat): char
    requires i <= |xml|
  {
    if i < |xml| then xml[i] else '\0'
  }

  predicate IsValidChar(c: char) {
    'a' <= c <= 'z' || 'A' <= c <= 'Z' || '0' <= c <= '9' || c == ':' || c == '.' || c == '_' || c == '-'
  }

  function ToLower(c: char): char {
    if 'A' <= c <= 'Z' then (c as int + 32) as char else c
  }

  /** strcmpi(s, t) == 0 */
  predicate EqualIgnoringCase(s: string, t: string) {
    |s| == |t| && forall i :: 0 <= i < |s| ==> ToLower(s[i]) == ToLower(t[i])
  }

  /** Do the characters from i on spell `word` in either case?  Stops at the first that does not. */
  predicate Spells(xml: string, i: nat, word: string)
    requires i <= |xml| && '\0' !in word
    decreases |word|
  {
    word == [] ||
    (ToLower(CharAt(xml, i)) == word[0] && CharAt(xml, i) != '\0' && Spells(xml, i + 1, word[1..]))
  }

  function Start(p: nat, events: seq<Event>): Local {
    Local(Begin, Begin, "", map[], "", 0, p, 0, 0, events)
  }

  predicate Wf(xml: string, m: Local) {
    && m.start <= m.p <= |xml|
    && (m.state == AttribVal ==> m.start < m.p)
    && m.next in {Begin, BeginNode, Body, Equals, AttvalBegin, Close, WaitEndRet}
  }

  function Since(xml: string, m: Local): string
    requires m.start <= m.p <= |xml|
  {
    xml[m.start..m.p]
  }

  function Emit(m: Local, e: Event): Local {
    m.(events := m.events + [e])
  }

  function Skip(m: Local, next: State): Local {
    m.(state := IgnoreSpaces, next := next)
  }

  /** On to the next character. */
  function Advance(m: Local): (m': Local)
    ensures m'.p == m.p + 1 && m'.events == m.events
  {
    m.(p := m.p + 1)
  }

  /** What every pass keeps: the cursor never moves back or past the NUL, and `continue` is not for ever. */
  predicate Sound(xml: string, m: Local, a: Action)
    requires Wf(xml, m)
  {
    match a
    case Continue(m') => Wf(xml, m') && m'.p == m.p && m'.events == m.events && Rank(m') < Rank(m)
    case Break(m') => m.p <= m'.p < |xml| && Wf(xml, Advance(m'))
    case Return(m') => m'.p == m.p
    case Descend(m') => m' == m && m.state == Childs
    case Error(msg, skipped) => msg != "" && m.p + skipped <= |xml|
  }

  /** The body of the switch. */
  function Step(xml: string, parent: Parent, m: Local): (a: Action)
    requires Wf(xml, m) && m.p < |xml|
    ensures Sound(xml, m, a)
  {
    var c := xml[m.p];
    match m.state
    case IgnoreSpaces =>
      if c in "\n\r\t " then Break(m) else Continue(m.(state := m.next))
    case Begin =>
      if c == '<' then Break(Skip(m, BeginNode)) else Continue(m.(start := m.p, state := PcData))
    case BeginNode =>
      if c == '!' then BeginBang(xml, m)
      else if c == '?' then Break(m.(state := Header, start := m.p))
      else if c == '/' then
        if parent.None? || parent.name == "" then Error("Expected node name", 0)
        else Break(Skip(m.(start := m.p + 1), Close))
      else Continue(m.(state := TagName, start := m.p))
    case TagName => StepName(xml, m)
    case Body =>
      if c == '/' then Break(Emit(m, OnXml(m.nodename, m.attribs)).(nsubs := m.nsubs + 1, state := WaitEnd))
      else if c == '>' then Break(Emit(m, OnXml(m.nodename, m.attribs)).(nsubs := m.nsubs + 1, state := Childs))
      else Continue(m.(state := AttribName, start := m.p))
    case AttribName => StepName(xml, m)
    case Equals =>
      if c == '=' then Break(Skip(m, AttvalBegin)) else Error("Expected =", 0)
    case AttvalBegin =>
      if c == '"' || c == '\'' then Break(m.(state := AttribVal, start := m.p)) else Error("Expected \"", 0)
    case AttribVal =>
      if c == xml[m.start] then
        Break(Skip(m.(attribs := m.attribs[m.aname := xml[m.start + 1..m.p]]), Body))
      else Break(m)
    case Childs =>
      Descend(m)
    case WaitEnd =>
      if c == '>' then Break(Emit(m, OnDone).(state := Begin)) else Error("Expected >", 0)
    case WaitEndRet =>
      if c == '>' then Return(if m.nsubs == 0 then Emit(m, OnPcData("")) else m) else Error("Expected >", 0)
    case Close =>
      if IsValidChar(c) then Break(m)
      else if m.p == m.start then Error("Expected node name", 0)
      else if parent.None? || !EqualIgnoringCase(parent.name, Since(xml, m)) then Error("Expected </", 0)
      else Continue(Skip(m, WaitEndRet))
    case _ => StepText(xml, m)
  }

  /** The cases TAG_NAME and ATTRIB_NAME. */
  function StepName(xml: string, m: Local): (a: Action)
    requires Wf(xml, m) && m.p < |xml| && (m.state == TagName || m.state == AttribName)
    ensures Sound(xml, m, a)
  {
    if IsValidChar(xml[m.p]) then Break(m)
    else if m.state == TagName then
      if m.p == m.start then Error("Expected node name", 0)
      else Continue(Skip(m.(nodename := Since(xml, m), attribs := map[]), Body))
    else
      if m.p == m.start then Error("Expected attribute name", 0)
      else if Since(xml, m) in m.attribs then Error("Duplicate attribute", 0)
      else Continue(Skip(m.(aname := Since(xml, m)), Equals))
  }

  /** The cases that collect text up to a terminator: PCDATA, CDATA, COMMENT, DOCTYPE and HEADER. */
  function StepText(xml: string, m: Local): (a: Action)
    requires Wf(xml, m) && m.p < |xml|
    requires m.state in {PcData, CData, Comment, Doctype, Header}
    ensures Sound(xml, m, a)
  {
    var c := xml[m.p];
    if m.state == PcData then
      if c == '<' then Break(Skip(Emit(m, OnPcData(Since(xml, m))).(nsubs := m.nsubs + 1), BeginNode))
      else Break(m)
    else if m.state == CData then
      if c == ']' && CharAt(xml, m.p + 1) == ']' && CharAt(xml, m.p + 2) == '>' then
        Break(Emit(m, OnCData(Since(xml, m))).(nsubs := m.nsubs + 1, p := m.p + 2, state := Begin))
      else Break(m)
    else if m.state == Comment then
      if c == '-' && CharAt(xml, m.p + 1) == '-' && CharAt(xml, m.p + 2) == '>' then
        Break(Emit(m, OnComment(Since(xml, m))).(p := m.p + 2, state := Begin))
      else Break(m)
    else if m.state == Doctype then
      if c == '[' then Break(m.(nbrackets := m.nbrackets + 1))
      else if c == ']' then Break(m.(nbrackets := m.nbrackets - 1))
      else if c == '>' && m.nbrackets == 0 then Break(Emit(m, OnDoctype(Since(xml, m))).(state := Begin))
      else Break(m)
    else
      if c == '?' && CharAt(xml, m.p + 1) == '>' then
        Break(Emit(m, OnComment(xml[m.start..m.p + 1])).(p := m.p + 1, state := Begin))
      else Break(m)
  }

  /** The case of BEGIN_NODE for `!`: CDATA, DOCTYPE or a comment. */
  function BeginBang(xml: string, m: Local): (a: Action)
    requires Wf(xml, m) && m.p < |xml| && xml[m.p] == '!'
    ensures Sound(xml, m, a)
  {
    SpellsInside(xml, m.p + 1, "");
    var c1 := CharAt(xml, m.p + 1);
    if c1 == '[' then
      SpellsInside(xml, m.p + 2, "cdata[");
      if !Spells(xml, m.p + 2, "cdata[") then Error("Expected <![CDATA[", 2)
      else Break(m.(p := m.p + 7, state := CData, start := m.p + 8))
    else if c1 == 'D' || c1 == 'd' then
      SpellsInside(xml, m.p + 2, "octype");
      if !Spells(xml, m.p + 2, "octype") then Error("Expected <!DOCTYPE", 0)
      else Break(m.(p := m.p + 7, state := Doctype, start := m.p + 8))
    else if c1 != '-' || CharAt(xml, m.p + 2) != '-' then Error("Expected <!--", 0)
    else Break(m.(p := m.p + 2, state := Comment, start := m.p + 3))
  }

  lemma {:induction false} SpellsInside(xml: string, i: nat, word: string)
    requires i <= |xml| && '\0' !in word
    ensures Spells(xml, i, word) ==> i + |word| <= |xml|
    decreases |word|
  {
    if word != [] && Spells(xml, i, word) {
      SpellsInside(xml, i + 1, word[1..]);
    }
  }

  /** How many passes can go by on one character; with the text left it makes the parser terminate. */
  function Rank(m: Local): nat {
    if m.state == IgnoreSpaces then 1 + RankOf(m.next, m.start == m.p) else RankOf(m.state, m.start == m.p)
  }

  function RankOf(s: State, empty: bool): nat {
    match s
    case TagName => if empty then 0 else 3
    case AttribName => if empty then 0 else 2
    case Close => if empty then 0 else 2
    case Begin => 1
    case BeginNode => 1
    case Body => 1
    case Childs => 2
    case _ => 0
  }

  // ----- running it -----

  /**
   A failed run was looking at the character `at`; the message shows `line` and the text from
   `shown` on.
   */
  datatype Outcome =
    | Returned(p: nat, line: nat, events: seq<Event>)
    | Failed(msg: string, at: nat, shown: nat, line: nat, events: seq<Event>)

  function NewLine(xml: string, i: nat): nat
    requires i <= |xml|
  {
    if CharAt(xml, i) == '\n' then 1 else 0
  }

  /** What happens at the end of the text. */
  function Finish(xml: string, parent: Parent, m: Local, line: nat): (r: Outcome)
    requires Wf(xml, m) && m.p == |xml|
    ensures r.Returned? ==> parent.None? && r.p == m.p && (m.state == Begin || m.state == PcData)
    ensures r.Returned? <== parent.None? && (m.state == Begin || m.state == PcData)
    ensures r.line == line && (r.Failed? ==> r.msg != "" && r.at == r.shown == m.p)
  {
    var m := if m.state == Begin then m.(start := m.p, state := PcData) else m;
    if parent.None? && m.state == PcData then
      Returned(m.p, line, if m.p != m.start || m.nsubs == 0 then m.events + [OnPcData(Since(xml, m))] else m.events)
    else Failed("Unexpected end", m.p, m.p, line, m.events)
  }

  /** do_parse_xml from any point of its loop. */
  function Run(xml: string, parent: Parent, m: Local, line: nat): (r: Outcome)
    requires Wf(xml, m)
    ensures r.Returned? ==> m.p <= r.p <= |xml| && (parent.Some? ==> r.p < |xml|)
    ensures r.Failed? ==> r.msg != "" && m.p <= r.at <= r.shown <= |xml|
    decreases |xml| - m.p, Rank(m)
  {
    if m.p == |xml| then Finish(xml, parent, m, line)
    else
      match Step(xml, parent, m)
      case Continue(m') => Run(xml, parent, m', line)
      case Break(m') => Run(xml, parent, Advance(m'), line + NewLine(xml, m'.p + 1))
      case Return(m') => Returned(m'.p, line, m'.events)
      case Error(msg, skipped) => Failed(msg, m.p, m.p + skipped, line, m.events)
      case Descend(_) =>
        var inner := Run(xml, Some(m.nodename), Start(m.p, m.events), line);
        if inner.Failed? then inner
        else Run(xml, parent, Resume(m, inner.p, inner.events), inner.line + NewLine(xml, inner.p + 1))
  }

  /** After the recursive call, which stopped on the `>` of the closing tag. */
  function Resume(m: Local, p: nat, events: seq<Event>): (m': Local)
    ensures m'.p == p + 1 && m'.events == events && (forall xml :: Wf(xml, m) && p < |xml| ==> Wf(xml, m'))
  {
    m.(p := p + 1, start := p, state := Begin, events := events)
  }

  lemma RunContinue(xml: string, parent: Parent, m: Local, line: nat, m': Local)
    requires Wf(xml, m) && m.p < |xml| && Step(xml, parent, m) == Continue(m')
    ensures Wf(xml, m') && m'.p == m.p && m'.events == m.events && Rank(m') < Rank(m)
    ensures Run(xml, parent, m, line) == Run(xml, parent, m', line)
  {
    hide Step, Finish, NewLine, Advance, Resume, Wf;
  }

  lemma RunBreak(xml: string, parent: Parent, m: Local, line: nat, m': Local)
    requires Wf(xml, m) && m.p < |xml| && Step(xml, parent, m) == Break(m')
    ensures m.p <= m'.p < |xml| && Wf(xml, Advance(m'))
    ensures Run(xml, parent, m, line) == Run(xml, parent, Advance(m'), line + NewLine(xml, m'.p + 1))
  {
    hide Step, Finish, NewLine, Advance, Resume, Wf;
  }

  lemma RunReturn(xml: string, parent: Parent, m: Local, line: nat, m': Local)
    requires Wf(xml, m) && m.p < |xml| && Step(xml, parent, m) == Return(m')
    ensures m'.p == m.p && Run(xml, parent, m, line) == Returned(m.p, line, m'.events)
  {
    hide Step, Finish, NewLine, Advance, Resume, Wf;
  }

  lemma RunError(xml: string, parent: Parent, m: Local, line: nat, msg: string, skipped: nat)
    requires Wf(xml, m) && m.p < |xml| && Step(xml, parent, m) == Error(msg, skipped)
    ensures msg != "" && m.p + skipped <= |xml|
    ensures Run(xml, parent, m, line) == Failed(msg, m.p, m.p + skipped, line, m.events)
  {
    hide Step, Finish, NewLine, Advance, Resume, Wf;
  }

  /** The recursive call, and what follows when it returns. */
  lemma RunDescend(xml: string, parent: Parent, m: Local, line: nat) returns (inner: Outcome)
    requires Wf(xml, m) && m.p < |xml| && Step(xml, parent, m).Descend?
    ensures Wf(xml, Start(m.p, m.events)) && Rank(Start(m.p, m.events)) < Rank(m)
    ensures inner == Run(xml, Some(m.nodename), Start(m.p, m.events), line)
    ensures inner.Failed? ==> Run(xml, parent, m, line) == inner
    ensures inner.Returned? ==>
      && m.p <= inner.p < |xml| && Wf(xml, Resume(m, inner.p, inner.events))
      && Run(xml, parent, m, line)
         == Run(xml, parent, Resume(m, inner.p, inner.events), inner.line + NewLine(xml, inner.p + 1))
  {
    hide Step, Finish, NewLine, Advance, Resume, Start, Wf;
    StartWf(xml, m.p, m.events);
    inner := Run(xml, Some(m.nodename), Start(m.p, m.events), line);
  }

  lemma RunEnd(xml: string, parent: Parent, m: Local, line: nat)
    requires Wf(xml, m) && m.p == |xml|
    ensures Run(xml, parent, m, line) == Finish(xml, parent, m, line)
  {
    hide Step, Finish, NewLine, Advance, Resume, Wf;
  }

  /** parse_xml after the BOM has been skipped. */
  function Parse(xml: string): Outcome {
    Run(xml, None, Start(0, []), 0)
  }

  /** The parser as an object: the cursor and the line number the calls share, and the handler's log. */
  class Parser {
    const xml: string
    var lp: nat
    var line: nat
    var events: seq<Event>

    constructor (xml: string)
      ensures this.xml == xml && lp == 0 && line == 0 && events == []
    {
      this.xml, lp, line, events := xml, 0, 0, [];
    }

    /** do_parse_xml; an error message and the place it shows stand for the exception. */
    method DoParseXml(parent: Parent) returns (error: string, shown: nat)
      requires lp <= |xml|
      modifies this
      ensures match Run(xml, parent, Start(old(lp), old(events)), old(line))
        case Returned(p, line', events') =>
          error == "" && line == line' && events == events' && lp <= |xml| && (parent.Some? ==> lp == p)
        case Failed(msg, _, shown', line', events') =>
          error == msg != "" && shown == shown' && line == line' && events == events'
      decreases |xml| - lp, 1
    {
      hide Step, Rank, Finish, Run, NewLine, Advance, Resume, Sound, Wf, Start;
      StartWf(xml, lp, events);
      var m := Start(lp, events);
      ghost var goal := Run(xml, parent, m, line);
      while m.p < |xml|
        invariant Wf(xml, m) && old(lp) <= m.p && lp <= |xml|
        invariant m.p == old(lp) ==> Rank(m) <= 1
        invariant events == m.events
        invariant Run(xml, parent, m, line) == goal
        decreases |xml| - m.p, Rank(m)
      {
        var a := Step(xml, parent, m);
        match a
        case Continue(m') =>
          RunContinue(xml, parent, m, line, m');
          m := m';
        case Break(m') =>
          RunBreak(xml, parent, m, line, m');
          line := line + NewLine(xml, m'.p + 1);
          m := Advance(m');
          events := m.events;
        case Return(m') =>
          RunReturn(xml, parent, m, line, m');
          lp := m'.p;
          events := m'.events;
          return "", lp;
        case Error(msg, skipped) =>
          RunError(xml, parent, m, line, msg, skipped);
          return msg, m.p + skipped;
        case Descend(_) =>
          ghost var inner := RunDescend(xml, parent, m, line);
          StartWf(xml, m.p, m.events);
          lp := m.p;
          error, shown := DoParseXml(Some(m.nodename));
          if error != "" {
            return;
          }
          line := line + NewLine(xml, lp + 1);
          m := Resume(m, lp, events);
      }
      RunEnd(xml, parent, m, line);
      var end := Finish(xml, parent, m, line);
      events := end.events;
      return if end.Failed? then end.msg else "", m.p;
    }
  }

  lemma StartWf(xml: string, p: nat, events: seq<Event>)
    requires p <= |xml|
    ensures var m := Start(p, events); Wf(xml, m) && m.p == p && m.events == events && Rank(m) == 1
  {
  }

  // ----- the line number -----

  /** The newlines at positions lo, ..., hi - 1. */
  function NewLines(xml: string, lo: nat, hi: nat): nat
    requires hi <= |xml| + 1
  {
    if hi <= lo then 0 else NewLines(xml, lo, hi - 1) + NewLine(xml, hi - 1)
  }

  lemma {:induction false} NewLinesSplit(xml: string, lo: nat, mid: nat, hi: nat)
    requires lo <= mid <= hi <= |xml| + 1
    ensures NewLines(xml, lo, hi) == NewLines(xml, lo, mid) + NewLines(xml, mid, hi)
  {
    if mid < hi {
      NewLinesSplit(xml, lo, mid, hi - 1);
    }
  }

  function NewLineAt(xml: string, lo: nat, hi: nat): set<nat> {
    set i: nat | lo <= i < hi && i < |xml| && xml[i] == '\n'
  }

  /** They are counted one by one. */
  lemma {:induction false} NewLinesCount(xml: string, lo: nat, hi: nat)
    requires hi <= |xml| + 1
    ensures NewLines(xml, lo, hi) == |set i: nat | lo <= i < hi && i < |xml| && xml[i] == '\n'|
    decreases hi
  {
    if hi <= lo {
      assert NewLineAt(xml, lo, hi) == {};
    } else {
      NewLinesCount(xml, lo, hi - 1);
      var before := NewLineAt(xml, lo, hi - 1);
      if hi - 1 < |xml| && xml[hi - 1] == '\n' {
        assert NewLineAt(xml, lo, hi) == before + {hi - 1};
      } else {
        assert NewLineAt(xml, lo, hi) == before;
      }
    }
  }

  lemma {:induction false} SpelledOnOneLine(xml: string, i: nat, word: string, k: nat)
    requires i <= |xml| && '\0' !in word && '\n' !in word && Spells(xml, i, word)
    requires k <= |word|
    ensures i + k <= |xml| && NewLines(xml, i, i + k) == 0
    decreases k
  {
    if k > 0 {
      SpelledOnOneLine(xml, i, word, k - 1);
      SpelledAt(xml, i, word, k - 1);
    }
  }

  lemma {:induction false} SpelledAt(xml: string, i: nat, word: string, k: nat)
    requires i <= |xml| && '\0' !in word && Spells(xml, i, word) && k < |word|
    ensures i + k < |xml| && ToLower(xml[i + k]) == word[k]
    decreases k
  {
    if k > 0 {
      SpelledAt(xml, i + 1, word[1..], k - 1);
    }
  }

  lemma NoNewLines(xml: string, i: nat)
    requires i <= |xml| + 1
    ensures NewLines(xml, i, i) == 0
  {
  }

  lemma NewLinesOfOne(xml: string, i: nat)
    requires i <= |xml|
    ensures NewLines(xml, i, i) == 0 && NewLines(xml, i, i + 1) == NewLine(xml, i)
  {
  }

  lemma BangJump(xml: string, m: Local)
    requires Wf(xml, m) && m.p < |xml| && xml[m.p] == '!' && BeginBang(xml, m).Break?
    ensures var p, p' := m.p + 1, BeginBang(xml, m).m.p;
      && p < |xml| && xml[p] != '\n'
      && ((p' == p + 6 && Spells(xml, p + 1, if xml[p] == '[' then "cdata[" else "octype"))
          || (p' == p + 1 && xml[p + 1] == '-'))
  {
    hide Spells, Sound, Advance, ToLower;
  }

  lemma BangStaysOnLine(xml: string, m: Local)
    requires Wf(xml, m) && m.p < |xml| && xml[m.p] == '!' && BeginBang(xml, m).Break?
    ensures NewLines(xml, m.p + 1, BeginBang(xml, m).m.p + 1) == 0
  {
    hide NewLines, Spells, BeginBang;
    BangJump(xml, m);
    var p, p' := m.p + 1, BeginBang(xml, m).m.p;
    NewLinesOfOne(xml, p);
    if p' == p + 6 {
      SpelledOnOneLine(xml, p + 1, if xml[p] == '[' then "cdata[" else "octype", 6);
    } else {
      NewLinesOfOne(xml, p + 1);
    }
    NewLinesSplit(xml, p, p + 1, p' + 1);
  }

  lemma TextStaysOnLine(xml: string, m: Local)
    requires Wf(xml, m) && m.p < |xml| && m.state in {PcData, CData, Comment, Doctype, Header}
    requires StepText(xml, m).Break?
    ensures NewLines(xml, m.p + 1, StepText(xml, m).m.p + 1) == 0
  {
    hide NewLines, StepText;
    TextJump(xml, m);
    var p, p' := m.p + 1, StepText(xml, m).m.p;
    NoNewLines(xml, p);
    if p' > m.p {
      NewLinesOfOne(xml, p);
      NewLinesOfOne(xml, p');
      NewLinesSplit(xml, p, p', p' + 1);
    }
  }

  lemma TextJump(xml: string, m: Local)
    requires Wf(xml, m) && m.p < |xml| && m.state in {PcData, CData, Comment, Doctype, Header}
    requires StepText(xml, m).Break?
    ensures var p' := StepText(xml, m).m.p;
      p' > m.p ==> p' <= m.p + 2 && p' < |xml| && xml[p'] == '>' && (p' == m.p + 2 ==> xml[m.p + 1] != '\n')
  {
    hide Sound, Since;
  }

  /** The characters a pass jumps over are not newlines. */
  lemma StepStaysOnLine(xml: string, parent: Parent, m: Local)
    requires Wf(xml, m) && m.p < |xml|
    requires Step(xml, parent, m).Break?
    ensures m.p <= Step(xml, parent, m).m.p < |xml|
    ensures NewLines(xml, m.p + 1, Step(xml, parent, m).m.p + 1) == 0
  {
    hide Step, BeginBang, StepText, NewLines;
    StepCases(xml, parent, m);
    if m.state == BeginNode && xml[m.p] == '!' {
      BangStaysOnLine(xml, m);
    } else if m.state in {PcData, CData, Comment, Doctype, Header} {
      TextStaysOnLine(xml, m);
    } else {
      NoNewLines(xml, m.p + 1);
    }
  }

  lemma StepCases(xml: string, parent: Parent, m: Local)
    requires Wf(xml, m) && m.p < |xml|
    ensures m.state == BeginNode && xml[m.p] == '!' ==> Step(xml, parent, m) == BeginBang(xml, m)
    ensures m.state in {PcData, CData, Comment, Doctype, Header} ==> Step(xml, parent, m) == StepText(xml, m)
    ensures m.state !in {PcData, CData, Comment, Doctype, Header} && !(m.state == BeginNode && xml[m.p] == '!') ==>
      Step(xml, parent, m).Break? ==> Step(xml, parent, m).m.p == m.p
  {
    hide BeginBang, StepText, Sound;
  }

  /** The character a run was looking at when it ended. */
  function EndedAt(r: Outcome): nat {
    if r.Returned? then r.p else r.at
  }

  /**
   However the parser ends, returning or failing, and across every recursive call, the line number
   has grown by the newlines after the character it started on, up to and including the one it
   was looking at.
   */
  lemma {:induction false} LineCountsNewLines(xml: string, parent: Parent, m: Local, line: nat)
    requires Wf(xml, m)
    ensures var r := Run(xml, parent, m, line); r.line == line + NewLines(xml, m.p + 1, EndedAt(r) + 1)
    decreases |xml| - m.p, Rank(m)
  {
    hide Step, Finish, Rank, Run, NewLines, NewLine, Advance, Resume, Wf, Sound, Start;
    var r := Run(xml, parent, m, line);
    if m.p < |xml| {
      match Step(xml, parent, m)
      case Continue(m') =>
        RunContinue(xml, parent, m, line, m');
        LineCountsNewLines(xml, parent, m', line);
      case Break(m') =>
        RunBreak(xml, parent, m, line, m');
        StepStaysOnLine(xml, parent, m);
        LineCountsNewLines(xml, parent, Advance(m'), line + NewLine(xml, m'.p + 1));
        LineAcross(xml, m.p, m'.p, EndedAt(r));
      case Descend(_) =>
        var inner := RunDescend(xml, parent, m, line);
        StartWf(xml, m.p, m.events);
        LineCountsNewLines(xml, Some(m.nodename), Start(m.p, m.events), line);
        if inner.Returned? {
          LineCountsNewLines(xml, parent, Resume(m, inner.p, inner.events), inner.line + NewLine(xml, inner.p + 1));
          LineAcross(xml, m.p, inner.p, EndedAt(r));
        }
      case Return(m') =>
        RunReturn(xml, parent, m, line, m');
        NoNewLines(xml, m.p + 1);
      case Error(msg, skipped) =>
        RunError(xml, parent, m, line, msg, skipped);
        NoNewLines(xml, m.p + 1);
    } else {
      PositionInText(xml, m);
      RunEnd(xml, parent, m, line);
      NoNewLines(xml, m.p + 1);
    }
  }

  lemma PositionInText(xml: string, m: Local)
    requires Wf(xml, m)
    ensures m.p <= |xml|
  {
  }

  /** Where a message may show the text from: the character looked at, or after `![`. */
  predicate Shown(xml: string, at: nat, shown: nat) {
    at == shown || (shown == at + 2 <= |xml| && xml[at + 1] == '[')
  }

  lemma StepShows(xml: string, parent: Parent, m: Local)
    requires Wf(xml, m) && m.p < |xml| && Step(xml, parent, m).Error?
    ensures Shown(xml, m.p, m.p + Step(xml, parent, m).skipped)
  {
    StepCases(xml, parent, m);
  }

  lemma {:induction false} RunShows(xml: string, parent: Parent, m: Local, line: nat)
    requires Wf(xml, m)
    ensures var r := Run(xml, parent, m, line); r.Failed? ==> Shown(xml, r.at, r.shown)
    decreases |xml| - m.p, Rank(m)
  {
    hide Step, Finish, Rank, Run, NewLine, Shown, Advance, Resume, Wf, Sound, Start;
    if m.p < |xml| {
      match Step(xml, parent, m)
      case Continue(m') =>
        RunContinue(xml, parent, m, line, m');
        RunShows(xml, parent, m', line);
      case Break(m') =>
        RunBreak(xml, parent, m, line, m');
        RunShows(xml, parent, Advance(m'), line + NewLine(xml, m'.p + 1));
      case Descend(_) =>
        var inner := RunDescend(xml, parent, m, line);
        StartWf(xml, m.p, m.events);
        RunShows(xml, Some(m.nodename), Start(m.p, m.events), line);
        if inner.Returned? {
          RunShows(xml, parent, Resume(m, inner.p, inner.events), inner.line + NewLine(xml, inner.p + 1));
        }
      case Return(m') =>
        RunReturn(xml, parent, m, line, m');
      case Error(msg, skipped) =>
        RunError(xml, parent, m, line, msg, skipped);
        StepShows(xml, parent, m);
    } else {
      PositionInText(xml, m);
      RunEnd(xml, parent, m, line);
      ShowsHere(xml, m.p);
    }
  }

  lemma ShowsHere(xml: string, at: nat)
    ensures Shown(xml, at, at)
  {
  }

  /**
   The line in a message is that of the text it shows, except when `<![` is followed by a newline
   in place of CDATA: the cursor has been moved onto that newline, which has not been counted.
   */
  lemma LineOfShownText(xml: string)
    requires Parse(xml).Failed?
    ensures var r := Parse(xml);
      r.line == NewLines(xml, 1, r.shown + 1) <==> r.shown == r.at || CharAt(xml, r.shown) != '\n'
  {
    hide Run;
    var r := Parse(xml);
    LineCountsNewLines(xml, None, Start(0, []), 0);
    RunShows(xml, None, Start(0, []), 0);
    NewLinesSplit(xml, 1, r.at + 1, r.shown + 1);
    NoNewLines(xml, r.at + 1);
    if r.shown == r.at + 2 {
      NewLinesSplit(xml, r.at + 1, r.at + 2, r.shown + 1);
      NewLinesOfOne(xml, r.at + 1);
      NewLinesOfOne(xml, r.at + 2);
    }
  }

  /** On a text in which no `[` stands before a newline, the line is always that of the text shown. */
  lemma LineOfShownTextIn(xml: string)
    requires Parse(xml).Failed?
    requires forall i :: 0 <= i < |xml| - 1 ==> !(xml[i] == '[' && xml[i + 1] == '\n')
    ensures var r := Parse(xml); r.line == NewLines(xml, 1, r.shown + 1)
  {
    hide Run;
    LineOfShownText(xml);
    RunShows(xml, None, Start(0, []), 0);
  }

  /** Such a text: the message says line 0 of a text that begins on line 1. */
  lemma LineOfShownTextFails()
    ensures Parse("<![\n") == Failed("Expected <![CDATA[", 1, 3, 0, [])
    ensures NewLines("<![\n", 1, 4) == 1
  {
    hide Run, Step;
    var xml := "<![\n";
    var m0 := Start(0, []);
    var m1 := Skip(m0, BeginNode).(p := 1);
    var m2 := m1.(state := BeginNode);
    FirstPasses(xml, m0, m1);
    StepCases(xml, None, m2);
    assert !Spells(xml, 3, "cdata[");
    RunBreak(xml, None, m0, 0, Skip(m0, BeginNode));
    RunContinue(xml, None, m1, 0, m2);
    RunError(xml, None, m2, 0, "Expected <![CDATA[", 2);
    NewLinesSplit(xml, 1, 2, 4);
    NewLinesSplit(xml, 2, 3, 4);
    NewLinesOfOne(xml, 1);
    NewLinesOfOne(xml, 2);
    NewLinesOfOne(xml, 3);
  }

  lemma FirstPasses(xml: string, m0: Local, m1: Local)
    requires xml == "<![\n" && m0 == Start(0, []) && m1 == Skip(m0, BeginNode).(p := 1)
    ensures Step(xml, None, m0) == Break(Skip(m0, BeginNode))
    ensures Step(xml, None, m1) == Continue(m1.(state := BeginNode))
  {
    hide BeginBang, StepText, StepName;
  }

  lemma LineAcross(xml: string, from: nat, mid: nat, end: nat)
    requires from <= mid < end <= |xml|
    ensures NewLines(xml, from + 1, end + 1)
         == NewLines(xml, from + 1, mid + 1) + NewLine(xml, mid + 1) + NewLines(xml, mid + 2, end + 1)
  {
    NewLinesSplit(xml, from + 1, mid + 1, end + 1);
    NewLinesSplit(xml, mid + 1, mid + 2, end + 1);
    NewLinesOfOne(xml, mid + 1);
  }
}
