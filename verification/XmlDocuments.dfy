/**
 What the parser of std/cpp/NativeXmlImport.cpp does with the text of any XML tree, at any depth and
 with any spacing: it accepts it and reports exactly the events of that tree.
 */
module XmlDocuments {
  import opened XmlParser
  import opened XmlGrammar
  import opened Sequences

  // ----- single passes -----

  predicate Ready(xml: string, m: Local) {
    Wf(xml, m) && m.p < |xml|
  }

  lemma OnContinue(xml: string, parent: Parent, m: Local, line: nat, m': Local)
    requires Ready(xml, m) && Step(xml, parent, m) == Continue(m')
    ensures Wf(xml, m') && Run(xml, parent, m, line) == Run(xml, parent, m', line)
  {
    hide Run, Step, Rank;
    RunContinue(xml, parent, m, line, m');
  }

  lemma OnBreak(xml: string, parent: Parent, m: Local, line: nat, m': Local) returns (line': nat)
    requires Ready(xml, m) && Step(xml, parent, m) == Break(m')
    ensures m'.p < |xml| && line' == line + NewLine(xml, m'.p + 1)
    ensures Wf(xml, m'.(p := m'.p + 1)) && Run(xml, parent, m, line) == Run(xml, parent, m'.(p := m'.p + 1), line')
  {
    hide Run, Step, Rank;
    RunBreak(xml, parent, m, line, m');
    line' := line + NewLine(xml, m'.p + 1);
  }

  lemma PassSkip(xml: string, parent: Parent, m: Local, line: nat)
    requires Ready(xml, m) && m.state == IgnoreSpaces && !IsSpace(xml[m.p])
    ensures Wf(xml, m.(state := m.next))
    ensures Run(xml, parent, m, line) == Run(xml, parent, m.(state := m.next), line)
  {
    hide Run, BeginBang, StepText, StepName, Rank;
    OnContinue(xml, parent, m, line, Step(xml, parent, m).m);
  }

  /** A pass that stays in its state and moves on. */
  predicate Stays(xml: string, parent: Parent, m: Local, q: nat) {
    Ready(xml, m.(p := q)) && Step(xml, parent, m.(p := q)) == Break(m.(p := q))
  }

  lemma {:induction false} Scan(xml: string, parent: Parent, m: Local, line: nat, end: nat) returns (line': nat)
    requires Wf(xml, m) && m.p <= end <= |xml|
    requires forall q :: m.p <= q < end ==> Stays(xml, parent, m, q)
    ensures Wf(xml, m.(p := end))
    ensures Run(xml, parent, m, line) == Run(xml, parent, m.(p := end), line')
    decreases end - m.p
  {
    hide Step, Run;
    if m.p == end {
      line' := line;
    } else {
      var m1 := m.(p := m.p + 1);
      assert Stays(xml, parent, m, m.p);
      RunBreak(xml, parent, m, line, m);
      forall q | m1.p <= q < end
        ensures Stays(xml, parent, m1, q)
      {
        assert Stays(xml, parent, m, q);
      }
      line' := Scan(xml, parent, m1, line + NewLine(xml, m.p + 1), end);
    }
  }

  /** Spaces, up to a character that the state that comes next looks at. */
  lemma SkipSpaces(xml: string, parent: Parent, m: Local, line: nat, b: nat) returns (line': nat)
    requires Wf(xml, m) && m.state == IgnoreSpaces
    requires Spaces(xml, m.p, b) && b < |xml| && !IsSpace(xml[b])
    ensures var m' := m.(state := m.next, p := b);
      Wf(xml, m') && Run(xml, parent, m, line) == Run(xml, parent, m', line')
  {
    hide Run, BeginBang, StepText, StepName, Rank;
    forall q | m.p <= q < b
      ensures Stays(xml, parent, m, q)
    {
      assert IsSpace(xml[q]);
    }
    line' := Scan(xml, parent, m, line, b);
    PassSkip(xml, parent, m.(p := b), line');
  }

  /** The characters of a name are collected up to the first other character. */
  lemma ScanName(xml: string, parent: Parent, m: Local, line: nat, name: string) returns (line': nat)
    requires Wf(xml, m) && m.state in {TagName, AttribName, Close}
    requires StandsAt(xml, m.p, name) && ValidName(name)
    ensures Wf(xml, m.(p := m.p + |name|))
    ensures Run(xml, parent, m, line) == Run(xml, parent, m.(p := m.p + |name|), line')
  {
    hide Run;
    forall q | m.p <= q < m.p + |name|
      ensures Stays(xml, parent, m, q)
    {
      StandsChar(xml, m.p, name, q - m.p);
    }
    line' := Scan(xml, parent, m, line, m.p + |name|);
  }

  /** Behind spaces stands a character that is not part of a name; so there is none of a name here. */
  lemma NameEnds(xml: string, i: nat, j: nat)
    requires Spaces(xml, i, j) && j < |xml| && !IsValidChar(xml[j])
    ensures i < |xml| && !IsValidChar(xml[i])
  {
  }

  // ----- attributes -----

  lemma PassToAttrib(xml: string, parent: Parent, m: Local, line: nat)
    requires Ready(xml, m) && m.state == Body && IsValidChar(xml[m.p])
    ensures var m' := m.(state := AttribName, start := m.p);
      Wf(xml, m') && Run(xml, parent, m, line) == Run(xml, parent, m', line)
  {
    hide Run, BeginBang, StepText, StepName, Rank;
    OnContinue(xml, parent, m, line, Step(xml, parent, m).m);
  }

  lemma PassAttribName(xml: string, parent: Parent, m: Local, line: nat)
    requires Ready(xml, m) && m.state == AttribName && m.start < m.p
    requires !IsValidChar(xml[m.p]) && Since(xml, m) !in m.attribs
    ensures var m' := Skip(m.(aname := Since(xml, m)), Equals);
      Wf(xml, m') && Run(xml, parent, m, line) == Run(xml, parent, m', line)
  {
    hide Run, BeginBang, StepText, Rank;
    OnContinue(xml, parent, m, line, Step(xml, parent, m).m);
  }

  lemma PassEquals(xml: string, parent: Parent, m: Local, line: nat) returns (line': nat)
    requires Ready(xml, m) && m.state == Equals && xml[m.p] == '='
    ensures var m' := Skip(m.(p := m.p + 1), AttvalBegin);
      Wf(xml, m') && Run(xml, parent, m, line) == Run(xml, parent, m', line')
  {
    hide Run, BeginBang, StepText, StepName, Rank;
    line' := OnBreak(xml, parent, m, line, Step(xml, parent, m).m);
  }

  lemma PassQuote(xml: string, parent: Parent, m: Local, line: nat) returns (line': nat)
    requires Ready(xml, m) && m.state == AttvalBegin && (xml[m.p] == '"' || xml[m.p] == '\'')
    ensures var m' := m.(state := AttribVal, start := m.p, p := m.p + 1);
      Wf(xml, m') && Run(xml, parent, m, line) == Run(xml, parent, m', line')
  {
    hide Run, BeginBang, StepText, StepName, Rank;
    line' := OnBreak(xml, parent, m, line, Step(xml, parent, m).m);
  }

  /** The value, and the closing quote. */
  lemma PassValue(xml: string, parent: Parent, m: Local, line: nat, value: string, quote: char) returns (line': nat)
    requires Wf(xml, m) && m.state == AttribVal && m.start + 1 == m.p && xml[m.start] == quote
    requires StandsAt(xml, m.p, value + [quote]) && quote !in value
    ensures var m' := Skip(m.(attribs := m.attribs[m.aname := value], p := m.p + |value| + 1), Body);
      Wf(xml, m') && Run(xml, parent, m, line) == Run(xml, parent, m', line')
  {
    hide Run, BeginBang, StepText, StepName, Rank;
    StandsSplit(xml, m.p, value, [quote]);
    forall q | m.p <= q < m.p + |value|
      ensures Stays(xml, parent, m, q)
    {
      StandsChar(xml, m.p, value, q - m.p);
    }
    var line1 := Scan(xml, parent, m, line, m.p + |value|);
    StandsChar(xml, m.p + |value|, [quote], 0);
    var m1 := m.(p := m.p + |value|);
    line' := OnBreak(xml, parent, m1, line1, Step(xml, parent, m1).m);
  }

  /** From the opening quote of an attribute to behind the closing one. */
  lemma ParseAttrValue(xml: string, parent: Parent, m: Local, line: nat, a: Attr) returns (m': Local, line': nat)
    requires Wf(xml, m) && m.state == AttvalBegin && ValidAttr(a)
    requires StandsAt(xml, m.p, [a.quote] + a.value + [a.quote])
    ensures m' == m.(state := IgnoreSpaces, next := Body, start := m.p, p := m.p + |a.value| + 2,
                     attribs := m.attribs[m.aname := a.value])
    ensures Wf(xml, m') && Run(xml, parent, m, line) == Run(xml, parent, m', line')
  {
    hide Run, Step, Rank, StandsAt;
    assert [a.quote] + a.value + [a.quote] == [a.quote] + (a.value + [a.quote]);
    StandsSplit(xml, m.p, [a.quote], a.value + [a.quote]);
    StandsChar(xml, m.p, [a.quote], 0);
    line' := PassQuote(xml, parent, m, line);
    var m1 := m.(state := AttribVal, start := m.p, p := m.p + 1);
    line' := PassValue(xml, parent, m1, line', a.value, a.quote);
    m' := Skip(m1.(attribs := m1.attribs[m1.aname := a.value], p := m1.p + |a.value| + 1), Body);
  }

  /** From the spaces before an attribute to its opening quote. */
  lemma ParseAttrName(xml: string, parent: Parent, m: Local, line: nat, s: nat, e: nat, q: nat, j: nat, a: Attr)
    returns (m': Local, line': nat)
    requires Wf(xml, m) && m.state == IgnoreSpaces && m.next == Body
    requires AttrParts(xml, m.p, s, e, q, j, a) && ValidAttr(a) && a.name !in m.attribs
    ensures m' == m.(state := AttvalBegin, next := AttvalBegin, aname := a.name, start := s, p := q)
    ensures Wf(xml, m') && Run(xml, parent, m, line) == Run(xml, parent, m', line')
  {
    hide Run, Step, Rank, StandsAt, Spaces, IsSpace, IsValidChar, Wf;
    AttrChars(xml, m.p, s, e, q, j, a);
    line' := SkipSpaces(xml, parent, m, line, s);
    var m1 := m.(state := Body, p := s);
    PassToAttrib(xml, parent, m1, line');
    var m2 := m1.(state := AttribName, start := s);
    line' := ScanName(xml, parent, m2, line', a.name);
    var m3 := m2.(p := s + |a.name|);
    PassAttribName(xml, parent, m3, line');
    var m4 := Skip(m3.(aname := a.name), Equals);
    line' := SkipSpaces(xml, parent, m4, line', e);
    var m5 := m4.(state := Equals, p := e);
    line' := PassEquals(xml, parent, m5, line');
    var m6 := Skip(m5.(p := e + 1), AttvalBegin);
    line' := SkipSpaces(xml, parent, m6, line', q);
    m' := m6.(state := AttvalBegin, p := q);
  }

  lemma AttrChars(xml: string, i: nat, s: nat, e: nat, q: nat, j: nat, a: Attr)
    requires AttrParts(xml, i, s, e, q, j, a) && ValidAttr(a)
    ensures i <= s && s + |a.name| <= e < q < |xml|
    ensures IsValidChar(xml[s]) && !IsSpace(xml[s]) && !IsValidChar(xml[s + |a.name|])
    ensures xml[s..s + |a.name|] == a.name && xml[e] == '=' && !IsSpace(xml[e]) && !IsSpace(xml[q])
  {
    StandsChar(xml, s, a.name, 0);
    StandsChar(xml, q, [a.quote] + a.value + [a.quote], 0);
    NameEnds(xml, s + |a.name|, e);
  }

  lemma ParseAttr(xml: string, parent: Parent, m: Local, line: nat, j: nat, a: Attr) returns (m': Local, line': nat)
    requires Wf(xml, m) && m.state == IgnoreSpaces && m.next == Body
    requires AttrAt(xml, m.p, j, a) && ValidAttr(a) && a.name !in m.attribs
    ensures m' == m.(attribs := m.attribs[a.name := a.value], p := j, aname := m'.aname, start := m'.start)
    ensures Wf(xml, m') && Run(xml, parent, m, line) == Run(xml, parent, m', line')
  {
    hide Run, Step, Rank, StandsAt, ValidAttr, Spaces;
    var s, e, q :| AttrParts(xml, m.p, s, e, q, j, a);
    var m1, line1 := ParseAttrName(xml, parent, m, line, s, e, q, j, a);
    m', line' := ParseAttrValue(xml, parent, m1, line1, a);
  }

  lemma {:induction false} ParseAttrs(xml: string, parent: Parent, m: Local, line: nat, j: nat, attrs: seq<Attr>)
    returns (m': Local, line': nat)
    requires Wf(xml, m) && m.state == IgnoreSpaces && m.next == Body && m.attribs == map[]
    requires AttrsAt(xml, m.p, j, attrs) && ValidAttrs(attrs)
    ensures m' == m.(attribs := AttrMap(attrs), p := j, aname := m'.aname, start := m'.start)
    ensures Wf(xml, m') && Run(xml, parent, m, line) == Run(xml, parent, m', line')
    decreases |attrs|
  {
    hide Run, Step, Rank, AttrAt, Wf;
    if attrs == [] {
      m', line' := m, line;
    } else {
      var n := |attrs| - 1;
      var k: nat :| AttrsAt(xml, m.p, k, attrs[..n]) && AttrAt(xml, k, j, attrs[n]);
      var m1, line1 := ParseAttrs(xml, parent, m, line, k, attrs[..n]);
      AttrMapKeys(attrs[..n]);
      m', line' := ParseAttr(xml, parent, m1, line1, j, attrs[n]);
    }
  }

  lemma {:induction false} AttrMapKeys(attrs: seq<Attr>)
    ensures forall name :: name in AttrMap(attrs) ==> exists j :: 0 <= j < |attrs| && attrs[j].name == name
  {
    if attrs != [] {
      var init := attrs[..|attrs| - 1];
      AttrMapKeys(init);
      forall name | name in AttrMap(attrs)
        ensures exists j :: 0 <= j < |attrs| && attrs[j].name == name
      {
        if name in AttrMap(init) {
          var j :| 0 <= j < |init| && init[j].name == name;
          assert attrs[j].name == name;
        } else {
          assert attrs[|attrs| - 1].name == name;
        }
      }
    }
  }

  // ----- tags -----

  /** From `<` over spaces. */
  lemma PassLead(xml: string, parent: Parent, m: Local, line: nat, b: nat) returns (line': nat)
    requires Wf(xml, m) && m.state == Begin && Lead(xml, m.p, b) && b < |xml| && !IsSpace(xml[b])
    ensures var m' := m.(state := BeginNode, next := BeginNode, p := b);
      Wf(xml, m') && Run(xml, parent, m, line) == Run(xml, parent, m', line')
  {
    hide Run, BeginBang, StepText, StepName, Rank, Spaces;
    line' := OnBreak(xml, parent, m, line, Step(xml, parent, m).m);
    line' := SkipSpaces(xml, parent, Skip(m.(p := m.p + 1), BeginNode), line', b);
  }

  lemma PassTagStart(xml: string, parent: Parent, m: Local, line: nat)
    requires Ready(xml, m) && m.state == BeginNode && IsValidChar(xml[m.p])
    ensures var m' := m.(state := TagName, start := m.p);
      Wf(xml, m') && Run(xml, parent, m, line) == Run(xml, parent, m', line)
  {
    hide Run, BeginBang, StepText, StepName, Rank;
    OnContinue(xml, parent, m, line, Step(xml, parent, m).m);
  }

  lemma PassTagEnd(xml: string, parent: Parent, m: Local, line: nat)
    requires Ready(xml, m) && m.state == TagName && m.start < m.p && !IsValidChar(xml[m.p])
    ensures var m' := Skip(m.(nodename := Since(xml, m), attribs := map[]), Body);
      Wf(xml, m') && Run(xml, parent, m, line) == Run(xml, parent, m', line)
  {
    hide Run, BeginBang, StepText, Rank;
    OnContinue(xml, parent, m, line, Step(xml, parent, m).m);
  }

  /** From `<` to the end of the name. */
  lemma ReadTagName(xml: string, parent: Parent, m: Local, line: nat, b: nat, name: string)
    returns (m': Local, line': nat)
    requires Wf(xml, m) && m.state == Begin && Lead(xml, m.p, b) && ValidName(name)
    requires StandsAt(xml, b, name) && b + |name| < |xml| && !IsValidChar(xml[b + |name|])
    ensures m' == m.(state := IgnoreSpaces, next := Body, nodename := name, attribs := map[],
                     start := b, p := b + |name|)
    ensures Wf(xml, m') && Run(xml, parent, m, line) == Run(xml, parent, m', line')
  {
    hide Run, Step, Rank, StandsAt, IsValidChar, IsSpace, Wf, Lead;
    NameStarts(xml, b, name);
    line' := PassLead(xml, parent, m, line, b);
    var m1 := m.(state := BeginNode, next := BeginNode, p := b);
    PassTagStart(xml, parent, m1, line');
    var m2 := m1.(state := TagName, start := b);
    line' := ScanName(xml, parent, m2, line', name);
    var m3 := m2.(p := b + |name|);
    PassTagEnd(xml, parent, m3, line');
    m' := Skip(m3.(nodename := name, attribs := map[]), Body);
  }

  lemma NameStarts(xml: string, b: nat, name: string)
    requires StandsAt(xml, b, name) && ValidName(name)
    ensures b < |xml| && IsValidChar(xml[b]) && !IsSpace(xml[b])
    ensures b + |name| <= |xml| && xml[b..b + |name|] == name && name != ""
  {
    StandsChar(xml, b, name, 0);
  }

  /** From `<` over the name and the attributes up to the `>` or `/` that ends the tag. */
  lemma ReadOpenTag(xml: string, parent: Parent, m: Local, line: nat, j: nat, name: string, attrs: seq<Attr>)
    returns (m': Local, line': nat)
    requires Wf(xml, m) && m.state == Begin && ValidName(name) && ValidAttrs(attrs)
    requires OpenTagAt(xml, m.p, j, name, attrs) && (Is(xml, j, '>') || Is(xml, j, '/'))
    ensures m' == m.(state := Body, next := Body, nodename := name, attribs := AttrMap(attrs),
                     p := j, aname := m'.aname, start := m'.start)
    ensures Wf(xml, m') && Run(xml, parent, m, line) == Run(xml, parent, m', line')
  {
    hide Run, Step, Rank, StandsAt, AttrsAt, AttrMap, ValidName, IsValidChar, Wf, ValidAttrs, Lead, Spaces;
    var k: nat :| TagAt(xml, m.p, k, name, attrs) && Spaces(xml, k, j);
    var b: nat :| TagParts(xml, m.p, b, k, name, attrs);
    var m1;
    m1, line' := ReadTagName(xml, parent, m, line, b, name);
    m', line' := ParseAttrs(xml, parent, m1, line', k, attrs);
    line' := SkipSpaces(xml, parent, m', line', j);
    m' := m'.(state := Body, p := j);
  }

  lemma SlashStep(xml: string, parent: Parent, m: Local)
    requires Ready(xml, m) && m.state == BeginNode && xml[m.p] == '/' && parent.Some? && parent.name != ""
    ensures Step(xml, parent, m) == Break(Skip(m.(start := m.p + 1), Close))
  {
    hide Sound, BeginBang, StepText, StepName;
  }

  lemma PassSlash(xml: string, parent: Parent, m: Local, line: nat) returns (line': nat)
    requires Ready(xml, m) && m.state == BeginNode && xml[m.p] == '/' && parent.Some? && parent.name != ""
    requires m.p + 1 < |xml| && !IsSpace(xml[m.p + 1])
    ensures var m' := m.(state := Close, next := Close, start := m.p + 1, p := m.p + 1);
      Wf(xml, m') && Run(xml, parent, m, line) == Run(xml, parent, m', line')
  {
    hide Run, Step, Rank;
    SlashStep(xml, parent, m);
    line' := OnBreak(xml, parent, m, line, Skip(m.(start := m.p + 1), Close));
    PassSkip(xml, parent, Skip(m.(start := m.p + 1, p := m.p + 1), Close), line');
  }

  lemma PassCloseName(xml: string, parent: Parent, m: Local, line: nat)
    requires Ready(xml, m) && m.state == Close && m.start < m.p && !IsValidChar(xml[m.p])
    requires parent.Some? && EqualIgnoringCase(parent.name, Since(xml, m))
    ensures var m' := Skip(m, WaitEndRet);
      Wf(xml, m') && Run(xml, parent, m, line) == Run(xml, parent, m', line)
  {
    hide Run, BeginBang, StepText, StepName, Rank, EqualIgnoringCase;
    OnContinue(xml, parent, m, line, Step(xml, parent, m).m);
  }

  lemma PassReturn(xml: string, parent: Parent, m: Local, line: nat)
    requires Ready(xml, m) && m.state == WaitEndRet && xml[m.p] == '>'
    ensures Run(xml, parent, m, line)
         == Returned(m.p, line, m.events + if m.nsubs == 0 then [OnPcData("")] else [])
  {
    hide Run, BeginBang, StepText, StepName, Rank;
    RunReturn(xml, parent, m, line, Step(xml, parent, m).m);
    assert m.events + [] == m.events;
  }

  lemma CloseChars(xml: string, i: nat, b: nat, j: nat, name: string)
    requires CloseParts(xml, i, b, j, name) && ValidName(name)
    ensures b + 1 + |name| < j <= |xml| && xml[b] == '/' && !IsSpace(xml[b])
    ensures var word := xml[b + 1..b + 1 + |name|];
      ValidName(word) && StandsAt(xml, b + 1, word) && EqualIgnoringCase(name, word)
    ensures IsValidChar(xml[b + 1]) && !IsSpace(xml[b + 1]) && !IsValidChar(xml[b + 1 + |name|])
    ensures xml[j - 1] == '>' && !IsSpace(xml[j - 1])
  {
    var word := xml[b + 1..b + 1 + |name|];
    forall k | 0 <= k < |word|
      ensures IsValidChar(word[k])
    {
      assert ToLower(name[k]) == ToLower(word[k]);
      SameCase(name[k], word[k]);
    }
    assert word[0] == xml[b + 1];
    NameEnds(xml, b + 1 + |name|, j - 1);
  }

  lemma SameCase(c: char, d: char)
    requires IsValidChar(c) && ToLower(c) == ToLower(d)
    ensures IsValidChar(d)
  {
  }

  /** A closing tag of the right name, in any case, returns from the call made for its element. */
  lemma ReadCloseTag(xml: string, m: Local, line: nat, j: nat, name: string) returns (line': nat)
    requires Wf(xml, m) && m.state == Begin && ValidName(name) && CloseTagAt(xml, m.p, j, name)
    ensures j > 0
    ensures Run(xml, Some(name), m, line)
         == Returned(j - 1, line', m.events + if m.nsubs == 0 then [OnPcData("")] else [])
  {
    hide Run, StandsAt, Step, Rank, IsValidChar, Wf, IsSpace, Spaces, EqualIgnoringCase;
    var b: nat :| CloseParts(xml, m.p, b, j, name);
    var parent, q := Some(name), b + 1 + |name|;
    var word := xml[b + 1..q];
    CloseChars(xml, m.p, b, j, name);
    line' := PassLead(xml, parent, m, line, b);
    var m1 := m.(state := BeginNode, next := BeginNode, p := b);
    line' := PassSlash(xml, parent, m1, line');
    var m2 := m1.(state := Close, next := Close, start := b + 1, p := b + 1);
    line' := ScanName(xml, parent, m2, line', word);
    var m3 := m2.(p := q);
    PassCloseName(xml, parent, m3, line');
    line' := SkipSpaces(xml, parent, Skip(m3, WaitEndRet), line', j - 1);
    PassReturn(xml, parent, m3.(state := WaitEndRet, next := WaitEndRet, p := j - 1), line');
  }

  // ----- nodes -----

  /** The parser is at j, where a node may begin, having reported `trace` and counted `count`. */
  ghost predicate After(m: Local, m': Local, j: nat, trace: seq<Event>, count: nat) {
    && m'.state == Begin
    && m'.nbrackets == 0
    && m'.p == j
    && m'.events == m.events + trace
    && m'.nsubs == m.nsubs + count
  }

  lemma ParseEmptyElement(xml: string, parent: Parent, m: Local, line: nat, j: nat, n: Node)
    returns (m': Local, line': nat)
    requires Wf(xml, m) && m.state == Begin && m.nbrackets == 0
    requires n.EmptyElement? && ValidNode(n) && NodeAt(xml, m.p, j, n)
    ensures After(m, m', j, Trace(n), 1)
    ensures Wf(xml, m') && Run(xml, parent, m, line) == Run(xml, parent, m', line')
  {
    hide Run, Step, Rank, OpenTagAt, AttrMap, ValidName, ValidAttrs;
    var m1;
    m1, line' := ReadOpenTag(xml, parent, m, line, j - 2, n.name, n.attrs);
    line' := PassSelfClose(xml, parent, m1, line');
    m' := m1.(state := Begin, nsubs := m1.nsubs + 1, p := m1.p + 2,
              events := m1.events + [OnXml(m1.nodename, m1.attribs), OnDone]);
  }

  lemma PassSelfClose(xml: string, parent: Parent, m: Local, line: nat) returns (line': nat)
    requires Ready(xml, m) && m.state == Body && xml[m.p] == '/' && m.p + 1 < |xml| && xml[m.p + 1] == '>'
    ensures var m' := m.(state := Begin, nsubs := m.nsubs + 1, p := m.p + 2,
                         events := m.events + [OnXml(m.nodename, m.attribs), OnDone]);
      Wf(xml, m') && Run(xml, parent, m, line) == Run(xml, parent, m', line')
  {
    hide Run, Step;
    line' := PassBody(xml, parent, m, line);
    var m1 := Emit(m, OnXml(m.nodename, m.attribs)).(nsubs := m.nsubs + 1, state := WaitEnd, p := m.p + 1);
    line' := PassDone(xml, parent, m1, line');
    assert (m.events + [OnXml(m.nodename, m.attribs)]) + [OnDone] == m.events + [OnXml(m.nodename, m.attribs), OnDone];
  }

  /** The `/` or `>` after the attributes reports the element. */
  lemma PassBody(xml: string, parent: Parent, m: Local, line: nat) returns (line': nat)
    requires Ready(xml, m) && m.state == Body && (xml[m.p] == '/' || xml[m.p] == '>')
    ensures var m' := Emit(m, OnXml(m.nodename, m.attribs)).(nsubs := m.nsubs + 1, p := m.p + 1,
                          state := if xml[m.p] == '/' then WaitEnd else Childs);
      Wf(xml, m') && Run(xml, parent, m, line) == Run(xml, parent, m', line')
  {
    hide Run, BeginBang, StepText, StepName, Rank;
    line' := OnBreak(xml, parent, m, line, Step(xml, parent, m).m);
  }

  lemma PassDone(xml: string, parent: Parent, m: Local, line: nat) returns (line': nat)
    requires Ready(xml, m) && m.state == WaitEnd && xml[m.p] == '>'
    ensures var m' := Emit(m, OnDone).(state := Begin, p := m.p + 1);
      Wf(xml, m') && Run(xml, parent, m, line) == Run(xml, parent, m', line')
  {
    hide Run, BeginBang, StepText, StepName, Rank;
    line' := OnBreak(xml, parent, m, line, Step(xml, parent, m).m);
  }

  // ----- text with a terminator -----

  /** A terminator of two equal characters and `>` does not begin inside text that is free of it. */
  lemma NotYet(xml: string, p: nat, text: string, d: char, q: nat)
    requires d != '>' && StandsAt(xml, p, text + [d, d, '>']) && Free(text, [d, d, '>'])
    requires p <= q < p + |text|
    ensures q + 2 < |xml| && !(xml[q] == d && xml[q + 1] == d && xml[q + 2] == '>')
  {
    var i, all := q - p, text + [d, d, '>'];
    StandsChar(xml, p, all, i);
    StandsChar(xml, p, all, i + 1);
    StandsChar(xml, p, all, i + 2);
    assert !StandsAt(text, i, [d, d, '>']);
    StandsThree(text, i, d);
  }

  lemma StandsThree(s: string, i: nat, d: char)
    ensures StandsAt(s, i, [d, d, '>']) <==> i + 3 <= |s| && s[i] == d && s[i + 1] == d && s[i + 2] == '>'
  {
    if i + 3 <= |s| {
      assert s[i..i + 3] == [s[i], s[i + 1], s[i + 2]];
    }
  }

  /** CDATA and comments: from the first character of the text to behind the terminator. */
  lemma ParseUntil(xml: string, parent: Parent, m: Local, line: nat, text: string, d: char) returns (line': nat)
    requires Wf(xml, m) && m.start == m.p
    requires (m.state == CData && d == ']') || (m.state == Comment && d == '-')
    requires StandsAt(xml, m.p, text + [d, d, '>']) && Free(text, [d, d, '>'])
    ensures var m' := m.(state := Begin, p := m.p + |text| + 3,
                         events := m.events + [if m.state == CData then OnCData(text) else OnComment(text)],
                         nsubs := m.nsubs + if m.state == CData then 1 else 0);
      Wf(xml, m') && Run(xml, parent, m, line) == Run(xml, parent, m', line')
  {
    hide Run, Step, Rank, StandsAt, Free;
    var all := text + [d, d, '>'];
    forall q | m.p <= q < m.p + |text|
      ensures Stays(xml, parent, m, q)
    {
      NotYet(xml, m.p, text, d, q);
      StepCases(xml, parent, m.(p := q));
    }
    StandsSplit(xml, m.p, text, [d, d, '>']);
    StandsSlice(xml, m.p, text);
    line' := Scan(xml, parent, m, line, m.p + |text|);
    line' := PassTerminator(xml, parent, m.(p := m.p + |text|), line', d);
  }

  lemma PassTerminator(xml: string, parent: Parent, m: Local, line: nat, d: char) returns (line': nat)
    requires Wf(xml, m) && StandsAt(xml, m.p, [d, d, '>'])
    requires (m.state == CData && d == ']') || (m.state == Comment && d == '-')
    ensures var m' := m.(state := Begin, p := m.p + 3,
                         events := m.events +
                           [if m.state == CData then OnCData(Since(xml, m)) else OnComment(Since(xml, m))],
                         nsubs := m.nsubs + if m.state == CData then 1 else 0);
      Wf(xml, m') && Run(xml, parent, m, line) == Run(xml, parent, m', line')
  {
    hide Run, Step, StepText, Rank, Sound, StandsAt, Since, NewLine;
    ThreeInside(xml, m.p, d);
    MarkedStep(xml, m, d, [d, d, '>']);
    StepCases(xml, parent, m);
    line' := OnBreak(xml, parent, m, line, StepText(xml, m).m);
  }

  lemma ThreeInside(s: string, i: nat, d: char)
    requires StandsAt(s, i, [d, d, '>'])
    ensures i + 3 <= |s|
  {
  }

  /** A pass inside a CDATA section or a comment. */
  lemma MarkedStep(xml: string, m: Local, d: char, word: string)
    requires Ready(xml, m) && m.state in {CData, Comment}
    requires d == (if m.state == CData then ']' else '-') && word == [d, d, '>']
    ensures StepText(xml, m)
         == if !StandsAt(xml, m.p, word) then Break(m)
            else if m.state == CData then
              Break(Emit(m, OnCData(Since(xml, m))).(nsubs := m.nsubs + 1, p := m.p + 2, state := Begin))
            else Break(Emit(m, OnComment(Since(xml, m))).(p := m.p + 2, state := Begin))
  {
    hide StandsAt, Sound, Since, Skip;
    StandsThree(xml, m.p, d);
  }

  lemma MarkupChars(xml: string, i: nat, j: nat, n: Node) returns (b: nat)
    requires IsMarkup(n) && NodeAt(xml, i, j, n)
    ensures Lead(xml, i, b) && MarkupAt(xml, b, j, n)
    ensures b < |xml| && (xml[b] == '!' || xml[b] == '?') && !IsSpace(xml[b])
  {
    hide Lead, StandsAt, Spells;
    b :| Lead(xml, i, b) && MarkupAt(xml, b, j, n);
  }

  lemma ParseSection(xml: string, parent: Parent, m: Local, line: nat, j: nat, n: Node) returns (m': Local, line': nat)
    requires Wf(xml, m) && m.state == Begin && m.nbrackets == 0
    requires n.Section? && ValidNode(n) && NodeAt(xml, m.p, j, n)
    ensures After(m, m', j, Trace(n), 1)
    ensures Wf(xml, m') && Run(xml, parent, m, line) == Run(xml, parent, m', line')
  {
    hide Run, Step, Rank, StandsAt, Spells, Free, NodeAt, Lead, IsSpace, Wf, StepText, BeginBang;
    var b := MarkupChars(xml, m.p, j, n);
    StandsChar(xml, b + 8, n.text + "]]>", 0);
    line' := PassLead(xml, parent, m, line, b);
    var m1 := m.(state := BeginNode, next := BeginNode, p := b);
    line' := PassBang(xml, parent, m1, line', CData, 7);
    var m2 := m1.(state := CData, start := b + 8, p := b + 8);
    line' := ParseUntil(xml, parent, m2, line', n.text, ']');
    m' := m2.(state := Begin, p := j, events := m2.events + [OnCData(n.text)], nsubs := m2.nsubs + 1);
  }

  /** `<!` has been recognised as the start of a section, a document type or a comment. */
  lemma PassBang(xml: string, parent: Parent, m: Local, line: nat, s: State, skip: nat) returns (line': nat)
    requires Ready(xml, m) && m.state == BeginNode && xml[m.p] == '!' && m.p + skip < |xml|
    requires
      || (s == CData && skip == 7 && xml[m.p + 1] == '[' && Spells(xml, m.p + 2, "cdata["))
      || (s == Doctype && skip == 7 && Spells(xml, m.p + 1, "doctype"))
      || (s == Comment && skip == 2 && xml[m.p + 1] == '-' && xml[m.p + 2] == '-')
    ensures var m' := m.(state := s, start := m.p + skip + 1, p := m.p + skip + 1);
      Wf(xml, m') && Run(xml, parent, m, line) == Run(xml, parent, m', line')
  {
    hide Run, Step, Rank, Spells;
    if s == Doctype {
      SpellsDocType(xml, m.p + 1);
    }
    StepCases(xml, parent, m);
    line' := OnBreak(xml, parent, m, line, BeginBang(xml, m).m);
  }

  lemma SpellsDocType(xml: string, i: nat)
    requires i < |xml|
    ensures Spells(xml, i, "doctype") <==> (xml[i] == 'D' || xml[i] == 'd') && Spells(xml, i + 1, "octype")
  {
    assert "doctype"[1..] == "octype";
  }

  lemma ParseRemark(xml: string, parent: Parent, m: Local, line: nat, j: nat, n: Node) returns (m': Local, line': nat)
    requires Wf(xml, m) && m.state == Begin && m.nbrackets == 0
    requires n.Remark? && ValidNode(n) && NodeAt(xml, m.p, j, n)
    ensures After(m, m', j, Trace(n), 0)
    ensures Wf(xml, m') && Run(xml, parent, m, line) == Run(xml, parent, m', line')
  {
    hide Run, Step, Rank, StandsAt, Free, NodeAt, Lead, IsSpace, Wf, StepText, BeginBang;
    var b := MarkupChars(xml, m.p, j, n);
    line' := PassLead(xml, parent, m, line, b);
    var m1 := m.(state := BeginNode, next := BeginNode, p := b);
    line' := PassBang(xml, parent, m1, line', Comment, 2);
    var m2 := m1.(state := Comment, start := b + 3, p := b + 3);
    line' := ParseUntil(xml, parent, m2, line', n.text, '-');
    m' := m2.(state := Begin, p := j, events := m2.events + [OnComment(n.text)]);
  }

  // ----- document types -----

  /** Inside a document type the parser counts brackets. */
  lemma {:induction false} ScanDocType(xml: string, parent: Parent, m: Local, line: nat, text: string, k: nat)
    returns (line': nat)
    requires Wf(xml, m) && m.state == Doctype && k <= |text| && ValidDocType(text)
    requires StandsAt(xml, m.p, text) && m.nbrackets == 0
    ensures var m' := m.(p := m.p + k, nbrackets := Depth(text, k));
      Wf(xml, m') && Run(xml, parent, m, line) == Run(xml, parent, m', line')
    decreases k
  {
    hide Run, StandsAt, Step, Rank, Depth, NewLine;
    NoDepth(text);
    if k == 0 {
      line' := line;
    } else {
      DepthStep(text, k - 1);
      line' := ScanDocType(xml, parent, m, line, text, k - 1);
      StandsChar(xml, m.p, text, k - 1);
      line' := PassDocTypeChar(xml, parent, m.(p := m.p + k - 1, nbrackets := Depth(text, k - 1)), line');
    }
  }

  lemma NoDepth(s: string)
    ensures Depth(s, 0) == 0
  {
  }

  lemma PassDocTypeChar(xml: string, parent: Parent, m: Local, line: nat) returns (line': nat)
    requires Ready(xml, m) && m.state == Doctype && (xml[m.p] == '>' ==> m.nbrackets != 0)
    ensures var m' := m.(p := m.p + 1,
                         nbrackets := m.nbrackets + if xml[m.p] == '[' then 1 else if xml[m.p] == ']' then -1 else 0);
      Wf(xml, m') && Run(xml, parent, m, line) == Run(xml, parent, m', line')
  {
    hide Run, Step, Rank, Spells;
    StepCases(xml, parent, m);
    line' := OnBreak(xml, parent, m, line, StepText(xml, m).m);
  }

  lemma ParseDocType(xml: string, parent: Parent, m: Local, line: nat, j: nat, n: Node) returns (m': Local, line': nat)
    requires Wf(xml, m) && m.state == Begin && m.nbrackets == 0
    requires n.DocType? && ValidNode(n) && NodeAt(xml, m.p, j, n)
    ensures After(m, m', j, Trace(n), 0)
    ensures Wf(xml, m') && Run(xml, parent, m, line) == Run(xml, parent, m', line')
  {
    hide Run, Step, Rank, StandsAt, Spells, ValidDocType, Depth, NodeAt, Lead, IsSpace;
    DocTypeBalanced(n.text);
    var b := MarkupChars(xml, m.p, j, n);
    StandsSplit(xml, b + 8, n.text, ">");
    StandsChar(xml, b + 8 + |n.text|, ">", 0);
    StandsSlice(xml, b + 8, n.text);
    line' := PassLead(xml, parent, m, line, b);
    var m1 := m.(state := BeginNode, next := BeginNode, p := b);
    line' := PassBang(xml, parent, m1, line', Doctype, 7);
    var m2 := m1.(state := Doctype, start := b + 8, p := b + 8);
    line' := ScanDocType(xml, parent, m2, line', n.text, |n.text|);
    var m3 := m2.(p := m2.p + |n.text|);
    line' := PassDocTypeEnd(xml, parent, m3, line');
    m' := m3.(state := Begin, p := j, events := m3.events + [OnDoctype(n.text)]);
  }

  lemma DocTypeBalanced(s: string)
    requires ValidDocType(s)
    ensures Depth(s, |s|) == 0
  {
  }

  lemma PassDocTypeEnd(xml: string, parent: Parent, m: Local, line: nat) returns (line': nat)
    requires Ready(xml, m) && m.state == Doctype && xml[m.p] == '>' && m.nbrackets == 0
    ensures var m' := Emit(m, OnDoctype(Since(xml, m))).(state := Begin, p := m.p + 1);
      Wf(xml, m') && Run(xml, parent, m, line) == Run(xml, parent, m', line')
  {
    hide Run, Step, Rank, Spells;
    StepCases(xml, parent, m);
    line' := OnBreak(xml, parent, m, line, StepText(xml, m).m);
  }

  // ----- processing instructions -----

  lemma ParseInstruction(xml: string, parent: Parent, m: Local, line: nat, j: nat, n: Node)
    returns (m': Local, line': nat)
    requires Wf(xml, m) && m.state == Begin && m.nbrackets == 0
    requires n.Instruction? && ValidNode(n) && NodeAt(xml, m.p, j, n)
    ensures After(m, m', j, Trace(n), 0)
    ensures Wf(xml, m') && Run(xml, parent, m, line) == Run(xml, parent, m', line')
  {
    hide Run, Step, Rank, StandsAt, Free, NodeAt, Lead, IsSpace, Wf, StepText, BeginBang;
    var b := MarkupChars(xml, m.p, j, n);
    InstructionChars(xml, b, n.text);
    line' := PassLead(xml, parent, m, line, b);
    var m1 := m.(state := BeginNode, next := BeginNode, p := b);
    line' := PassQuestion(xml, parent, m1, line');
    var m2 := m1.(state := Header, start := b, p := b + 1);
    line' := ScanInstruction(xml, parent, m2, line', n.text);
    var m3 := m2.(p := m2.p + |n.text|);
    line' := PassHeaderEnd(xml, parent, m3, line');
    m' := m3.(state := Begin, p := j, events := m3.events + [OnComment("?" + n.text + "?")]);
  }

  lemma InstructionChars(xml: string, b: nat, text: string)
    requires Is(xml, b, '?') && StandsAt(xml, b + 1, text + "?>")
    ensures b + |text| + 2 < |xml| && xml[b + |text| + 1] == '?' && xml[b + |text| + 2] == '>'
    ensures xml[b..b + |text| + 2] == "?" + text + "?"
  {
    hide StandsAt;
    StandsSplit(xml, b + 1, text, "?>");
    StandsSlice(xml, b + 1, text);
    StandsChar(xml, b + 1 + |text|, "?>", 0);
    StandsChar(xml, b + 1 + |text|, "?>", 1);
    assert xml[b..b + |text| + 2] == [xml[b]] + xml[b + 1..b + 1 + |text|] + [xml[b + |text| + 1]];
  }

  lemma PassQuestion(xml: string, parent: Parent, m: Local, line: nat) returns (line': nat)
    requires Ready(xml, m) && m.state == BeginNode && xml[m.p] == '?'
    ensures var m' := m.(state := Header, start := m.p, p := m.p + 1);
      Wf(xml, m') && Run(xml, parent, m, line) == Run(xml, parent, m', line')
  {
    hide Run, BeginBang, StepText, StepName, Rank;
    line' := OnBreak(xml, parent, m, line, Step(xml, parent, m).m);
  }

  lemma ScanInstruction(xml: string, parent: Parent, m: Local, line: nat, text: string) returns (line': nat)
    requires Wf(xml, m) && m.state == Header && StandsAt(xml, m.p, text + "?>") && Free(text, "?>")
    ensures Wf(xml, m.(p := m.p + |text|))
    ensures Run(xml, parent, m, line) == Run(xml, parent, m.(p := m.p + |text|), line')
  {
    hide Run, Step, StepText, Rank, StandsAt, Free, Sound;
    forall q | m.p <= q < m.p + |text|
      ensures Stays(xml, parent, m, q)
    {
      NotYetQuestion(xml, m.p, text, q);
      StandsTwo(xml, q);
      HeaderStep(xml, m.(p := q));
      StepCases(xml, parent, m.(p := q));
    }
    StandsSlice(xml, m.p, text + "?>");
    line' := Scan(xml, parent, m, line, m.p + |text|);
  }

  lemma NotYetQuestion(xml: string, p: nat, text: string, q: nat)
    requires StandsAt(xml, p, text + "?>") && Free(text, "?>") && p <= q < p + |text|
    ensures q + 1 < |xml| && !(xml[q] == '?' && xml[q + 1] == '>')
  {
    StandsChar(xml, p, text + "?>", q - p);
    StandsChar(xml, p, text + "?>", q - p + 1);
    assert !StandsAt(text, q - p, "?>");
    StandsTwo(text, q - p);
  }

  lemma StandsTwo(s: string, i: nat)
    ensures StandsAt(s, i, "?>") <==> i + 2 <= |s| && s[i] == '?' && s[i + 1] == '>'
  {
    if i + 2 <= |s| {
      assert s[i..i + 2] == [s[i], s[i + 1]];
    }
  }

  /** A pass inside a processing instruction. */
  lemma HeaderStep(xml: string, m: Local)
    requires Ready(xml, m) && m.state == Header
    ensures StepText(xml, m)
         == if !StandsAt(xml, m.p, "?>") then Break(m)
            else Break(Emit(m, OnComment(xml[m.start..m.p + 1])).(p := m.p + 1, state := Begin))
  {
    hide StandsAt, Sound, Since, Skip;
    StandsTwo(xml, m.p);
  }

  lemma PassHeaderEnd(xml: string, parent: Parent, m: Local, line: nat) returns (line': nat)
    requires Ready(xml, m) && m.state == Header && xml[m.p] == '?' && m.p + 1 < |xml| && xml[m.p + 1] == '>'
    ensures var m' := m.(state := Begin, p := m.p + 2, events := m.events + [OnComment(xml[m.start..m.p + 1])]);
      Wf(xml, m') && Run(xml, parent, m, line) == Run(xml, parent, m', line')
  {
    hide Run, Step, StepText, Rank, Sound, StandsAt, NewLine;
    StepCases(xml, parent, m);
    StandsTwo(xml, m.p);
    HeaderStep(xml, m);
    line' := OnBreak(xml, parent, m, line, StepText(xml, m).m);
  }

  // ----- character data -----

  /** Text ends at `<` or, outside every element, at the end. */
  lemma ParseText(xml: string, parent: Parent, m: Local, line: nat, j: nat, n: Node) returns (m': Local, line': nat)
    requires Wf(xml, m) && m.state == Begin && m.nbrackets == 0
    requires n.Text? && ValidNode(n) && NodeAt(xml, m.p, j, n)
    requires if j == |xml| then parent.None? else Is(xml, j, '<')
    ensures After(m, m', j, Trace(n), 1)
    ensures Wf(xml, m') && Run(xml, parent, m, line) == Run(xml, parent, m', line')
  {
    hide Run, Step, Rank, StandsAt;
    StandsSlice(xml, m.p, n.text);
    StandsChar(xml, m.p, n.text, 0);
    PassToText(xml, parent, m, line);
    var m1 := m.(state := PcData, start := m.p);
    line' := ScanText(xml, parent, m1, line, n.text);
    var m2 := m1.(p := m.p + |n.text|);
    m' := m2.(state := Begin, events := m2.events + [OnPcData(n.text)], nsubs := m2.nsubs + 1);
    if m2.p == |xml| {
      TextAtEnd(xml, parent, m2, line');
    } else {
      TextBeforeTag(xml, parent, m2, line');
    }
  }

  lemma PassToText(xml: string, parent: Parent, m: Local, line: nat)
    requires Ready(xml, m) && m.state == Begin && xml[m.p] != '<'
    ensures var m' := m.(state := PcData, start := m.p);
      Wf(xml, m') && Run(xml, parent, m, line) == Run(xml, parent, m', line)
  {
    hide Run, BeginBang, StepText, StepName, Rank;
    OnContinue(xml, parent, m, line, Step(xml, parent, m).m);
  }

  lemma ScanText(xml: string, parent: Parent, m: Local, line: nat, text: string) returns (line': nat)
    requires Wf(xml, m) && m.state == PcData && StandsAt(xml, m.p, text) && '<' !in text
    ensures Wf(xml, m.(p := m.p + |text|))
    ensures Run(xml, parent, m, line) == Run(xml, parent, m.(p := m.p + |text|), line')
  {
    hide Run, Step, Rank, StandsAt;
    forall q | m.p <= q < m.p + |text|
      ensures Stays(xml, parent, m, q)
    {
      StandsChar(xml, m.p, text, q - m.p);
      StepCases(xml, parent, m.(p := q));
    }
    StandsSlice(xml, m.p, text);
    line' := Scan(xml, parent, m, line, m.p + |text|);
  }

  lemma TextAtEnd(xml: string, parent: Parent, m: Local, line: nat)
    requires Wf(xml, m) && m.state == PcData && m.start < m.p == |xml| && parent.None?
    ensures var m' := m.(state := Begin, events := m.events + [OnPcData(Since(xml, m))], nsubs := m.nsubs + 1);
      Wf(xml, m') && Run(xml, parent, m, line) == Run(xml, parent, m', line)
  {
    hide Run, Step;
    RunEnd(xml, parent, m, line);
    var m1 := m.(state := Begin, events := m.events + [OnPcData(Since(xml, m))], nsubs := m.nsubs + 1);
    RunEnd(xml, parent, m1, line);
  }

  /** Reporting text at `<` leaves the parser as if it had begun afresh at that `<`. */
  lemma TextBeforeTag(xml: string, parent: Parent, m: Local, line: nat)
    requires Ready(xml, m) && m.state == PcData && xml[m.p] == '<'
    ensures var m' := m.(state := Begin, events := m.events + [OnPcData(Since(xml, m))], nsubs := m.nsubs + 1);
      Wf(xml, m') && Run(xml, parent, m, line) == Run(xml, parent, m', line)
  {
    hide Run, Step, Rank, Since, CharAt;
    var m' := m.(state := Begin, events := m.events + [OnPcData(Since(xml, m))], nsubs := m.nsubs + 1);
    StepCases(xml, parent, m);
    StepBegin(xml, parent, m');
    var line1 := OnBreak(xml, parent, m, line, StepText(xml, m).m);
    var line2 := OnBreak(xml, parent, m', line, Skip(m', BeginNode));
  }

  lemma StepBegin(xml: string, parent: Parent, m: Local)
    requires Ready(xml, m) && m.state == Begin && xml[m.p] == '<'
    ensures Step(xml, parent, m) == Break(Skip(m, BeginNode))
  {
    hide BeginBang, StepText, StepName, Rank;
  }

  // ----- elements, lists, documents -----

  lemma ParseElement(xml: string, parent: Parent, m: Local, line: nat, j: nat, n: Node) returns (m': Local, line': nat)
    requires Wf(xml, m) && m.state == Begin && m.nbrackets == 0
    requires n.Element? && ValidNode(n) && NodeAt(xml, m.p, j, n)
    ensures After(m, m', j, Trace(n), 1)
    ensures Wf(xml, m') && Run(xml, parent, m, line) == Run(xml, parent, m', line')
    decreases n, 1
  {
    hide Run, Step, Rank, OpenTagAt, CloseTagAt, AttrMap, NodesAt, TraceBody, ValidAttrs, ValidAll, Wf, NewLine;
    var a: nat, b: nat :| ElementParts(xml, m.p, a, b, j, n);
    var m1;
    m1, line' := ReadOpenTag(xml, parent, m, line, a, n.name, n.attrs);
    line' := PassBody(xml, parent, m1, line');
    var m2 := m1.(state := Childs, nsubs := m1.nsubs + 1, p := m1.p + 1,
                  events := m1.events + [OnXml(n.name, AttrMap(n.attrs))]);
    m', line' := ParseKids(xml, parent, m2, line', b, j, n);
    Assoc(m.events, [OnXml(n.name, AttrMap(n.attrs))], TraceBody(n.kids));
  }

  /** From behind an opening tag to behind the closing one. */
  lemma ParseKids(xml: string, parent: Parent, m: Local, line: nat, b: nat, j: nat, n: Node)
    returns (m': Local, line': nat)
    requires Wf(xml, m) && m.state == Childs
    requires n.Element? && m.nodename == n.name && ValidName(n.name) && ValidAll(n.kids)
    requires NodesAt(xml, m.p, b, n.kids) && CloseTagAt(xml, b, j, n.name)
    ensures j > 0 && m' == Resume(m, j - 1, m.events + TraceBody(n.kids))
    ensures Wf(xml, m') && Run(xml, parent, m, line) == Run(xml, parent, m', line')
    decreases n, 0
  {
    hide Run, Step, Rank, CloseTagAt, NodesAt, TraceAll, CountAll, ValidAll, Wf, NewLine, Resume, Start;
    PositionInText(xml, m);
    CloseTagStarts(xml, b, j, n.name);
    StartIs(xml, m.p, m.events);
    var inner := Start(m.p, m.events);
    var m1, line1 := ParseNodes(xml, Some(n.name), inner, line, b, n.kids);
    var line2 := ReadCloseTag(xml, m1, line1, j, n.name);
    var events := m.events + TraceBody(n.kids);
    BodyEvents(inner, m1, b, n.kids);
    PassChilds(xml, parent, m, line, j - 1, line2, events);
    m', line' := Resume(m, j - 1, events), line2 + NewLine(xml, j);
  }

  lemma StartIs(xml: string, p: nat, events: seq<Event>)
    requires p <= |xml|
    ensures var m := Start(p, events);
      Wf(xml, m) && m.state == Begin && m.p == p && m.events == events && m.nsubs == 0 && m.nbrackets == 0
  {
  }

  lemma CloseTagStarts(xml: string, i: nat, j: nat, name: string)
    requires CloseTagAt(xml, i, j, name)
    ensures Is(xml, i, '<') && 0 < j <= |xml|
  {
  }

  lemma BodyEvents(m: Local, m': Local, j: nat, kids: seq<Node>)
    requires After(m, m', j, TraceAll(kids), CountAll(kids)) && m.nsubs == 0
    ensures m'.events + (if m'.nsubs == 0 then [OnPcData("")] else []) == m.events + TraceBody(kids)
  {
    hide TraceAll, CountAll;
    Assoc(m.events, TraceAll(kids), if CountAll(kids) == 0 then [OnPcData("")] else []);
  }

  lemma PassChilds(xml: string, parent: Parent, m: Local, line: nat, end: nat, line': nat, events: seq<Event>)
    requires Ready(xml, m) && m.state == Childs
    requires Run(xml, Some(m.nodename), Start(m.p, m.events), line) == Returned(end, line', events)
    ensures m.p <= end < |xml| && Wf(xml, Resume(m, end, events))
    ensures Run(xml, parent, m, line) == Run(xml, parent, Resume(m, end, events), line' + NewLine(xml, end + 1))
  {
    hide Run, BeginBang, StepText, StepName, Rank;
    var inner := RunDescend(xml, parent, m, line);
  }

  lemma ParseNode(xml: string, parent: Parent, m: Local, line: nat, j: nat, n: Node) returns (m': Local, line': nat)
    requires Wf(xml, m) && m.state == Begin && m.nbrackets == 0
    requires ValidNode(n) && NodeAt(xml, m.p, j, n)
    requires n.Text? ==> if j == |xml| then parent.None? else Is(xml, j, '<')
    ensures After(m, m', j, Trace(n), if Counted(n) then 1 else 0)
    ensures Wf(xml, m') && Run(xml, parent, m, line) == Run(xml, parent, m', line')
    decreases n, 2
  {
    hide Run, Wf, NodeAt, ValidNode, Trace, After;
    match n
    case Element(_, _, _) => m', line' := ParseElement(xml, parent, m, line, j, n);
    case EmptyElement(_, _) => m', line' := ParseEmptyElement(xml, parent, m, line, j, n);
    case Text(_) => m', line' := ParseText(xml, parent, m, line, j, n);
    case Section(_) => m', line' := ParseSection(xml, parent, m, line, j, n);
    case Remark(_) => m', line' := ParseRemark(xml, parent, m, line, j, n);
    case Instruction(_) => m', line' := ParseInstruction(xml, parent, m, line, j, n);
    case DocType(_) => m', line' := ParseDocType(xml, parent, m, line, j, n);
  }

  /** A list of nodes, up to a `<` or, outside every element, the end of the text. */
  lemma {:induction false} ParseNodes(xml: string, parent: Parent, m: Local, line: nat, j: nat, nodes: seq<Node>)
    returns (m': Local, line': nat)
    requires Wf(xml, m) && m.state == Begin && m.nbrackets == 0
    requires ValidAll(nodes) && NodesAt(xml, m.p, j, nodes)
    requires if j == |xml| then parent.None? else Is(xml, j, '<')
    ensures After(m, m', j, TraceAll(nodes), CountAll(nodes))
    ensures Wf(xml, m') && Run(xml, parent, m, line) == Run(xml, parent, m', line')
    decreases nodes, 0
  {
    hide Run, NodeAt, Trace, ValidNode, Is;
    if nodes == [] {
      assert m.events + [] == m.events;
      m', line' := m, line;
    } else {
      var n, rest := nodes[0], nodes[1..];
      var k: nat :| NodeAt(xml, m.p, k, n) && NodesAt(xml, k, j, rest);
      NextStarts(xml, k, j, rest);
      var m1, line1 := ParseNode(xml, parent, m, line, k, n);
      m', line' := ParseNodes(xml, parent, m1, line1, j, rest);
      Assoc(m.events, Trace(n), TraceAll(rest));
    }
  }

  lemma NextStarts(xml: string, i: nat, j: nat, nodes: seq<Node>)
    requires NodesAt(xml, i, j, nodes)
    ensures nodes == [] ==> i == j
    ensures nodes != [] && !nodes[0].Text? ==> Is(xml, i, '<') && i < |xml|
  {
    hide MarkupAt, Spaces;
    if nodes != [] && !nodes[0].Text? {
      var k: nat :| NodeAt(xml, i, k, nodes[0]);
      NodeStarts(xml, i, k, nodes[0]);
    }
  }

  lemma NodeStarts(xml: string, i: nat, j: nat, n: Node)
    requires NodeAt(xml, i, j, n) && !n.Text?
    ensures Is(xml, i, '<')
  {
    hide MarkupAt, Spaces, NodesAt, AttrsAt;
  }

  /** Every document, at any depth and with any spacing, is accepted, read to its end and reported as its events. */
  lemma ParseDocument(xml: string, nodes: seq<Node>)
    requires Document(xml, nodes)
    ensures Parse(xml).Returned? && Parse(xml).p == |xml| && Parse(xml).events == TraceBody(nodes)
  {
    hide Run, Step, NodesAt, TraceAll, CountAll;
    var m := Start(0, []);
    var m', line' := ParseNodes(xml, None, m, 0, |xml|, nodes);
    AllRead(xml, m', line');
    BodyEvents(m, m', |xml|, nodes);
    assert [] + TraceBody(nodes) == TraceBody(nodes);
  }

  lemma AllRead(xml: string, m: Local, line: nat)
    requires Wf(xml, m) && m.state == Begin && m.p == |xml|
    ensures Run(xml, None, m, line)
         == Returned(|xml|, line, m.events + if m.nsubs == 0 then [OnPcData("")] else [])
  {
    hide Run, Step;
    RunEnd(xml, None, m, line);
    assert m.events + [] == m.events;
    assert xml[m.p..m.p] == "";
  }
}
