/**
 What the parser of std/cpp/NativeXmlImport.cpp accepts: only texts of valid trees.  A run is followed
 pass by pass; what it has read so far is always some nodes and the beginning of one more.
 */
module XmlAccepted {
  import opened XmlParser
  import opened XmlGrammar
  import opened XmlDocuments
  import opened Sequences

  /**
   What one call has read: from `from` up to `at` the nodes; then a tag with the attributes up to `k`;
   then the name of an attribute at `s` and its `=` at `e`.  `base` are the events before the call.
   */
  datatype Story = Story(
    base: seq<Event>, from: nat, at: nat, nodes: seq<Node>, k: nat, attrs: seq<Attr>, s: nat, e: nat)

  /** The state that counts: behind spaces, the one that comes next. */
  function Now(m: Local): State {
    if m.state == IgnoreSpaces then m.next else m.state
  }

  // ----- what has been reported -----

  predicate Opened(st: State) {
    st == WaitEnd || st == Childs
  }

  /** The events are those of the nodes, and of an opening tag that has just been read. */
  predicate Told(m: Local, h: Story) {
    && ValidAll(h.nodes)
    && m.events == h.base + TraceAll(h.nodes)
                   + (if Opened(Now(m)) then [OnXml(m.nodename, AttrMap(h.attrs))] else [])
    && m.nsubs == CountAll(h.nodes) + (if Opened(Now(m)) then 1 else 0)
  }

  predicate NoTextLast(nodes: seq<Node>) {
    nodes == [] || !nodes[|nodes| - 1].Text?
  }

  lemma {:induction false} OneMore(nodes: seq<Node>, n: Node)
    requires ValidAll(nodes) && ValidNode(n) && (n.Text? ==> NoTextLast(nodes))
    ensures ValidAll(nodes + [n]) && TraceAll(nodes + [n]) == TraceAll(nodes) + Trace(n)
    ensures CountAll(nodes + [n]) == CountAll(nodes) + (if Counted(n) then 1 else 0)
    decreases |nodes|
  {
    hide Trace, ValidNode;
    if nodes == [] {
      assert [n][1..] == [] && nodes + [n] == [n];
      assert TraceAll([n]) == Trace(n) + TraceAll([]);
    } else {
      var first, rest := nodes[0], nodes[1..];
      OneMore(rest, n);
      assert (nodes + [n])[1..] == rest + [n];
      Assoc(Trace(first), TraceAll(rest), Trace(n));
    }
  }

  /** One node more. */
  lemma ToldMore(m: Local, h: Story, m': Local, h': Story, n: Node)
    requires Told(m, h) && !Opened(Now(m)) && !Opened(Now(m'))
    requires ValidNode(n) && (n.Text? ==> NoTextLast(h.nodes))
    requires m'.events == m.events + Trace(n) && m'.nsubs == m.nsubs + (if Counted(n) then 1 else 0)
    requires h'.base == h.base && h'.nodes == h.nodes + [n]
    ensures Told(m', h')
  {
    hide Trace, ValidNode, TraceAll, CountAll, ValidAll;
    OneMore(h.nodes, n);
    Assoc(h.base, TraceAll(h.nodes), Trace(n));
    assert h.base + TraceAll(h.nodes) + [] == h.base + TraceAll(h.nodes);
    assert h.base + (TraceAll(h.nodes) + Trace(n)) + [] == h.base + (TraceAll(h.nodes) + Trace(n));
  }

  /** Nothing is reported. */
  lemma ToldSame(m: Local, h: Story, m': Local, h': Story)
    requires Told(m, h) && !Opened(Now(m)) && !Opened(Now(m'))
    requires m'.events == m.events && m'.nsubs == m.nsubs && h'.base == h.base && h'.nodes == h.nodes
    ensures Told(m', h')
  {
    hide TraceAll, CountAll, ValidAll;
  }

  /** The end of an opening tag. */
  lemma ToldOpening(m: Local, m': Local, h: Story)
    requires Told(m, h) && !Opened(Now(m)) && Opened(Now(m')) && m.attribs == AttrMap(h.attrs)
    requires m'.events == m.events + [OnXml(m.nodename, m.attribs)] && m'.nsubs == m.nsubs + 1
    requires m'.nodename == m.nodename
    ensures Told(m', h)
  {
    hide TraceAll, CountAll, ValidAll, AttrMap;
  }

  /** An element that has been closed: what has been reported since its opening is its trace. */
  lemma ToldElement(m: Local, h: Story, m': Local, h': Story, n: Node, es: seq<Event>)
    requires Told(m, h) && Opened(Now(m)) && !Opened(Now(m'))
    requires ValidNode(n) && (n.Element? || n.EmptyElement?)
    requires m'.nsubs == m.nsubs && m'.events == m.events + es
    requires Trace(n) == [OnXml(m.nodename, AttrMap(h.attrs))] + es
    requires h'.base == h.base && h'.nodes == h.nodes + [n]
    ensures Told(m', h')
  {
    hide Trace, ValidNode, TraceAll, CountAll, ValidAll, AttrMap;
    OneMore(h.nodes, n);
    Assoc(h.base + TraceAll(h.nodes), [OnXml(m.nodename, AttrMap(h.attrs))], es);
    Assoc(h.base, TraceAll(h.nodes), Trace(n));
  }

  /** The events when nothing more is read. */
  lemma ToldBody(m: Local, h: Story)
    requires Told(m, h) && !Opened(Now(m))
    ensures ValidAll(h.nodes)
    ensures m.events + (if m.nsubs == 0 then [OnPcData("")] else []) == h.base + TraceBody(h.nodes)
  {
    hide TraceAll, CountAll, ValidAll;
    var es := if m.nsubs == 0 then [OnPcData("")] else [];
    assert h.base + TraceAll(h.nodes) + [] == h.base + TraceAll(h.nodes);
    Assoc(h.base, TraceAll(h.nodes), es);
  }

  // ----- what has been read -----

  predicate Named(xml: string, m: Local) {
    m.start <= m.p <= |xml| && forall i :: m.start <= i < m.p ==> IsValidChar(xml[i])
  }

  /** No terminator from `from` up to `to`. */
  predicate NotEnded(xml: string, from: nat, to: nat, word: string) {
    forall i :: from <= i < to ==> !StandsAt(xml, i, word)
  }

  predicate InText(xml: string, m: Local) {
    && m.start <= m.p <= |xml| && (m.start == m.p ==> m.p < |xml| && xml[m.p] != '<')
    && forall i :: m.start <= i < m.p ==> xml[i] != '<'
  }

  predicate InValue(xml: string, m: Local) {
    && m.start < m.p <= |xml| && (xml[m.start] == '"' || xml[m.start] == '\'')
    && forall i :: m.start < i < m.p ==> xml[i] != xml[m.start]
  }

  predicate InDocType(xml: string, m: Local) {
    && m.start <= m.p <= |xml| && m.nbrackets == Depth(xml[m.start..], m.p - m.start)
    && forall i :: m.start <= i < m.p && xml[i] == '>' ==> Depth(xml[m.start..], i - m.start) != 0
  }

  /** A tag whose attributes have been read up to k. */
  ghost predicate InTag(xml: string, name: string, attribs: map<string, string>, h: Story) {
    ValidName(name) && ValidAttrs(h.attrs) && attribs == AttrMap(h.attrs) && TagAt(xml, h.at, h.k, name, h.attrs)
  }

  /** And the name of one more. */
  predicate InAttr(xml: string, aname: string, attribs: map<string, string>, h: Story) {
    ValidName(aname) && aname !in attribs && Spaces(xml, h.k, h.s) && StandsAt(xml, h.s, aname)
  }

  /** An opening tag that ends with c, just before p. */
  ghost predicate TagEnded(xml: string, p: nat, c: char, name: string, attribs: map<string, string>, h: Story) {
    && ValidName(name) && ValidAttrs(h.attrs) && attribs == AttrMap(h.attrs)
    && p >= 1 && OpenTagAt(xml, h.at, p - 1, name, h.attrs) && Is(xml, p - 1, c)
  }

  /** What comes before the text that is read in state st. */
  predicate Begun(xml: string, st: State, at: nat, start: nat)
    requires st in {CData, Doctype, Comment, Header} && start <= |xml|
  {
    match st
    case CData =>
      && start >= 8 && Lead(xml, at, start - 8)
      && Is(xml, start - 8, '!') && Is(xml, start - 7, '[') && Spells(xml, start - 6, "cdata[")
    case Doctype =>
      start >= 8 && Lead(xml, at, start - 8) && Is(xml, start - 8, '!') && Spells(xml, start - 7, "doctype")
    case Comment =>
      && start >= 3 && Lead(xml, at, start - 3)
      && Is(xml, start - 3, '!') && Is(xml, start - 2, '-') && Is(xml, start - 1, '-')
    case _ => Lead(xml, at, start) && Is(xml, start, '?')
  }

  predicate InClose(xml: string, at: nat, start: nat) {
    start >= 1 && Lead(xml, at, start - 1) && Is(xml, start - 1, '/')
  }

  /** What is known in state st. */
  ghost predicate Knows(xml: string, parent: Parent, st: State, m: Local, h: Story)
    requires m.start <= m.p <= |xml|
  {
    match st
    case Begin => NoTextLast(h.nodes) && m.p == h.at
    case PcData => NoTextLast(h.nodes) && m.start == h.at && InText(xml, m)
    case BeginNode => Lead(xml, h.at, m.p)
    case TagName => Lead(xml, h.at, m.start) && Named(xml, m)
    case Body => InTag(xml, m.nodename, m.attribs, h) && Spaces(xml, h.k, m.p)
    case AttribName => InTag(xml, m.nodename, m.attribs, h) && Spaces(xml, h.k, m.start) && Named(xml, m)
    case Equals =>
      && InTag(xml, m.nodename, m.attribs, h) && InAttr(xml, m.aname, m.attribs, h)
      && Spaces(xml, h.s + |m.aname|, m.p)
    case AttvalBegin =>
      && InTag(xml, m.nodename, m.attribs, h) && InAttr(xml, m.aname, m.attribs, h)
      && Spaces(xml, h.s + |m.aname|, h.e) && Is(xml, h.e, '=') && Spaces(xml, h.e + 1, m.p)
    case AttribVal =>
      && InTag(xml, m.nodename, m.attribs, h) && InAttr(xml, m.aname, m.attribs, h)
      && Spaces(xml, h.s + |m.aname|, h.e) && Is(xml, h.e, '=') && Spaces(xml, h.e + 1, m.start)
      && InValue(xml, m)
    case WaitEnd => TagEnded(xml, m.p, '/', m.nodename, m.attribs, h)
    case Childs => TagEnded(xml, m.p, '>', m.nodename, m.attribs, h)
    case CData => Begun(xml, CData, h.at, m.start) && NotEnded(xml, m.start, m.p, "]]>")
    case Comment => Begun(xml, Comment, h.at, m.start) && NotEnded(xml, m.start, m.p, "-->")
    case Header => Begun(xml, Header, h.at, m.start) && m.start < m.p && NotEnded(xml, m.start + 1, m.p, "?>")
    case Doctype => Begun(xml, Doctype, h.at, m.start) && InDocType(xml, m)
    case Close => parent.Some? && InClose(xml, h.at, m.start)
    case WaitEndRet =>
      && parent.Some? && InClose(xml, h.at, m.start)
      && EqualName(xml, m.start, parent.name) && Spaces(xml, m.start + |parent.name|, m.p)
    case IgnoreSpaces => true
  }

  ghost predicate Inside(xml: string, parent: Parent, m: Local, h: Story) {
    && m.start <= m.p <= |xml|
    && NodesAt(xml, h.from, h.at, h.nodes)
    && (Now(m) != Doctype ==> m.nbrackets == 0)
    && (m.state == IgnoreSpaces ==> m.next != Begin)
    && Knows(xml, parent, Now(m), m, h)
  }

  ghost predicate Keeps(xml: string, parent: Parent, m: Local, h: Story) {
    Told(m, h) && Inside(xml, parent, m, h)
  }

  predicate GoesOn(a: Action) {
    a.Continue? || a.Break?
  }

  function Next(a: Action): Local
    requires GoesOn(a)
  {
    if a.Break? then Advance(a.m) else a.m
  }

  /** Nodes, and one more. */
  lemma {:induction false} NodesMore(xml: string, i: nat, k: nat, j: nat, nodes: seq<Node>, n: Node)
    requires NodesAt(xml, i, k, nodes) && NodeAt(xml, k, j, n)
    ensures NodesAt(xml, i, j, nodes + [n])
    decreases |nodes|
  {
    hide NodeAt;
    if nodes == [] {
      assert (nodes + [n])[1..] == [];
      assert NodesAt(xml, j, j, []);
    } else {
      var k': nat :| NodeAt(xml, i, k', nodes[0]) && NodesAt(xml, k', k, nodes[1..]);
      NodesMore(xml, k', k, j, nodes[1..], n);
      assert (nodes + [n])[1..] == nodes[1..] + [n];
    }
  }

  // ----- a pass between nodes and at the beginning of one -----

  lemma SpacesMore(xml: string, i: nat, j: nat)
    requires Spaces(xml, i, j) && j < |xml| && IsSpace(xml[j])
    ensures Spaces(xml, i, j + 1)
  {
  }

  lemma NoSpaces(xml: string, i: nat)
    requires i <= |xml|
    ensures Spaces(xml, i, i)
  {
  }

  lemma SpacesStep(xml: string, parent: Parent, m: Local)
    requires Wf(xml, m) && m.p < |xml| && m.state == IgnoreSpaces
    ensures Step(xml, parent, m)
         == if IsSpace(xml[m.p]) then Break(m) else Continue(m.(state := m.next))
  {
    hide Sound, BeginBang, StepText, StepName;
  }

  lemma KeepsSpaces(xml: string, parent: Parent, m: Local, h: Story)
    requires Wf(xml, m) && m.p < |xml| && m.state == IgnoreSpaces && Keeps(xml, parent, m, h)
    ensures GoesOn(Step(xml, parent, m)) && Keeps(xml, parent, Next(Step(xml, parent, m)), h)
  {
    hide Step, Told, Sound, Spaces, InTag, InAttr, InClose, IsSpace;
    SpacesStep(xml, parent, m);
    if IsSpace(xml[m.p]) {
      match m.next
      case BeginNode => SpacesMore(xml, h.at + 1, m.p);
      case Body => SpacesMore(xml, h.k, m.p);
      case Equals => SpacesMore(xml, h.s + |m.aname|, m.p);
      case AttvalBegin => SpacesMore(xml, h.e + 1, m.p);
      case WaitEndRet => SpacesMore(xml, m.start + |parent.name|, m.p);
      case _ =>
    }
    ToldSame(m, h, Next(Step(xml, parent, m)), h);
  }

  lemma BeginStep(xml: string, parent: Parent, m: Local)
    requires Wf(xml, m) && m.p < |xml| && m.state == Begin
    ensures Step(xml, parent, m)
         == if xml[m.p] == '<' then Break(Skip(m, BeginNode)) else Continue(m.(start := m.p, state := PcData))
  {
    hide Sound, BeginBang, StepText, StepName;
  }

  lemma KeepsBegin(xml: string, parent: Parent, m: Local, h: Story)
    requires Wf(xml, m) && m.p < |xml| && m.state == Begin && Keeps(xml, parent, m, h)
    ensures GoesOn(Step(xml, parent, m)) && Keeps(xml, parent, Next(Step(xml, parent, m)), h)
  {
    hide Step, Told, Sound, Spaces, NodesAt;
    BeginStep(xml, parent, m);
    NoSpaces(xml, m.p + 1);
    ToldSame(m, h, Next(Step(xml, parent, m)), h);
  }

  lemma BangBegins(xml: string, m: Local, at: nat)
    requires Wf(xml, m) && m.p < |xml| && xml[m.p] == '!' && Lead(xml, at, m.p) && GoesOn(BeginBang(xml, m))
    ensures var m' := Next(BeginBang(xml, m));
      && m'.state in {CData, Doctype, Comment} && m'.start == m'.p <= |xml|
      && m'.events == m.events && m'.nsubs == m.nsubs && m'.nbrackets == m.nbrackets
      && Begun(xml, m'.state, at, m'.start)
  {
    hide Spells, Lead;
    if m.p + 1 < |xml| {
      SpellsDocType(xml, m.p + 1);
    }
  }

  lemma NothingYet(xml: string, m: Local)
    requires m.start == m.p <= |xml|
    ensures NotEnded(xml, m.p, m.p, "]]>") && NotEnded(xml, m.p, m.p, "-->")
    ensures m.nbrackets == 0 ==> InDocType(xml, m)
  {
  }

  lemma KeepsBang(xml: string, parent: Parent, m: Local, h: Story)
    requires Wf(xml, m) && m.p < |xml| && m.state == BeginNode && xml[m.p] == '!' && Keeps(xml, parent, m, h)
    requires GoesOn(BeginBang(xml, m))
    ensures Keeps(xml, parent, Next(BeginBang(xml, m)), h)
  {
    hide Told, Sound, BeginBang, Spaces, Lead, Begun, NotEnded, InDocType;
    BangBegins(xml, m, h.at);
    NothingYet(xml, Next(BeginBang(xml, m)));
    ToldSame(m, h, Next(BeginBang(xml, m)), h);
  }

  lemma BeginNodeStep(xml: string, parent: Parent, m: Local)
    requires Wf(xml, m) && m.p < |xml| && m.state == BeginNode
    ensures var a, c := Step(xml, parent, m), xml[m.p];
      if c == '!' then a == BeginBang(xml, m)
      else if c == '?' then a == Break(m.(state := Header, start := m.p))
      else if c == '/' then GoesOn(a) ==> parent.Some? && a == Break(Skip(m.(start := m.p + 1), Close))
      else a == Continue(m.(state := TagName, start := m.p))
  {
    hide Sound, BeginBang, StepText, StepName;
  }

  lemma LeadGives(xml: string, at: nat, p: nat)
    requires Lead(xml, at, p) && p < |xml|
    ensures xml[p] == '?' ==> Begun(xml, Header, at, p) && NotEnded(xml, p + 1, p + 1, "?>")
    ensures xml[p] == '/' ==> InClose(xml, at, p + 1)
  {
    hide Lead;
  }

  lemma KeepsLead(xml: string, parent: Parent, m: Local, m': Local, h: Story)
    requires Wf(xml, m) && m.p < |xml| && m.state == BeginNode && Keeps(xml, parent, m, h)
    requires
      || (xml[m.p] == '?' && m' == Advance(m.(state := Header, start := m.p)))
      || (xml[m.p] == '/' && parent.Some? && m' == Advance(Skip(m.(start := m.p + 1), Close)))
      || m' == m.(state := TagName, start := m.p)
    ensures Keeps(xml, parent, m', h)
  {
    hide Told, Lead, NodesAt, Begun, NotEnded, InClose, StandsAt;
    LeadGives(xml, h.at, m.p);
    if m'.state == Header {
      assert Knows(xml, parent, Header, m', h);
    } else if m'.state == TagName {
      assert Knows(xml, parent, TagName, m', h);
    } else {
      assert Knows(xml, parent, Close, m', h);
    }
    ToldSame(m, h, m', h);
  }

  lemma KeepsBeginNode(xml: string, parent: Parent, m: Local, h: Story)
    requires Wf(xml, m) && m.p < |xml| && m.state == BeginNode && Keeps(xml, parent, m, h)
    requires GoesOn(Step(xml, parent, m))
    ensures Keeps(xml, parent, Next(Step(xml, parent, m)), h)
  {
    hide Step, Keeps, Sound, BeginBang;
    BeginNodeStep(xml, parent, m);
    if xml[m.p] == '!' {
      KeepsBang(xml, parent, m, h);
    } else {
      KeepsLead(xml, parent, m, Next(Step(xml, parent, m)), h);
    }
  }

  lemma CloseNameRead(xml: string, m: Local, name: string)
    requires m.start <= m.p <= |xml| && EqualIgnoringCase(name, Since(xml, m))
    ensures m.start + |name| == m.p && EqualName(xml, m.start, name)
  {
  }

  lemma KeepsClose(xml: string, parent: Parent, m: Local, h: Story)
    requires Wf(xml, m) && m.p < |xml| && m.state == Close && Keeps(xml, parent, m, h)
    requires GoesOn(Step(xml, parent, m))
    ensures Keeps(xml, parent, Next(Step(xml, parent, m)), h)
  {
    hide Told, Sound, BeginBang, StepText, StepName, Spaces, InClose, EqualIgnoringCase;
    NoSpaces(xml, m.p);
    if !IsValidChar(xml[m.p]) {
      CloseNameRead(xml, m, parent.name);
    }
    assert Inside(xml, parent, Next(Step(xml, parent, m)), h);
    ToldSame(m, h, Next(Step(xml, parent, m)), h);
  }

  // ----- a pass inside a tag -----

  lemma NameRead(xml: string, m: Local)
    requires Named(xml, m) && m.start < m.p
    ensures ValidName(Since(xml, m)) && StandsAt(xml, m.start, Since(xml, m))
  {
  }

  /** The name of an element. */
  lemma TagBegun(xml: string, at: nat, m: Local)
    requires Lead(xml, at, m.start) && Named(xml, m) && m.start < m.p < |xml| && !IsValidChar(xml[m.p])
    ensures TagAt(xml, at, m.p, Since(xml, m), []) && ValidAttrs([]) && AttrMap([]) == map[]
  {
    hide Lead, IsValidChar, ValidName;
    NameRead(xml, m);
    assert TagParts(xml, at, m.start, m.p, Since(xml, m), []);
  }

  lemma KeepsTagName(xml: string, parent: Parent, m: Local, h: Story) returns (h': Story)
    requires Wf(xml, m) && m.p < |xml| && m.state == TagName && Keeps(xml, parent, m, h)
    requires GoesOn(Step(xml, parent, m))
    ensures Keeps(xml, parent, Next(Step(xml, parent, m)), h') && h'.base == h.base && h'.from == h.from
  {
    hide Told, Sound, BeginBang, StepText, ValidName, IsValidChar, Lead, Spaces, TagAt, ValidAttrs, AttrMap;
    h' := h;
    if m.start < m.p && !IsValidChar(xml[m.p]) {
      h' := h.(attrs := [], k := m.p);
      NameRead(xml, m);
      TagBegun(xml, h.at, m);
      NoSpaces(xml, m.p);
    }
    assert Inside(xml, parent, Next(Step(xml, parent, m)), h');
    ToldSame(m, h, Next(Step(xml, parent, m)), h');
  }

  lemma KeepsAttribName(xml: string, parent: Parent, m: Local, h: Story) returns (h': Story)
    requires Wf(xml, m) && m.p < |xml| && m.state == AttribName && Keeps(xml, parent, m, h)
    requires GoesOn(Step(xml, parent, m))
    ensures Keeps(xml, parent, Next(Step(xml, parent, m)), h') && h'.base == h.base && h'.from == h.from
  {
    hide Told, Sound, BeginBang, StepText, ValidName, IsValidChar, Spaces, TagAt, StandsAt, ValidAttrs, AttrMap;
    h' := h;
    if m.start < m.p && !IsValidChar(xml[m.p]) {
      h' := h.(s := m.start);
      NameRead(xml, m);
      NoSpaces(xml, m.p);
    }
    assert Inside(xml, parent, Next(Step(xml, parent, m)), h');
    ToldSame(m, h, Next(Step(xml, parent, m)), h');
  }

  lemma KeepsEquals(xml: string, parent: Parent, m: Local, h: Story) returns (h': Story)
    requires Wf(xml, m) && m.p < |xml| && m.state == Equals && Keeps(xml, parent, m, h)
    requires GoesOn(Step(xml, parent, m))
    ensures Keeps(xml, parent, Next(Step(xml, parent, m)), h') && h'.base == h.base && h'.from == h.from
  {
    hide Told, Sound, BeginBang, StepText, StepName, ValidName, Spaces, TagAt, StandsAt, ValidAttrs, AttrMap;
    h' := h.(e := m.p);
    NoSpaces(xml, m.p + 1);
    ToldSame(m, h, Next(Step(xml, parent, m)), h');
  }

  lemma KeepsAttvalBegin(xml: string, parent: Parent, m: Local, h: Story)
    requires Wf(xml, m) && m.p < |xml| && m.state == AttvalBegin && Keeps(xml, parent, m, h)
    requires GoesOn(Step(xml, parent, m))
    ensures Keeps(xml, parent, Next(Step(xml, parent, m)), h)
  {
    hide Told, Sound, BeginBang, StepText, StepName, InTag, InAttr, Spaces;
    ToldSame(m, h, Next(Step(xml, parent, m)), h);
  }

  lemma {:induction false} AttrMapHas(attrs: seq<Attr>, j: nat)
    requires j < |attrs|
    ensures attrs[j].name in AttrMap(attrs)
  {
    if j < |attrs| - 1 {
      AttrMapHas(attrs[..|attrs| - 1], j);
    }
  }

  lemma NewAttr(attrs: seq<Attr>, a: Attr)
    requires a.name !in AttrMap(attrs)
    ensures forall i :: 0 <= i < |attrs| ==> attrs[i].name != a.name
  {
    hide AttrMap;
    forall i | 0 <= i < |attrs|
      ensures attrs[i].name != a.name
    {
      AttrMapHas(attrs, i);
    }
  }

  lemma AttrMapMore(attrs: seq<Attr>, a: Attr)
    ensures AttrMap(attrs + [a]) == AttrMap(attrs)[a.name := a.value]
  {
    assert (attrs + [a])[..|attrs|] == attrs;
  }

  lemma OneMoreAttr(attrs: seq<Attr>, a: Attr)
    requires ValidAttrs(attrs) && ValidAttr(a) && a.name !in AttrMap(attrs)
    ensures ValidAttrs(attrs + [a]) && AttrMap(attrs + [a]) == AttrMap(attrs)[a.name := a.value]
  {
    hide ValidAttr, AttrMap;
    NewAttr(attrs, a);
    AttrMapMore(attrs, a);
  }

  /** A value that ends at p. */
  lemma ValueRead(xml: string, m: Local)
    requires InValue(xml, m) && m.p < |xml|
    ensures m.start < m.p
    ensures var quote, value := xml[m.start], xml[m.start + 1..m.p];
      && (quote == '"' || quote == '\'') && quote !in value
      && (xml[m.p] == quote ==> StandsAt(xml, m.start, [quote] + value + [quote]))
    ensures xml[m.p] != xml[m.start] ==> InValue(xml, Advance(m))
  {
    assert xml[m.start..m.p + 1] == [xml[m.start]] + xml[m.start + 1..m.p] + [xml[m.p]];
  }

  lemma TagMore(xml: string, name: string, h: Story, q: nat, j: nat, a: Attr)
    requires TagAt(xml, h.at, h.k, name, h.attrs) && AttrParts(xml, h.k, h.s, h.e, q, j, a)
    ensures TagAt(xml, h.at, j, name, h.attrs + [a])
  {
    hide AttrParts, Lead, StandsAt, IsValidChar;
    var b: nat :| TagParts(xml, h.at, b, h.k, name, h.attrs);
    var attrs := h.attrs + [a];
    assert attrs[..|attrs| - 1] == h.attrs;
    assert AttrAt(xml, h.k, j, a);
    assert AttrsAt(xml, b + |name|, j, attrs);
    assert TagParts(xml, h.at, b, j, name, attrs);
  }

  lemma AttrRead(xml: string, m: Local, h: Story) returns (h': Story)
    requires m.p < |xml| && InTag(xml, m.nodename, m.attribs, h) && InAttr(xml, m.aname, m.attribs, h)
    requires Spaces(xml, h.s + |m.aname|, h.e) && Is(xml, h.e, '=') && Spaces(xml, h.e + 1, m.start)
    requires InValue(xml, m) && xml[m.p] == xml[m.start]
    ensures h' == h.(k := m.p + 1, attrs := h'.attrs)
    ensures InTag(xml, m.nodename, m.attribs[m.aname := xml[m.start + 1..m.p]], h')
  {
    hide InValue, TagAt, Spaces, StandsAt, ValidAttrs, AttrMap, ValidName;
    ValueRead(xml, m);
    var a := Attr(m.aname, xml[m.start + 1..m.p], xml[m.start]);
    OneMoreAttr(h.attrs, a);
    TagMore(xml, m.nodename, h, m.start, m.p + 1, a);
    h' := h.(k := m.p + 1, attrs := h.attrs + [a]);
  }

  lemma KeepsAttribVal(xml: string, parent: Parent, m: Local, h: Story) returns (h': Story)
    requires Wf(xml, m) && m.p < |xml| && m.state == AttribVal && Keeps(xml, parent, m, h)
    ensures GoesOn(Step(xml, parent, m))
    ensures Keeps(xml, parent, Next(Step(xml, parent, m)), h') && h'.base == h.base && h'.from == h.from
  {
    hide Told, Sound, BeginBang, StepText, StepName, InTag, InAttr, Spaces, InValue;
    ValueRead(xml, m);
    h' := h;
    if xml[m.p] == xml[m.start] {
      h' := AttrRead(xml, m, h);
      NoSpaces(xml, m.p + 1);
    }
    assert Inside(xml, parent, Next(Step(xml, parent, m)), h');
    ToldSame(m, h, Next(Step(xml, parent, m)), h');
  }

  lemma KeepsBody(xml: string, parent: Parent, m: Local, h: Story)
    requires Wf(xml, m) && m.p < |xml| && m.state == Body && Keeps(xml, parent, m, h)
    ensures GoesOn(Step(xml, parent, m)) && Keeps(xml, parent, Next(Step(xml, parent, m)), h)
  {
    hide Told, Sound, BeginBang, StepText, StepName, ValidName, ValidAttrs, AttrMap, TagAt, Spaces;
    var m' := Next(Step(xml, parent, m));
    if xml[m.p] == '/' || xml[m.p] == '>' {
      assert OpenTagAt(xml, h.at, m.p, m.nodename, h.attrs);
      ToldOpening(m, m', h);
    } else {
      ToldSame(m, h, m', h);
    }
  }

  lemma EmptyRead(xml: string, m: Local, h: Story, n: Node)
    requires TagEnded(xml, m.p, '/', m.nodename, m.attribs, h) && Is(xml, m.p, '>')
    requires n == EmptyElement(m.nodename, h.attrs) && NodesAt(xml, h.from, h.at, h.nodes)
    ensures ValidNode(n) && NodesAt(xml, h.from, m.p + 1, h.nodes + [n])
    ensures Trace(n) == [OnXml(m.nodename, AttrMap(h.attrs))] + [OnDone]
  {
    hide NodesAt, OpenTagAt, ValidName, ValidAttrs, AttrMap;
    NodesMore(xml, h.from, h.at, m.p + 1, h.nodes, n);
  }

  lemma KeepsWaitEnd(xml: string, parent: Parent, m: Local, h: Story) returns (h': Story)
    requires Wf(xml, m) && m.p < |xml| && m.state == WaitEnd && Keeps(xml, parent, m, h)
    requires GoesOn(Step(xml, parent, m))
    ensures Keeps(xml, parent, Next(Step(xml, parent, m)), h') && h'.base == h.base && h'.from == h.from
  {
    hide Told, Sound, BeginBang, StepText, StepName, TagEnded, NodesAt, Trace, ValidNode;
    var n := EmptyElement(m.nodename, h.attrs);
    h' := h.(nodes := h.nodes + [n], at := m.p + 1);
    EmptyRead(xml, m, h, n);
    assert Inside(xml, parent, Next(Step(xml, parent, m)), h');
    ToldElement(m, h, Next(Step(xml, parent, m)), h', n, [OnDone]);
  }

  // ----- a pass inside a text -----

  lemma TextRead(xml: string, m: Local, h: Story, n: Node)
    requires InText(xml, m) && m.start < m.p && n == Text(Since(xml, m)) && m.start == h.at
    requires NodesAt(xml, h.from, h.at, h.nodes)
    ensures ValidNode(n) && NodesAt(xml, h.from, m.p, h.nodes + [n])
  {
    hide NodesAt;
    NodesMore(xml, h.from, h.at, m.p, h.nodes, n);
  }

  lemma PcDataMoves(xml: string, m: Local)
    requires Wf(xml, m) && m.p < |xml| && m.state == PcData && InText(xml, m)
    ensures GoesOn(StepText(xml, m))
    ensures var m' := Next(StepText(xml, m));
      if xml[m.p] == '<' then
        m.start < m.p && m' == Skip(Advance(Emit(m, OnPcData(Since(xml, m))).(nsubs := m.nsubs + 1)), BeginNode)
      else m' == Advance(m) && InText(xml, m')
  {
    hide Sound, Since;
  }

  /** At the `<` behind a text. */
  lemma KeepsTextEnd(xml: string, parent: Parent, m: Local, m': Local, h: Story) returns (h': Story)
    requires Wf(xml, m) && m.p < |xml| && m.state == PcData && Keeps(xml, parent, m, h)
    requires xml[m.p] == '<' && m.start < m.p
    requires m' == Skip(Advance(Emit(m, OnPcData(Since(xml, m))).(nsubs := m.nsubs + 1)), BeginNode)
    ensures Keeps(xml, parent, m', h') && h'.base == h.base && h'.from == h.from
  {
    hide Told, NodesAt, ValidNode, Spaces, InText, Since;
    var n := Text(Since(xml, m));
    h' := h.(nodes := h.nodes + [n], at := m.p);
    TextRead(xml, m, h, n);
    NoSpaces(xml, m.p + 1);
    ToldMore(m, h, m', h', n);
  }

  lemma KeepsPcData(xml: string, parent: Parent, m: Local, h: Story) returns (h': Story)
    requires Wf(xml, m) && m.p < |xml| && m.state == PcData && Keeps(xml, parent, m, h)
    ensures GoesOn(StepText(xml, m))
    ensures Keeps(xml, parent, Next(StepText(xml, m)), h') && h'.base == h.base && h'.from == h.from
  {
    hide StepText, Told, Sound, NodesAt, InText, Since;
    PcDataMoves(xml, m);
    var m' := Next(StepText(xml, m));
    if xml[m.p] == '<' {
      h' := KeepsTextEnd(xml, parent, m, m', h);
    } else {
      h' := h;
      ToldSame(m, h, m', h');
    }
  }

  lemma StandsInside(xml: string, start: nat, p: nat, i: nat, word: string)
    requires start <= p <= |xml| && StandsAt(xml[start..p], i, word)
    ensures StandsAt(xml, start + i, word)
  {
    var there := xml[start + i..start + i + |word|];
    forall k | 0 <= k < |word|
      ensures there[k] == word[k]
    {
      StandsChar(xml[start..p], i, word, k);
    }
    assert there == word;
  }

  lemma FreeText(xml: string, start: nat, p: nat, word: string)
    requires start <= p <= |xml| && NotEnded(xml, start, p, word)
    ensures Free(xml[start..p], word)
  {
    hide StandsAt;
    var text := xml[start..p];
    forall i | 0 <= i < |text|
      ensures !StandsAt(text, i, word)
    {
      if StandsAt(text, i, word) {
        StandsInside(xml, start, p, i, word);
      }
    }
  }

  lemma StandsJoin(xml: string, start: nat, p: nat, word: string)
    requires start <= p && StandsAt(xml, p, word)
    ensures StandsAt(xml, start, xml[start..p] + word)
  {
    assert xml[start..p + |word|] == xml[start..p] + xml[p..p + |word|];
  }

  lemma NotEndedMore(xml: string, from: nat, p: nat, word: string)
    requires NotEnded(xml, from, p, word) && !StandsAt(xml, p, word)
    ensures NotEnded(xml, from, p + 1, word)
  {
  }

  lemma MarkedMoves(xml: string, m: Local, d: char, word: string)
    requires Wf(xml, m) && m.p < |xml| && m.state in {CData, Comment}
    requires d == (if m.state == CData then ']' else '-') && word == [d, d, '>']
    ensures GoesOn(StepText(xml, m))
    ensures var m' := Next(StepText(xml, m));
      if !StandsAt(xml, m.p, word) then m' == Advance(m)
      else
        && m'.state == Begin && m'.nbrackets == m.nbrackets && m.start <= m'.p == m.p + 3 && m'.start == m.start
        && m'.events == m.events + [if m.state == CData then OnCData(Since(xml, m)) else OnComment(Since(xml, m))]
        && m'.nsubs == m.nsubs + if m.state == CData then 1 else 0
  {
    hide StandsAt, StepText, Sound, Since;
    MarkedStep(xml, m, d, word);
  }

  lemma MarkedRead(xml: string, m: Local, h: Story, n: Node, word: string)
    requires m.state in {CData, Comment} && m.start <= m.p <= |xml| && Begun(xml, m.state, h.at, m.start)
    requires n == if m.state == CData then Section(Since(xml, m)) else Remark(Since(xml, m))
    requires word == if m.state == CData then "]]>" else "-->"
    requires NotEnded(xml, m.start, m.p, word) && StandsAt(xml, m.p, word)
    requires NodesAt(xml, h.from, h.at, h.nodes)
    ensures ValidNode(n) && NodesAt(xml, h.from, m.p + 3, h.nodes + [n]) && m.p + 3 <= |xml|
  {
    hide NodesAt, Lead, Spells, StandsAt, NotEnded, Free;
    FreeText(xml, m.start, m.p, word);
    StandsJoin(xml, m.start, m.p, word);
    StandsSlice(xml, m.p, word);
    assert MarkupAt(xml, if m.state == CData then m.start - 8 else m.start - 3, m.p + 3, n);
    NodesMore(xml, h.from, h.at, m.p + 3, h.nodes, n);
  }

  /** CDATA sections and comments. */
  lemma KeepsMarked(xml: string, parent: Parent, m: Local, h: Story) returns (h': Story)
    requires Wf(xml, m) && m.p < |xml| && m.state in {CData, Comment} && Keeps(xml, parent, m, h)
    ensures GoesOn(StepText(xml, m))
    ensures Keeps(xml, parent, Next(StepText(xml, m)), h') && h'.base == h.base && h'.from == h.from
  {
    hide StepText, Told, Sound, StandsAt, NotEnded, NodesAt, ValidNode, Begun, InTag, InAttr, TagEnded, InDocType,
         Named, InText, InValue, InClose, Lead, Spaces, EqualName;
    var d := if m.state == CData then ']' else '-';
    var word := [d, d, '>'];
    MarkedMoves(xml, m, d, word);
    var m' := Next(StepText(xml, m));
    if StandsAt(xml, m.p, word) {
      var n := if m.state == CData then Section(Since(xml, m)) else Remark(Since(xml, m));
      h' := h.(nodes := h.nodes + [n], at := m.p + 3);
      MarkedRead(xml, m, h, n, word);
      assert Inside(xml, parent, m', h');
      ToldMore(m, h, m', h', n);
    } else {
      h' := h;
      NotEndedMore(xml, m.start, m.p, word);
      assert Inside(xml, parent, m', h');
      ToldSame(m, h, m', h');
    }
  }

  lemma HeaderMoves(xml: string, m: Local)
    requires Wf(xml, m) && m.p < |xml| && m.state == Header && m.start < m.p && xml[m.start] == '?'
    ensures GoesOn(StepText(xml, m))
    ensures var m' := Next(StepText(xml, m));
      if !StandsAt(xml, m.p, "?>") then m' == Advance(m)
      else
        && m'.state == Begin && m'.nbrackets == m.nbrackets && m'.nsubs == m.nsubs
        && m'.start == m.start && m'.p == m.p + 2
        && m'.events == m.events + [OnComment("?" + xml[m.start + 1..m.p] + "?")]
  {
    hide StandsAt, StepText, Sound;
    StandsTwo(xml, m.p);
    HeaderStep(xml, m);
    if StandsAt(xml, m.p, "?>") {
      assert xml[m.start..m.p + 1] == "?" + xml[m.start + 1..m.p] + "?";
    }
  }

  lemma HeaderRead(xml: string, m: Local, h: Story, n: Node)
    requires m.start < m.p <= |xml| && Begun(xml, Header, h.at, m.start)
    requires n == Instruction(xml[m.start + 1..m.p])
    requires NotEnded(xml, m.start + 1, m.p, "?>") && StandsAt(xml, m.p, "?>")
    requires NodesAt(xml, h.from, h.at, h.nodes)
    ensures ValidNode(n) && NodesAt(xml, h.from, m.p + 2, h.nodes + [n]) && m.p + 2 <= |xml|
  {
    hide NodesAt, Lead, StandsAt, NotEnded, Free;
    FreeText(xml, m.start + 1, m.p, "?>");
    StandsJoin(xml, m.start + 1, m.p, "?>");
    StandsSlice(xml, m.p, "?>");
    assert MarkupAt(xml, m.start, m.p + 2, n);
    NodesMore(xml, h.from, h.at, m.p + 2, h.nodes, n);
  }

  lemma KeepsHeader(xml: string, parent: Parent, m: Local, h: Story) returns (h': Story)
    requires Wf(xml, m) && m.p < |xml| && m.state == Header && Keeps(xml, parent, m, h)
    ensures GoesOn(StepText(xml, m))
    ensures Keeps(xml, parent, Next(StepText(xml, m)), h') && h'.base == h.base && h'.from == h.from
  {
    hide StepText, Told, Sound, StandsAt, NotEnded, NodesAt, ValidNode, Lead;
    HeaderMoves(xml, m);
    var m' := Next(StepText(xml, m));
    if StandsAt(xml, m.p, "?>") {
      var n := Instruction(xml[m.start + 1..m.p]);
      h' := h.(nodes := h.nodes + [n], at := m.p + 2);
      HeaderRead(xml, m, h, n);
      assert Inside(xml, parent, m', h');
      ToldMore(m, h, m', h', n);
    } else {
      h' := h;
      NotEndedMore(xml, m.start + 1, m.p, "?>");
      assert Inside(xml, parent, m', h');
      ToldSame(m, h, m', h');
    }
  }

  lemma DocTypeText(xml: string, m: Local)
    requires InDocType(xml, m) && m.nbrackets == 0
    ensures ValidDocType(xml[m.start..m.p])
  {
    var s, t := xml[m.start..m.p], xml[m.start..];
    assert s <= t;
    DepthOfPrefix(s, t, |s|);
    forall i | 0 <= i < |s| && s[i] == '>'
      ensures Depth(s, i) != 0
    {
      DepthOfPrefix(s, t, i);
      assert xml[m.start + i] == '>';
    }
  }

  lemma InDocTypeMore(xml: string, m: Local)
    requires InDocType(xml, m) && m.p < |xml| && !(xml[m.p] == '>' && m.nbrackets == 0)
    ensures var c := xml[m.p];
      InDocType(xml, Advance(m).(nbrackets := m.nbrackets + if c == '[' then 1 else if c == ']' then -1 else 0))
  {
    hide Depth;
    DepthStep(xml[m.start..], m.p - m.start);
  }

  lemma DocTypeMoves(xml: string, m: Local)
    requires Wf(xml, m) && m.p < |xml| && m.state == Doctype && InDocType(xml, m)
    ensures GoesOn(StepText(xml, m))
    ensures var m' := Next(StepText(xml, m));
      if xml[m.p] == '>' && m.nbrackets == 0 then
        && m'.state == Begin && m'.nbrackets == 0 && m'.nsubs == m.nsubs
        && m'.start == m.start && m'.p == m.p + 1
        && m'.events == m.events + [OnDoctype(Since(xml, m))]
      else m' == Advance(m).(nbrackets := m'.nbrackets) && InDocType(xml, m')
  {
    hide Sound, InDocType;
    if !(xml[m.p] == '>' && m.nbrackets == 0) {
      InDocTypeMore(xml, m);
    }
  }

  lemma DocTypeRead(xml: string, m: Local, h: Story, n: Node)
    requires m.p < |xml| && InDocType(xml, m) && m.nbrackets == 0 && xml[m.p] == '>'
    requires Begun(xml, Doctype, h.at, m.start) && n == DocType(xml[m.start..m.p])
    requires NodesAt(xml, h.from, h.at, h.nodes)
    ensures ValidNode(n) && NodesAt(xml, h.from, m.p + 1, h.nodes + [n])
  {
    hide NodesAt, Lead, Spells, ValidDocType;
    DocTypeText(xml, m);
    assert xml[m.p..m.p + 1] == ">";
    StandsJoin(xml, m.start, m.p, ">");
    assert MarkupAt(xml, m.start - 8, m.p + 1, n);
    NodesMore(xml, h.from, h.at, m.p + 1, h.nodes, n);
  }

  lemma KeepsDocType(xml: string, parent: Parent, m: Local, h: Story) returns (h': Story)
    requires Wf(xml, m) && m.p < |xml| && m.state == Doctype && Keeps(xml, parent, m, h)
    ensures GoesOn(StepText(xml, m))
    ensures Keeps(xml, parent, Next(StepText(xml, m)), h') && h'.base == h.base && h'.from == h.from
  {
    hide StepText, Told, Sound, InDocType, NodesAt, ValidNode, Begun;
    DocTypeMoves(xml, m);
    var m' := Next(StepText(xml, m));
    if xml[m.p] == '>' && m.nbrackets == 0 {
      var n := DocType(Since(xml, m));
      h' := h.(nodes := h.nodes + [n], at := m.p + 1);
      DocTypeRead(xml, m, h, n);
      assert Inside(xml, parent, m', h');
      ToldMore(m, h, m', h', n);
    } else {
      h' := h;
      assert Inside(xml, parent, m', h');
      ToldSame(m, h, m', h');
    }
  }

  lemma KeepsText(xml: string, parent: Parent, m: Local, h: Story) returns (h': Story)
    requires Wf(xml, m) && m.p < |xml| && m.state in {PcData, CData, Comment, Doctype, Header}
    requires Keeps(xml, parent, m, h)
    ensures GoesOn(Step(xml, parent, m))
    ensures Keeps(xml, parent, Next(Step(xml, parent, m)), h') && h'.base == h.base && h'.from == h.from
  {
    hide Keeps, Step, StepText, Sound, Next;
    StepCases(xml, parent, m);
    match m.state
    case PcData => h' := KeepsPcData(xml, parent, m, h);
    case Doctype => h' := KeepsDocType(xml, parent, m, h);
    case Header => h' := KeepsHeader(xml, parent, m, h);
    case _ => h' := KeepsMarked(xml, parent, m, h);
  }

  // ----- whole runs -----

  /** Every pass keeps what is known of the text read. */
  lemma KeepsStep(xml: string, parent: Parent, m: Local, h: Story) returns (h': Story)
    requires Wf(xml, m) && m.p < |xml| && Keeps(xml, parent, m, h) && GoesOn(Step(xml, parent, m))
    ensures Keeps(xml, parent, Next(Step(xml, parent, m)), h') && h'.base == h.base && h'.from == h.from
  {
    hide Keeps, Step, StepText, Sound, Next;
    h' := h;
    StepStops(xml, parent, m);
    match m.state
    case IgnoreSpaces => KeepsSpaces(xml, parent, m, h);
    case Begin => KeepsBegin(xml, parent, m, h);
    case BeginNode => KeepsBeginNode(xml, parent, m, h);
    case TagName => h' := KeepsTagName(xml, parent, m, h);
    case Body => KeepsBody(xml, parent, m, h);
    case AttribName => h' := KeepsAttribName(xml, parent, m, h);
    case Equals => h' := KeepsEquals(xml, parent, m, h);
    case AttvalBegin => KeepsAttvalBegin(xml, parent, m, h);
    case AttribVal => h' := KeepsAttribVal(xml, parent, m, h);
    case WaitEnd => h' := KeepsWaitEnd(xml, parent, m, h);
    case Close => KeepsClose(xml, parent, m, h);
    case Childs =>
    case WaitEndRet =>
    case _ => h' := KeepsText(xml, parent, m, h);
  }

  lemma OthersStay(xml: string, m: Local)
    requires Wf(xml, m) && m.p < |xml|
    ensures m.state in {PcData, CData, Comment, Doctype, Header} ==> StepText(xml, m).Break?
    ensures m.state in {TagName, AttribName} ==> GoesOn(StepName(xml, m)) || StepName(xml, m).Error?
    ensures xml[m.p] == '!' ==> GoesOn(BeginBang(xml, m)) || BeginBang(xml, m).Error?
  {
    hide Spells, Sound;
  }

  /** Where the loop is left. */
  lemma StepStops(xml: string, parent: Parent, m: Local)
    requires Wf(xml, m) && m.p < |xml|
    ensures m.state == Childs ==> Step(xml, parent, m) == Descend(m)
    ensures m.state == WaitEndRet ==> !GoesOn(Step(xml, parent, m))
    ensures Step(xml, parent, m).Descend? ==> m.state == Childs
    ensures Step(xml, parent, m).Return? ==>
      && m.state == WaitEndRet && xml[m.p] == '>'
      && Step(xml, parent, m) == Return(if m.nsubs == 0 then Emit(m, OnPcData("")) else m)
  {
    hide Sound, BeginBang, StepText, StepName;
    OthersStay(xml, m);
  }

  lemma StartKept(xml: string, parent: Parent, p: nat, base: seq<Event>)
    requires p <= |xml|
    ensures Keeps(xml, parent, Start(p, base), Story(base, p, p, [], 0, [], 0, 0))
  {
    assert base + [] + [] == base;
  }

  lemma ElementRead(xml: string, m: Local, h: Story, n: Node, b: nat, j: nat)
    requires TagEnded(xml, m.p, '>', m.nodename, m.attribs, h) && NodesAt(xml, h.from, h.at, h.nodes)
    requires n.Element? && n == Element(m.nodename, h.attrs, n.kids) && ValidAll(n.kids)
    requires NodesAt(xml, m.p, b, n.kids) && CloseTagAt(xml, b, j, m.nodename)
    ensures ValidNode(n) && NodesAt(xml, h.from, j, h.nodes + [n])
    ensures Trace(n) == [OnXml(m.nodename, AttrMap(h.attrs))] + TraceBody(n.kids)
  {
    hide NodesAt, OpenTagAt, CloseTagAt, ValidName, ValidAttrs, AttrMap, ValidAll, TraceBody;
    assert ElementParts(xml, h.at, m.p - 1, b, j, n);
    NodesMore(xml, h.from, h.at, j, h.nodes, n);
  }

  /** Behind the closing tag of an element whose children were `kids`. */
  lemma KeepsResume(xml: string, parent: Parent, m: Local, h: Story, p: nat, kids: seq<Node>, b: nat)
    returns (h': Story)
    requires Keeps(xml, parent, m, h) && m.state == Childs && ValidAll(kids) && p < |xml|
    requires NodesAt(xml, m.p, b, kids) && CloseTagAt(xml, b, p + 1, m.nodename)
    ensures Keeps(xml, parent, Resume(m, p, m.events + TraceBody(kids)), h') && h'.base == h.base && h'.from == h.from
  {
    hide Told, ValidNode, ValidAll, AttrMap, TraceBody, NodesAt, CloseTagAt, TagEnded, Trace;
    var n := Element(m.nodename, h.attrs, kids);
    ElementRead(xml, m, h, n, b, p + 1);
    h' := h.(nodes := h.nodes + [n], at := p + 1);
    ToldElement(m, h, Resume(m, p, m.events + TraceBody(kids)), h', n, TraceBody(kids));
  }

  lemma CloseRead(xml: string, at: nat, start: nat, p: nat, name: string)
    requires InClose(xml, at, start) && EqualName(xml, start, name)
    requires Spaces(xml, start + |name|, p) && Is(xml, p, '>')
    ensures CloseTagAt(xml, at, p + 1, name)
  {
    hide Lead, EqualName;
    assert CloseParts(xml, at, start - 1, p + 1, name);
  }

  lemma AtReturn(xml: string, parent: Parent, m: Local, h: Story)
    requires Wf(xml, m) && m.p < |xml| && Step(xml, parent, m).Return? && Keeps(xml, parent, m, h)
    ensures ValidAll(h.nodes) && Step(xml, parent, m).m.events == h.base + TraceBody(h.nodes)
    ensures parent.Some? && NodesAt(xml, h.from, h.at, h.nodes) && CloseTagAt(xml, h.at, m.p + 1, parent.name)
  {
    hide Step, Told, TraceBody, ValidAll, Sound, NodesAt, Spaces, EqualName, InClose, CloseTagAt;
    StepStops(xml, parent, m);
    ToldBody(m, h);
    assert m.events + [] == m.events;
    CloseRead(xml, h.at, m.start, m.p, parent.name);
  }

  /** At the end of the text: what has been collected since `start` is a last text. */
  lemma AtEnd(xml: string, parent: Parent, m: Local, line: nat, h: Story) returns (all: seq<Node>)
    requires Wf(xml, m) && m.p == |xml| && Finish(xml, parent, m, line).Returned? && Keeps(xml, parent, m, h)
    ensures ValidAll(all) && Finish(xml, parent, m, line).events == h.base + TraceBody(all)
    ensures NodesAt(xml, h.from, |xml|, all)
  {
    hide Told, TraceBody, ValidAll, NodesAt, ValidNode;
    if m.state == PcData {
      var n := Text(Since(xml, m));
      all := h.nodes + [n];
      var m', h' := Emit(m, OnPcData(n.text)).(nsubs := m.nsubs + 1), h.(nodes := all);
      TextRead(xml, m, h, n);
      ToldMore(m, h, m', h', n);
      ToldBody(m', h');
      assert m'.events + [] == m'.events;
    } else {
      all := h.nodes;
      ToldBody(m, h);
      assert m.events + [] == m.events && xml[m.p..m.p] == "";
    }
  }

  /**
   From any point of any run: if it returns, it has read a valid forest, whose events it has reported,
   up to the end of the text or up to the closing tag of the element whose children these are.
   */
  lemma {:induction false} RunReads(xml: string, parent: Parent, m: Local, line: nat, h: Story)
    returns (all: seq<Node>, end: nat)
    requires Wf(xml, m) && Keeps(xml, parent, m, h) && Run(xml, parent, m, line).Returned?
    ensures var r := Run(xml, parent, m, line);
      && ValidAll(all) && r.events == h.base + TraceBody(all) && NodesAt(xml, h.from, end, all)
      && if parent.None? then r.p == end == |xml| else CloseTagAt(xml, end, r.p + 1, parent.name)
    decreases |xml| - m.p, Rank(m)
  {
    hide Step, Finish, Rank, Run, NewLine, Advance, Resume, Sound, Start, Keeps, TraceBody, ValidAll, Wf, NodesAt,
         CloseTagAt;
    PositionInText(xml, m);
    if m.p == |xml| {
      RunEnd(xml, parent, m, line);
      FinishOutside(xml, parent, m, line);
      all := AtEnd(xml, parent, m, line, h);
      end := |xml|;
    } else {
      match Step(xml, parent, m)
      case Continue(m') =>
        RunContinue(xml, parent, m, line, m');
        var h' := KeepsStep(xml, parent, m, h);
        all, end := RunReads(xml, parent, m', line, h');
      case Break(m') =>
        RunBreak(xml, parent, m, line, m');
        var h' := KeepsStep(xml, parent, m, h);
        all, end := RunReads(xml, parent, Advance(m'), line + NewLine(xml, m'.p + 1), h');
      case Return(m') =>
        RunReturn(xml, parent, m, line, m');
        AtReturn(xml, parent, m, h);
        all, end := h.nodes, h.at;
      case Error(msg, skipped) =>
        RunError(xml, parent, m, line, msg, skipped);
        assert false;
      case Descend(_) =>
        var inner := RunDescend(xml, parent, m, line);
        StartWf(xml, m.p, m.events);
        StartKept(xml, Some(m.nodename), m.p, m.events);
        StepStops(xml, parent, m);
        var inside := Story(m.events, m.p, m.p, [], 0, [], 0, 0);
        var kids, b := RunReads(xml, Some(m.nodename), Start(m.p, m.events), line, inside);
        var h' := KeepsResume(xml, parent, m, h, inner.p, kids, b);
        all, end :=
          RunReads(xml, parent, Resume(m, inner.p, inner.events), inner.line + NewLine(xml, inner.p + 1), h');
    }
  }

  lemma FinishOutside(xml: string, parent: Parent, m: Local, line: nat)
    requires Wf(xml, m) && m.p == |xml| && Finish(xml, parent, m, line).Returned?
    ensures parent.None? && Finish(xml, parent, m, line).p == |xml|
  {
  }

  /** Every accepted text is a document; it has been read to its end and its events have been reported. */
  lemma AcceptedDocument(xml: string) returns (nodes: seq<Node>)
    requires Parse(xml).Returned?
    ensures Document(xml, nodes) && Parse(xml).p == |xml| && Parse(xml).events == TraceBody(nodes)
  {
    hide Run, Keeps, TraceBody, ValidAll, NodesAt;
    StartWf(xml, 0, []);
    StartKept(xml, None, 0, []);
    var end;
    nodes, end := RunReads(xml, None, Start(0, []), 0, Story([], 0, 0, [], 0, [], 0, 0));
    assert [] + TraceBody(nodes) == TraceBody(nodes);
  }

  /** The parser accepts a text if and only if it is a document of its language. */
  lemma AcceptsDocuments(xml: string)
    ensures Parse(xml).Returned? <==> exists nodes :: Document(xml, nodes)
  {
    hide Parse, Document;
    if Parse(xml).Returned? {
      var nodes := AcceptedDocument(xml);
    }
    if nodes :| Document(xml, nodes) {
      ParseDocument(xml, nodes);
    }
  }
}
