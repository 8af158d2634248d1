/**
 The tree that the event handler of std/cpp/NativeXml.hx:62-127 builds, and what the missing `done`
 costs it: an element closed with a tag stays the current one, and takes in all that follows.
 */
module XmlTree {
  import opened XmlParser
  import opened XmlGrammar
  import opened XmlDocuments
  import opened XmlRoundTrip
  import opened Sequences

  datatype Xml =
    | XElement(name: string, att: map<string, string>, kids: seq<Xml>)
    | XPCData(text: string)
    | XCData(text: string)
    | XComment(text: string)
    | XDocType(text: string)
    | XInstruction(text: string)

  /** A node whose children are still being added: the document or an element. */
  datatype Frame = Frame(name: string, att: map<string, string>, kids: seq<Xml>)

  // ----- the handler -----

  function Substr1(text: string): string {
    if text == "" then "" else text[1..]
  }

  /** comment: text that begins with a question mark is a processing instruction. */
  function OnCommentNode(text: string): Xml {
    if |text| > 1 && text[0] == '?' then XInstruction(text[1..|text| - 1]) else XComment(text)
  }

  /** cur.addChild(x) */
  function AddChild(cur: Frame, x: Xml): Frame {
    cur.(kids := cur.kids + [x])
  }

  /**
   One event; the nodes from the document down to `cur`, the last of them.  None are left when
   `done` is called on the document, whose parent is null, and then nothing can be added.
   */
  function Handle(open: seq<Frame>, e: Event): seq<Frame> {
    if open == [] then []
    else
      var above, cur := open[..|open| - 1], open[|open| - 1];
      match e
      case OnXml(name, attribs) => open + [Frame(name, attribs, [])]
      case OnDone => if above == [] then [] else Closed(open)
      case OnPcData(text) => above + [AddChild(cur, XPCData(text))]
      case OnCData(text) => above + [AddChild(cur, XCData(text))]
      case OnComment(text) => above + [AddChild(cur, OnCommentNode(text))]
      case OnDoctype(text) => above + [AddChild(cur, XDocType(Substr1(text)))]
  }

  /** The last open node becomes a child of the one before it. */
  function Closed(open: seq<Frame>): (r: seq<Frame>)
    requires |open| >= 2
    ensures |r| == |open| - 1
  {
    var n := |open|;
    var f := open[n - 1];
    open[..n - 2] + [AddChild(open[n - 2], XElement(f.name, f.att, f.kids))]
  }

  function HandleAll(open: seq<Frame>, es: seq<Event>): seq<Frame>
    decreases |es|
  {
    if es == [] then open else HandleAll(Handle(open, es[0]), es[1..])
  }

  /** The children of the document when `tail` is added to the current node: each node is its parent's child. */
  function DocumentKids(open: seq<Frame>, tail: seq<Xml>): seq<Xml>
    requires open != []
    decreases |open|
  {
    var n := |open|;
    var f := open[n - 1];
    if n == 1 then f.kids + tail
    else DocumentKids(open[..n - 1], [XElement(f.name, f.att, f.kids + tail)])
  }

  const EMPTY_DOCUMENT := [Frame("", map[], [])]

  /** What the caller of the parser gets. */
  function Built(es: seq<Event>): seq<Xml> {
    var open := HandleAll(EMPTY_DOCUMENT, es);
    if open == [] then [] else DocumentKids(open, [])
  }

  // ----- the forest of a text -----

  function Tree(n: Node): Xml
    decreases n
  {
    match n
    case Element(name, attrs, kids) => XElement(name, AttrMap(attrs), Forest(kids))
    case EmptyElement(name, attrs) => XElement(name, AttrMap(attrs), [])
    case Text(text) => XPCData(text)
    case Section(text) => XCData(text)
    case Remark(text) => XComment(text)
    case Instruction(text) => XInstruction(text)
    case DocType(text) => XDocType(Substr1(text))
  }

  function Forest(nodes: seq<Node>): (f: seq<Xml>)
    ensures |f| == |nodes|
    decreases nodes
  {
    if nodes == [] then [] else [Tree(nodes[0])] + Forest(nodes[1..])
  }

  // ----- what is built -----

  /** The empty text that is reported where nothing counted was found. */
  function Filler(nodes: seq<Node>): seq<Xml> {
    if CountAll(nodes) == 0 then [XPCData("")] else []
  }

  /** One child, as the handler has it. */
  function Leaf(n: Node): Xml
    requires !n.Element?
  {
    match n
    case EmptyElement(name, attrs) => XElement(name, AttrMap(attrs), [])
    case Text(text) => XPCData(text)
    case Section(text) => XCData(text)
    case Remark(text) => OnCommentNode(text)
    case Instruction(text) => XInstruction(text)
    case DocType(text) => XDocType(Substr1(text))
  }

  /** The children that arise from nodes, when tail is added to the current node after them. */
  function Grown(nodes: seq<Node>, tail: seq<Xml>): seq<Xml>
    decreases nodes
  {
    if nodes == [] then tail
    else
      var rest := Grown(nodes[1..], tail);
      match nodes[0]
      case Element(name, attrs, kids) => [XElement(name, AttrMap(attrs), Grown(kids, Filler(kids) + rest))]
      case _ => [Leaf(nodes[0])] + rest
  }

  lemma {:induction false} HandleConcat(open: seq<Frame>, a: seq<Event>, b: seq<Event>)
    ensures HandleAll(open, a + b) == HandleAll(HandleAll(open, a), b)
    decreases |a|
  {
    hide Handle;
    if a == [] {
      assert a + b == b;
    } else {
      HandleConcat(Handle(open, a[0]), a[1..], b);
      assert (a + b)[1..] == a[1..] + b;
    }
  }

  lemma HandleOne(open: seq<Frame>, e: Event)
    ensures HandleAll(open, [e]) == Handle(open, e)
  {
    assert [e][1..] == [];
    assert HandleAll(Handle(open, e), []) == Handle(open, e);
  }

  lemma DocumentKidsOf(above: seq<Frame>, f: Frame, tail: seq<Xml>)
    ensures DocumentKids(above + [f], tail)
         == if above == [] then f.kids + tail else DocumentKids(above, [XElement(f.name, f.att, f.kids + tail)])
  {
    assert (above + [f])[..|above|] == above;
  }

  lemma AddChildIs(cur: Frame, x: Xml)
    ensures AddChild(cur, x) == Frame(cur.name, cur.att, cur.kids + [x])
  {
  }

  lemma AddedChild(open: seq<Frame>, x: Xml, tail: seq<Xml>)
    requires open != []
    ensures DocumentKids(open[..|open| - 1] + [AddChild(open[|open| - 1], x)], tail) == DocumentKids(open, [x] + tail)
  {
    hide DocumentKids, AddChild;
    var above, cur := open[..|open| - 1], open[|open| - 1];
    var now := AddChild(cur, x);
    assert open == above + [cur];
    DocumentKidsOf(above, now, tail);
    DocumentKidsOf(above, cur, [x] + tail);
    AddChildIs(cur, x);
    Assoc(cur.kids, [x], tail);
  }

  lemma OpenedChild(open: seq<Frame>, name: string, att: map<string, string>, tail: seq<Xml>)
    requires open != []
    ensures DocumentKids(open + [Frame(name, att, [])], tail) == DocumentKids(open, [XElement(name, att, tail)])
  {
    hide DocumentKids;
    DocumentKidsOf(open, Frame(name, att, []), tail);
    assert [] + tail == tail;
  }

  lemma EmptyChild(open: seq<Frame>, name: string, att: map<string, string>, tail: seq<Xml>)
    requires open != []
    ensures var now := HandleAll(open, [OnXml(name, att), OnDone]);
      now != [] && DocumentKids(now, tail) == DocumentKids(open, [XElement(name, att, [])] + tail)
  {
    var deeper := open + [Frame(name, att, [])];
    assert [OnXml(name, att), OnDone] == [OnXml(name, att)] + [OnDone];
    HandleConcat(open, [OnXml(name, att)], [OnDone]);
    HandleOne(open, OnXml(name, att));
    HandleOne(deeper, OnDone);
    assert deeper[..|deeper| - 1] == open && deeper[..|deeper| - 2] == open[..|open| - 1];
    AddedChild(open, XElement(name, att, []), tail);
  }

  lemma LeafBuilds(open: seq<Frame>, n: Node, tail: seq<Xml>)
    requires open != [] && !n.Element?
    ensures var now := HandleAll(open, Trace(n));
      now != [] && DocumentKids(now, tail) == DocumentKids(open, [Leaf(n)] + tail)
  {
    if n.EmptyElement? {
      EmptyChild(open, n.name, AttrMap(n.attrs), tail);
    } else {
      HandleOne(open, Trace(n)[0]);
      assert n.Instruction? ==> OnCommentNode("?" + n.text + "?") == XInstruction(n.text);
      AddedChild(open, Leaf(n), tail);
    }
  }

  /** The events of some nodes make of the document what Grown says, whatever comes after them. */
  lemma {:induction false} Builds(open: seq<Frame>, nodes: seq<Node>, tail: seq<Xml>)
    requires open != []
    ensures var now := HandleAll(open, TraceAll(nodes));
      now != [] && DocumentKids(now, tail) == DocumentKids(open, Grown(nodes, tail))
    decreases nodes, 0
  {
    if nodes != [] {
      var n, rest := nodes[0], nodes[1..];
      var more := Grown(rest, tail);
      HandleConcat(open, Trace(n), TraceAll(rest));
      var now := HandleAll(open, Trace(n));
      if n.Element? {
        ElementBuilds(open, n, more);
      } else {
        LeafBuilds(open, n, more);
      }
      Builds(now, rest, tail);
    }
  }

  lemma {:induction false} ElementBuilds(open: seq<Frame>, n: Node, tail: seq<Xml>)
    requires open != [] && n.Element?
    ensures HandleAll(open, Trace(n)) != []
    ensures DocumentKids(HandleAll(open, Trace(n)), tail)
         == DocumentKids(open, [XElement(n.name, AttrMap(n.attrs), Grown(n.kids, Filler(n.kids) + tail))])
    decreases n, 1
  {
    var first := OnXml(n.name, AttrMap(n.attrs));
    HandleConcat(open, [first], TraceBody(n.kids));
    HandleOne(open, first);
    BodyBuilds(open + [Frame(n.name, AttrMap(n.attrs), [])], n.kids, tail);
    OpenedChild(open, n.name, AttrMap(n.attrs), Grown(n.kids, Filler(n.kids) + tail));
  }

  lemma {:induction false} BodyBuilds(open: seq<Frame>, nodes: seq<Node>, tail: seq<Xml>)
    requires open != []
    ensures var now := HandleAll(open, TraceBody(nodes));
      now != [] && DocumentKids(now, tail) == DocumentKids(open, Grown(nodes, Filler(nodes) + tail))
    decreases nodes, 1
  {
    var es := TraceAll(nodes);
    Builds(open, nodes, Filler(nodes) + tail);
    if CountAll(nodes) == 0 {
      HandleConcat(open, es, [OnPcData("")]);
      HandleOne(HandleAll(open, es), OnPcData(""));
      AddedChild(HandleAll(open, es), XPCData(""), tail);
    } else {
      assert es + [] == es && [] + tail == tail;
    }
  }

  // ----- when what is built is the forest of the text -----

  /** None of these is an element closed with a tag. */
  predicate NoElement(nodes: seq<Node>) {
    forall i :: 0 <= i < |nodes| ==> !nodes[i].Element?
  }

  /** A comment that the handler takes for a processing instruction. */
  predicate Mistaken(n: Node) {
    n.Remark? && |n.text| > 1 && n.text[0] == '?'
  }

  /**
   Nothing follows an element closed with a tag, every such element has a child that is counted,
   and no comment begins with a question mark.
   */
  predicate Kept(nodes: seq<Node>)
    decreases nodes
  {
    nodes == [] ||
    (!Mistaken(nodes[0]) && Kept(nodes[1..]) &&
     (nodes[0].Element? ==> |nodes| == 1 && CountAll(nodes[0].kids) > 0 && Kept(nodes[0].kids)))
  }

  lemma {:induction false} GrownLength(nodes: seq<Node>, tail: seq<Xml>)
    requires NoElement(nodes)
    ensures |Grown(nodes, tail)| == |nodes| + |tail|
    decreases |nodes|
  {
    if nodes != [] {
      GrownLength(nodes[1..], tail);
    }
  }

  lemma {:induction false} NothingCounted(nodes: seq<Node>)
    requires CountAll(nodes) == 0
    ensures NoElement(nodes)
    decreases |nodes|
  {
    if nodes != [] {
      NothingCounted(nodes[1..]);
      assert nodes == [nodes[0]] + nodes[1..];
    }
  }

  /** What grows from nodes is their forest and then the tail, exactly when Kept and nothing is taken in. */
  lemma {:induction false} GrownIsForest(nodes: seq<Node>, tail: seq<Xml>)
    ensures Grown(nodes, tail) == Forest(nodes) + tail <==> Kept(nodes) && (tail == [] || NoElement(nodes))
    decreases nodes, 0
  {
    if nodes == [] {
      assert [] + tail == tail;
    } else {
      var n, rest := nodes[0], nodes[1..];
      var whole, more := Forest(nodes) + tail, Grown(rest, tail);
      assert whole == [Tree(n)] + (Forest(rest) + tail);
      GrownIsForest(rest, tail);
      assert NoElement(nodes) <==> !n.Element? && NoElement(rest) by {
        assert nodes == [n] + rest;
      }
      if n.Element? {
        if rest == [] && tail == [] {
          BodyIsForest(n.kids);
          assert Filler(n.kids) + [] == Filler(n.kids);
        } else {
          assert |Grown(nodes, tail)| == 1 && |whole| > 1;
        }
      } else {
        assert Leaf(n) == Tree(n) <==> !Mistaken(n);
        assert ([Leaf(n)] + more)[1..] == more && whole[1..] == Forest(rest) + tail;
      }
    }
  }

  lemma {:induction false} BodyIsForest(nodes: seq<Node>)
    ensures Grown(nodes, Filler(nodes)) == Forest(nodes) <==> CountAll(nodes) > 0 && Kept(nodes)
    decreases nodes, 1
  {
    if CountAll(nodes) == 0 {
      NothingCounted(nodes);
      GrownLength(nodes, Filler(nodes));
    } else {
      GrownIsForest(nodes, []);
      assert Forest(nodes) + [] == Forest(nodes);
    }
  }

  lemma BuiltIsGrown(xml: string, nodes: seq<Node>)
    requires Document(xml, nodes)
    ensures Built(Parse(xml).events) == Grown(nodes, Filler(nodes))
  {
    hide Parse, TraceBody, Document;
    ParseDocument(xml, nodes);
    BodyBuilds(EMPTY_DOCUMENT, nodes, []);
    var grown := Grown(nodes, Filler(nodes) + []);
    assert Filler(nodes) + [] == Filler(nodes);
    assert DocumentKids(EMPTY_DOCUMENT, grown) == [] + grown;
  }

  /** On no text that is accepted does `done` leave the handler without a current node. */
  lemma CurrentNodeStays(xml: string, nodes: seq<Node>)
    requires Document(xml, nodes)
    ensures HandleAll(EMPTY_DOCUMENT, Parse(xml).events) != []
  {
    hide Parse, TraceBody, Document, HandleAll;
    ParseDocument(xml, nodes);
    BodyBuilds(EMPTY_DOCUMENT, nodes, []);
  }

  /**
   Parsing a text builds the forest that it is if and only if no node follows an element closed with
   a tag, the document and every such element have a child that is counted, and no comment begins
   with a question mark.
   */
  lemma BuiltIsDocument(xml: string, nodes: seq<Node>)
    requires Document(xml, nodes)
    ensures Built(Parse(xml).events) == Forest(nodes) <==> CountAll(nodes) > 0 && Kept(nodes)
  {
    hide Built, Parse, Grown, Document;
    BuiltIsGrown(xml, nodes);
    BodyIsForest(nodes);
  }

  lemma BuiltOfOne(e: Event, x: Xml)
    requires Handle(EMPTY_DOCUMENT, e) == [AddChild(EMPTY_DOCUMENT[0], x)]
    ensures Built([e]) == [x]
  {
    HandleOne(EMPTY_DOCUMENT, e);
    assert [] + [x] == [x];
  }

  /**
   What the handler makes of the texts that are reported: the character behind DOCTYPE is dropped; text
   of more than one character that begins with a question mark is an instruction, without the question
   marks at its ends; everything else is kept.
   */
  lemma BuiltFromTexts(c: char, t: string)
    ensures Built([OnDoctype([c] + t)]) == [XDocType(t)] && Built([OnDoctype("")]) == [XDocType("")]
    ensures Built([OnComment("?" + t + [c])]) == [XInstruction(t)] && Built([OnComment("?")]) == [XComment("?")]
    ensures t == "" || t[0] != '?' ==> Built([OnComment(t)]) == [XComment(t)]
    ensures Built([OnPcData(t)]) == [XPCData(t)] && Built([OnCData(t)]) == [XCData(t)]
  {
    hide Built;
    assert ("?" + t + [c])[1..|t| + 1] == t;
    BuiltOfOne(OnDoctype([c] + t), XDocType(t));
    BuiltOfOne(OnDoctype(""), XDocType(""));
    BuiltOfOne(OnComment("?" + t + [c]), XInstruction(t));
    BuiltOfOne(OnComment("?"), XComment("?"));
    if t == "" || t[0] != '?' {
      BuiltOfOne(OnComment(t), XComment(t));
    }
    BuiltOfOne(OnPcData(t), XPCData(t));
    BuiltOfOne(OnCData(t), XCData(t));
  }

  /** Such a text: the second element becomes a child of the first. */
  lemma SecondBecomesChild()
    ensures var nodes := [Element("a", [], [Text("x")]), EmptyElement("b", [])];
      && ValidAll(nodes) && PrintAll(nodes) == "<a>x</a><b/>"
      && Built(Parse(PrintAll(nodes)).events) == [XElement("a", map[], [XPCData("x"), XElement("b", map[], [])])]
      && Forest(nodes) == [XElement("a", map[], [XPCData("x")]), XElement("b", map[], [])]
  {
    hide Parse, Built, Grown, Forest, ValidAll, PrintAll, CountAll;
    var kids, last := [Text("x")], EmptyElement("b", []);
    var nodes := [Element("a", [], kids), last];
    TwoPrinted(nodes, kids, last);
    TwoTrees(nodes, kids, last);
    PrintedIsDocument(nodes);
    BuiltIsGrown(PrintAll(nodes), nodes);
  }

  lemma TwoPrinted(nodes: seq<Node>, kids: seq<Node>, last: Node)
    requires kids == [Text("x")] && last == EmptyElement("b", []) && nodes == [Element("a", [], kids), last]
    ensures ValidAll(nodes) && PrintAll(nodes) == "<a>x</a><b/>"
  {
    assert nodes[1..] == [last] && kids[1..] == [] && [last][1..] == [];
    PrintOne(kids[0]);
    PrintOne(last);
    assert PrintAll(nodes) == Print(nodes[0]) + PrintAll([last]);
    assert ValidNode(kids[0]) && ValidAll(kids[1..]) && |kids| == 1;
    assert ValidAll(kids);
    assert ValidNode(last) && ValidAll([last][1..]);
    assert ValidAll([last]);
  }

  lemma TwoTrees(nodes: seq<Node>, kids: seq<Node>, last: Node)
    requires kids == [Text("x")] && last == EmptyElement("b", []) && nodes == [Element("a", [], kids), last]
    ensures Grown(nodes, Filler(nodes)) == [XElement("a", map[], [XPCData("x"), XElement("b", map[], [])])]
    ensures Forest(nodes) == [XElement("a", map[], [XPCData("x")]), XElement("b", map[], [])]
  {
    assert nodes[1..] == [last] && kids[1..] == [] && [last][1..] == [];
    assert CountAll(kids) == 1 && CountAll(nodes) > 0;
    var x, rest := XPCData("x"), [XElement("b", map[], [])];
    assert Grown([last], []) == rest + [] == rest;
    assert Grown(kids, [] + rest) == [x] + rest == [x, rest[0]];
    assert Forest(kids) == [x] + [] == [x] && Forest([last]) == rest + [] == rest;
    assert Forest(nodes) == [XElement("a", map[], [x])] + rest;
  }

  // ----- a text with every kind of node -----

  lemma Cons(n: Node, rest: seq<Node>)
    ensures var nodes := [n] + rest;
      && PrintAll(nodes) == Print(n) + PrintAll(rest) && TraceAll(nodes) == Trace(n) + TraceAll(rest)
      && (ValidAll(nodes) <==> ValidNode(n) && ValidAll(rest) && (n.Text? && rest != [] ==> !rest[0].Text?))
      && CountAll(nodes) == (if Counted(n) then 1 else 0) + CountAll(rest)
      && Forest(nodes) == [Tree(n)] + Forest(rest)
      && (!n.Element? && !Mistaken(n) && Kept(rest) ==> Kept(nodes))
  {
    assert ([n] + rest)[1..] == rest;
  }

  lemma Nil()
    ensures PrintAll([]) == "" && TraceAll([]) == [] && CountAll([]) == 0 && Forest([]) == []
    ensures ValidAll([]) && Kept([])
  {
  }

  const TAGS := "<!--f-->" + ("<![CDATA[g]]>" + ("h" + "<i/>"))

  /** A comment, a section, a text and an element that closes itself. */
  lemma Four() returns (kids: seq<Node>)
    ensures PrintAll(kids) == TAGS
    ensures TraceBody(kids) == [OnComment("f"), OnCData("g"), OnPcData("h"), OnXml("i", map[]), OnDone]
    ensures Forest(kids) == [XComment("f"), XCData("g"), XPCData("h"), XElement("i", map[], [])]
    ensures ValidAll(kids) && Kept(kids) && CountAll(kids) > 0
  {
    hide PrintAll, TraceAll, ValidAll, CountAll, Forest, Kept;
    var f, g, h, i := Remark("f"), Section("g"), Text("h"), EmptyElement("i", []);
    FourNodes(f, g, h, i);
    Nil();
    Cons(i, []);
    Cons(h, [i]);
    Cons(g, [h] + [i]);
    Cons(f, [g] + ([h] + [i]));
    kids := [f] + ([g] + ([h] + [i]));
    assert [i] + [] == [i] && "<i/>" + "" == "<i/>";
  }

  lemma FourNodes(f: Node, g: Node, h: Node, i: Node)
    requires f == Remark("f") && g == Section("g") && h == Text("h") && i == EmptyElement("i", [])
    ensures Print(f) == "<!--f-->" && Print(g) == "<![CDATA[g]]>" && Print(h) == "h" && Print(i) == "<i/>"
    ensures ValidNode(f) && ValidNode(g) && ValidNode(h) && ValidNode(i)
    ensures Trace(f) == [OnComment("f")] && Trace(g) == [OnCData("g")] && Trace(h) == [OnPcData("h")]
    ensures Trace(i) == [OnXml("i", map[]), OnDone]
    ensures Tree(f) == XComment("f") && Tree(g) == XCData("g") && Tree(h) == XPCData("h")
    ensures Tree(i) == XElement("i", map[], []) && !Mistaken(f)
  {
  }

  lemma Bracketed()
    ensures ValidDocType(" a[>]")
  {
    hide Depth;
    var s := " a[>]";
    NoDepth(s);
    DepthStep(s, 0);
    DepthStep(s, 1);
    DepthStep(s, 2);
    DepthStep(s, 3);
    DepthStep(s, 4);
  }

  const ATTRS := [Attr("b", "c", '"'), Attr("d", "e", '\'')]

  const ATTS := map["b" := "c", "d" := "e"]

  lemma Attributes()
    ensures PrintAttrs(ATTRS) == " b=\"c\" d='e'" && AttrMap(ATTRS) == ATTS && ValidAttrs(ATTRS)
  {
    var first, second := ATTRS[0], ATTRS[1];
    assert ATTRS[1..] == [second] && ATTRS[..1] == [first] && [second][1..] == [] && [first][..0] == [];
    assert PrintAttrs([second]) == PrintAttr(second) + PrintAttrs([]);
    assert AttrMap([first]) == map[]["b" := "c"];
  }

  lemma Prolog(v: Node, t: Node)
    requires v == Instruction("xml v") && t == DocType(" a[>]")
    ensures Print(v) == "<?xml v?>" && Print(t) == "<!DOCTYPE a[>]>" && ValidNode(v) && ValidNode(t)
    ensures Trace(v) == [OnComment("?xml v?")] && Trace(t) == [OnDoctype(" a[>]")]
    ensures Tree(v) == XInstruction("xml v") && Tree(t) == XDocType("a[>]")
    ensures !Mistaken(v) && !Mistaken(t) && !Counted(v) && !Counted(t)
  {
    hide ValidDocType, StandsAt;
    Bracketed();
    forall i | 0 <= i < |v.text|
      ensures !StandsAt(v.text, i, "?>")
    {
      StandsTwo(v.text, i);
    }
    assert "?" + v.text + "?" == "?xml v?";
  }

  lemma Root(a: Node, kids: seq<Node>)
    requires a == Element("a", ATTRS, kids) && ValidAll(kids) && Kept(kids) && CountAll(kids) > 0
    ensures Print(a) == "<a b=\"c\" d='e'" + (">" + (PrintAll(kids) + "</a>")) && ValidNode(a)
    ensures Trace(a) == [OnXml("a", ATTS)] + TraceBody(kids) && Tree(a) == XElement("a", ATTS, Forest(kids))
    ensures Counted(a) && Kept([a])
  {
    hide ValidAttrs, PrintAttrs, AttrMap, PrintAll, TraceBody, Forest;
    Attributes();
    PrintElement(a);
    assert "<" + "a" + " b=\"c\" d='e'" == "<a b=\"c\" d='e'" && "</" + "a" + ">" == "</a>";
    assert [a][1..] == [] && Kept([a][1..]);
  }

  lemma BodyOfCounted(nodes: seq<Node>)
    requires CountAll(nodes) > 0
    ensures TraceBody(nodes) == TraceAll(nodes)
  {
    assert TraceAll(nodes) + [] == TraceAll(nodes);
  }

  /** An element with attributes and such children, behind an instruction and a document type. */
  lemma AllKinds()
    ensures var text := "<?xml v?>" + ("<!DOCTYPE a[>]>" + ("<a b=\"c\" d='e'" + (">" + (TAGS + "</a>"))));
      && Parse(text).Returned?
      && Parse(text).events
         == [OnComment("?xml v?"), OnDoctype(" a[>]"), OnXml("a", ATTS), OnComment("f"), OnCData("g"), OnPcData("h"),
             OnXml("i", map[]), OnDone]
      && Built(Parse(text).events)
         == [XInstruction("xml v"), XDocType("a[>]"),
             XElement("a", ATTS, [XComment("f"), XCData("g"), XPCData("h"), XElement("i", map[], [])])]
  {
    hide PrintAll, TraceAll, TraceBody, ValidAll, CountAll, Forest, Kept, Parse, Built, Print, Trace, ValidNode, Tree,
         Counted, Mistaken;
    var kids := Four();
    var v, t, a := Instruction("xml v"), DocType(" a[>]"), Element("a", ATTRS, kids);
    Prolog(v, t);
    Root(a, kids);
    Nil();
    Cons(a, []);
    assert [a] + [] == [a] && Print(a) + "" == Print(a);
    Cons(t, [a]);
    Cons(v, [t] + [a]);
    var nodes := [v] + ([t] + [a]);
    BodyOfCounted(nodes);
    ParsePrinted(nodes);
    PrintedIsDocument(nodes);
    BuiltIsDocument(PrintAll(nodes), nodes);
  }
}
