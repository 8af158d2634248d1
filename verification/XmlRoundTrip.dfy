/**
 Printing XML trees, and what the parser of std/cpp/NativeXmlImport.cpp makes of the printed form:
 every valid forest is the forest of some text, and comes back as its events.
 */
module XmlRoundTrip {
  import opened XmlParser
  import opened XmlGrammar
  import opened XmlDocuments
  import opened Sequences

  // ----- printing -----

  function PrintAttr(a: Attr): string {
    " " + a.name + "=" + [a.quote] + a.value + [a.quote]
  }

  function PrintAttrs(attrs: seq<Attr>): string {
    if attrs == [] then "" else PrintAttr(attrs[0]) + PrintAttrs(attrs[1..])
  }

  function Print(n: Node): string {
    match n
    case Element(name, attrs, kids) =>
      "<" + name + PrintAttrs(attrs) + ">" + PrintAll(kids) + "</" + name + ">"
    case EmptyElement(name, attrs) => "<" + name + PrintAttrs(attrs) + "/>"
    case Text(text) => text
    case Section(text) => "<![CDATA[" + text + "]]>"
    case Remark(text) => "<!--" + text + "-->"
    case Instruction(text) => "<?" + text + "?>"
    case DocType(text) => "<!DOCTYPE" + text + ">"
  }

  function PrintAll(nodes: seq<Node>): string {
    if nodes == [] then "" else Print(nodes[0]) + PrintAll(nodes[1..])
  }

  // ----- the printed form is a document -----

  lemma AttrShape(a: Attr)
    ensures PrintAttr(a) == " " + (a.name + ("=" + ([a.quote] + a.value + [a.quote])))
  {
  }

  lemma SpaceAt(xml: string, i: nat)
    requires StandsAt(xml, i, " ")
    ensures Spaces(xml, i, i + 1)
  {
    StandsChar(xml, i, " ", 0);
  }

  lemma NoSpaceAt(xml: string, i: nat, word: string)
    requires StandsAt(xml, i, word)
    ensures Spaces(xml, i, i) && Spaces(xml, i + |word|, i + |word|)
  {
  }

  lemma PrintedAttr(xml: string, i: nat, a: Attr)
    requires StandsAt(xml, i, PrintAttr(a))
    ensures AttrAt(xml, i, i + |PrintAttr(a)|, a)
  {
    hide StandsAt, PrintAttr, Spaces;
    var value := [a.quote] + a.value + [a.quote];
    var s, e := i + 1, i + 1 + |a.name|;
    AttrShape(a);
    StandsSplit(xml, i, " ", a.name + ("=" + value));
    StandsSplit(xml, s, a.name, "=" + value);
    StandsSplit(xml, e, "=", value);
    StandsChar(xml, e, "=", 0);
    SpaceAt(xml, i);
    NoSpaceAt(xml, s, a.name);
    NoSpaceAt(xml, e, "=");
    assert AttrParts(xml, i, s, e, e + 1, i + |PrintAttr(a)|, a);
  }

  lemma {:induction false} PrintAttrsLast(attrs: seq<Attr>)
    requires attrs != []
    ensures var n := |attrs| - 1; PrintAttrs(attrs) == PrintAttrs(attrs[..n]) + PrintAttr(attrs[n])
    decreases |attrs|
  {
    hide PrintAttr;
    var n := |attrs| - 1;
    if n == 0 {
      assert attrs[1..] == [] && attrs[..0] == [];
      assert PrintAttrs(attrs) == PrintAttr(attrs[0]) + PrintAttrs([]);
    } else {
      PrintAttrsLast(attrs[1..]);
      assert attrs[1..][..n - 1] == attrs[..n][1..];
      Assoc(PrintAttr(attrs[0]), PrintAttrs(attrs[..n][1..]), PrintAttr(attrs[n]));
    }
  }

  lemma {:induction false} PrintedAttrs(xml: string, i: nat, attrs: seq<Attr>)
    requires StandsAt(xml, i, PrintAttrs(attrs))
    ensures AttrsAt(xml, i, i + |PrintAttrs(attrs)|, attrs)
    decreases |attrs|
  {
    hide StandsAt, PrintAttr, AttrAt;
    if attrs != [] {
      var n := |attrs| - 1;
      PrintAttrsLast(attrs);
      StandsSplit(xml, i, PrintAttrs(attrs[..n]), PrintAttr(attrs[n]));
      PrintedAttrs(xml, i, attrs[..n]);
      PrintedAttr(xml, i + |PrintAttrs(attrs[..n])|, attrs[n]);
    }
  }

  lemma AttrsStart(attrs: seq<Attr>)
    requires attrs != []
    ensures PrintAttrs(attrs) != "" && PrintAttrs(attrs)[0] == ' '
  {
  }

  lemma PrintedTag(xml: string, i: nat, name: string, attrs: seq<Attr>, c: char)
    requires StandsAt(xml, i, "<" + name + PrintAttrs(attrs)) && (c == '>' || c == '/')
    requires Is(xml, i + 1 + |name| + |PrintAttrs(attrs)|, c)
    ensures OpenTagAt(xml, i, i + 1 + |name| + |PrintAttrs(attrs)|, name, attrs)
  {
    hide StandsAt, PrintAttrs, AttrsAt, Spaces;
    var e, j := i + 1 + |name|, i + 1 + |name| + |PrintAttrs(attrs)|;
    StandsSplit(xml, i, "<" + name, PrintAttrs(attrs));
    StandsSplit(xml, i, "<", name);
    StandsChar(xml, i, "<", 0);
    NoSpaceAt(xml, i + 1, name);
    NoSpaceAt(xml, e, PrintAttrs(attrs));
    PrintedAttrs(xml, e, attrs);
    if attrs != [] {
      AttrsStart(attrs);
      StandsChar(xml, e, PrintAttrs(attrs), 0);
    } else {
      assert PrintAttrs(attrs) == "" by { NoAttrs(); }
    }
    assert TagParts(xml, i, i + 1, j, name, attrs);
    assert TagAt(xml, i, j, name, attrs);
  }

  lemma NoAttrs()
    ensures PrintAttrs([]) == ""
  {
  }

  lemma PrintedCloseTag(xml: string, i: nat, name: string)
    requires StandsAt(xml, i, "</" + name + ">")
    ensures Is(xml, i, '<') && CloseTagAt(xml, i, i + 3 + |name|, name)
  {
    hide StandsAt, Spaces;
    StandsSplit(xml, i, "</" + name, ">");
    StandsSplit(xml, i, "</", name);
    StandsChar(xml, i, "</", 0);
    StandsChar(xml, i, "</", 1);
    StandsSlice(xml, i + 2, name);
    StandsChar(xml, i + 2 + |name|, ">", 0);
    NoSpaceAt(xml, i, "</");
    NoSpaceAt(xml, i + 2, name);
    OneIn(xml, i);
    assert CloseParts(xml, i, i + 1, i + 3 + |name|, name);
  }

  lemma OneIn(xml: string, i: nat)
    requires i < |xml|
    ensures Spaces(xml, i + 1, i + 1)
  {
  }

  lemma {:induction false} SpellsWord(xml: string, i: nat, text: string, word: string)
    requires StandsAt(xml, i, text) && |text| == |word| && '\0' !in word
    requires forall k :: 0 <= k < |text| ==> text[k] != '\0' && ToLower(text[k]) == word[k]
    ensures Spells(xml, i, word)
    decreases |word|
  {
    if word != [] {
      assert text == text[..1] + text[1..];
      StandsSplit(xml, i, text[..1], text[1..]);
      StandsChar(xml, i, text, 0);
      SpellsWord(xml, i + 1, text[1..], word[1..]);
    }
  }

  lemma PrintedSection(xml: string, i: nat, n: Node)
    requires n.Section? && StandsAt(xml, i, Print(n))
    ensures NodeAt(xml, i, i + |Print(n)|, n)
  {
    hide StandsAt, Spells, Spaces;
    var tail := n.text + "]]>";
    assert Print(n) == "<![" + ("CDATA[" + tail);
    StandsSplit(xml, i, "<![", "CDATA[" + tail);
    StandsSplit(xml, i + 3, "CDATA[", tail);
    StandsChar(xml, i, "<![", 0);
    StandsChar(xml, i, "<![", 1);
    StandsChar(xml, i, "<![", 2);
    SpellsWord(xml, i + 3, "CDATA[", "cdata[");
    OneIn(xml, i);
    assert Lead(xml, i, i + 1) && MarkupAt(xml, i + 1, i + |Print(n)|, n);
  }

  lemma PrintedDocType(xml: string, i: nat, n: Node)
    requires n.DocType? && StandsAt(xml, i, Print(n))
    ensures NodeAt(xml, i, i + |Print(n)|, n)
  {
    hide StandsAt, Spells, Spaces;
    var tail := n.text + ">";
    assert Print(n) == "<!" + ("DOCTYPE" + tail);
    StandsSplit(xml, i, "<!", "DOCTYPE" + tail);
    StandsSplit(xml, i + 2, "DOCTYPE", tail);
    StandsChar(xml, i, "<!", 0);
    StandsChar(xml, i, "<!", 1);
    SpellsWord(xml, i + 2, "DOCTYPE", "doctype");
    OneIn(xml, i);
    assert Lead(xml, i, i + 1) && MarkupAt(xml, i + 1, i + |Print(n)|, n);
  }

  lemma PrintedRemark(xml: string, i: nat, n: Node)
    requires n.Remark? && StandsAt(xml, i, Print(n))
    ensures NodeAt(xml, i, i + |Print(n)|, n)
  {
    hide StandsAt, Spaces;
    var tail := n.text + "-->";
    assert Print(n) == "<!--" + tail;
    StandsSplit(xml, i, "<!--", tail);
    StandsChar(xml, i, "<!--", 0);
    StandsChar(xml, i, "<!--", 1);
    StandsChar(xml, i, "<!--", 2);
    StandsChar(xml, i, "<!--", 3);
    OneIn(xml, i);
    assert Lead(xml, i, i + 1) && MarkupAt(xml, i + 1, i + |Print(n)|, n);
  }

  lemma PrintedInstruction(xml: string, i: nat, n: Node)
    requires n.Instruction? && StandsAt(xml, i, Print(n))
    ensures NodeAt(xml, i, i + |Print(n)|, n)
  {
    hide StandsAt, Spaces;
    var tail := n.text + "?>";
    assert Print(n) == "<?" + tail;
    StandsSplit(xml, i, "<?", tail);
    StandsChar(xml, i, "<?", 0);
    StandsChar(xml, i, "<?", 1);
    OneIn(xml, i);
    assert Lead(xml, i, i + 1) && MarkupAt(xml, i + 1, i + |Print(n)|, n);
  }

  lemma PrintedEmptyElement(xml: string, i: nat, n: Node)
    requires n.EmptyElement? && StandsAt(xml, i, Print(n))
    ensures NodeAt(xml, i, i + |Print(n)|, n)
  {
    hide StandsAt, PrintAttrs, OpenTagAt;
    var tag := "<" + n.name + PrintAttrs(n.attrs);
    StandsSplit(xml, i, tag, "/>");
    StandsChar(xml, i + |tag|, "/>", 0);
    StandsChar(xml, i + |tag|, "/>", 1);
    PrintedTag(xml, i, n.name, n.attrs, '/');
  }

  lemma PrintElement(n: Node)
    requires n.Element?
    ensures Print(n) == ("<" + n.name + PrintAttrs(n.attrs)) + (">" + (PrintAll(n.kids) + ("</" + n.name + ">")))
  {
    hide PrintAttrs, PrintAll;
    var open, body := "<" + n.name + PrintAttrs(n.attrs), PrintAll(n.kids);
    var front := open + ">" + body;
    Assoc(front, "</", n.name);
    Assoc(front, "</" + n.name, ">");
    Assoc(open + ">", body, "</" + n.name + ">");
    Assoc(open, ">", body + ("</" + n.name + ">"));
  }

  lemma {:induction false} PrintedElement(xml: string, i: nat, n: Node)
    requires n.Element? && StandsAt(xml, i, Print(n))
    ensures NodeAt(xml, i, i + |Print(n)|, n)
    decreases n, 0
  {
    hide StandsAt, PrintAttrs, OpenTagAt, CloseTagAt, NodesAt, PrintAll, Print;
    var open, body, close := "<" + n.name + PrintAttrs(n.attrs), PrintAll(n.kids), "</" + n.name + ">";
    PrintElement(n);
    var a := i + |open|;
    var b := a + 1 + |body|;
    StandsSplit(xml, i, open, ">" + (body + close));
    StandsSplit(xml, a, ">", body + close);
    StandsSplit(xml, a + 1, body, close);
    StandsChar(xml, a, ">", 0);
    PrintedTag(xml, i, n.name, n.attrs, '>');
    PrintedNodes(xml, a + 1, n.kids);
    PrintedCloseTag(xml, b, n.name);
    assert ElementParts(xml, i, a, b, i + |Print(n)|, n);
  }

  lemma {:induction false} PrintedNodes(xml: string, i: nat, nodes: seq<Node>)
    requires StandsAt(xml, i, PrintAll(nodes))
    ensures NodesAt(xml, i, i + |PrintAll(nodes)|, nodes)
    decreases nodes, 1
  {
    hide StandsAt, NodeAt, Print;
    if nodes != [] {
      var n, rest := nodes[0], nodes[1..];
      StandsSplit(xml, i, Print(n), PrintAll(rest));
      PrintedNode(xml, i, n);
      PrintedNodes(xml, i + |Print(n)|, rest);
    }
  }

  lemma PrintedNode(xml: string, i: nat, n: Node)
    requires StandsAt(xml, i, Print(n))
    ensures NodeAt(xml, i, i + |Print(n)|, n)
    decreases n, 1
  {
    hide StandsAt, MarkupAt, Lead, OpenTagAt, PrintAttrs, PrintAll;
    match n
    case Element(_, _, _) => PrintedElement(xml, i, n);
    case EmptyElement(_, _) => PrintedEmptyElement(xml, i, n);
    case Text(_) =>
    case Section(_) => PrintedSection(xml, i, n);
    case Remark(_) => PrintedRemark(xml, i, n);
    case Instruction(_) => PrintedInstruction(xml, i, n);
    case DocType(_) => PrintedDocType(xml, i, n);
  }

  lemma StandsWhole(s: string)
    ensures StandsAt(s, 0, s)
  {
    assert s[0..|s|] == s;
  }

  /** Every valid forest is that of a text: of its printed form. */
  lemma PrintedIsDocument(nodes: seq<Node>)
    requires ValidAll(nodes)
    ensures Document(PrintAll(nodes), nodes)
  {
    hide StandsAt, NodesAt, PrintAll;
    StandsWhole(PrintAll(nodes));
    PrintedNodes(PrintAll(nodes), 0, nodes);
  }

  /**
   The round trip: for every valid forest, at any depth, the parser accepts its printed form,
   reads all of it, and reports exactly its events.
   */
  lemma ParsePrinted(nodes: seq<Node>)
    requires ValidAll(nodes)
    ensures var xml := PrintAll(nodes);
      Parse(xml).Returned? && Parse(xml).p == |xml| && Parse(xml).events == TraceBody(nodes)
  {
    hide Parse, Document;
    PrintedIsDocument(nodes);
    ParseDocument(PrintAll(nodes), nodes);
  }

  // ----- when nothing was found -----

  lemma {:induction false} CountedSome(nodes: seq<Node>)
    ensures CountAll(nodes) > 0 <==>
      exists n :: n in nodes && (n.Element? || n.EmptyElement? || n.Text? || n.Section?)
  {
    if nodes != [] {
      var n, rest := nodes[0], nodes[1..];
      CountedSome(rest);
      assert nodes == [n] + rest;
      assert n in nodes;
    }
  }

  /** An empty text is reported after nodes among which is no element, no text and no section. */
  lemma EmptyTextReported(nodes: seq<Node>)
    ensures TraceBody(nodes) == TraceAll(nodes) +
      if exists n :: n in nodes && (n.Element? || n.EmptyElement? || n.Text? || n.Section?) then []
      else [OnPcData("")]
  {
    hide TraceAll, CountAll;
    CountedSome(nodes);
  }

  // ----- opening and closing reports -----

  function Opens(es: seq<Event>): nat {
    if es == [] then 0 else (if es[0].OnXml? then 1 else 0) + Opens(es[1..])
  }

  function Dones(es: seq<Event>): nat {
    if es == [] then 0 else (if es[0].OnDone? then 1 else 0) + Dones(es[1..])
  }

  /** The elements of a forest written with a closing tag. */
  function ClosedByTag(nodes: seq<Node>): nat
    decreases nodes
  {
    if nodes == [] then 0
    else (if nodes[0].Element? then 1 + ClosedByTag(nodes[0].kids) else 0) + ClosedByTag(nodes[1..])
  }

  lemma {:induction false} CountsConcat(a: seq<Event>, b: seq<Event>)
    ensures Opens(a + b) == Opens(a) + Opens(b) && Dones(a + b) == Dones(a) + Dones(b)
  {
    if a == [] {
      assert a + b == b;
    } else {
      CountsConcat(a[1..], b);
      assert (a + b)[1..] == a[1..] + b;
    }
  }

  lemma {:induction false} TraceCounts(nodes: seq<Node>)
    ensures Opens(TraceBody(nodes)) == Dones(TraceBody(nodes)) + ClosedByTag(nodes)
    ensures Opens(TraceAll(nodes)) == Dones(TraceAll(nodes)) + ClosedByTag(nodes)
    decreases nodes
  {
    CountsConcat(TraceAll(nodes), if CountAll(nodes) == 0 then [OnPcData("")] else []);
    if nodes != [] {
      var n, rest := nodes[0], nodes[1..];
      TraceCounts(rest);
      CountsConcat(Trace(n), TraceAll(rest));
      match n
      case Element(name, attrs, kids) =>
        TraceCounts(kids);
        CountsConcat([OnXml(name, AttrMap(attrs))], TraceBody(kids));
      case EmptyElement(name, attrs) =>
        CountsConcat([OnXml(name, AttrMap(attrs))], [OnDone]);
        assert Trace(n) == [OnXml(name, AttrMap(attrs))] + [OnDone];
      case _ =>
    }
  }

  /**
   The handler is promised `done` whenever a node is closed.  The parser calls it for self-closing
   elements only: on every text that it accepts, the openings exceed the closings by the elements
   closed with a tag, so that the two balance if and only if there are none of those.
   */
  lemma DoneOnlyIfSelfClosed(xml: string, nodes: seq<Node>)
    requires Document(xml, nodes)
    ensures var es := Parse(xml).events;
      && Opens(es) == Dones(es) + ClosedByTag(nodes)
      && (Opens(es) == Dones(es) <==> ClosedByTag(nodes) == 0)
  {
    hide Parse, Document;
    ParseDocument(xml, nodes);
    TraceCounts(nodes);
  }

  /** One such text: an element is opened, and never reported as closed. */
  lemma DoneMissing()
    ensures var es := Parse("<a>x</a>").events; Opens(es) == 1 && Dones(es) == 0
  {
    hide Parse;
    var kids := [Text("x")];
    var nodes := [Element("a", [], kids)];
    assert PrintAll(kids) == "x" by { PrintOne(kids[0]); }
    assert PrintAll(nodes) == "<a>x</a>" by { PrintOne(nodes[0]); }
    TraceOfOne(nodes[0]);
    ParsePrinted(nodes);
    TraceCounts(nodes);
  }

  lemma PrintOne(n: Node)
    ensures PrintAll([n]) == Print(n)
  {
    assert [n][1..] == [];
    assert PrintAll([n]) == Print(n) + PrintAll([]);
  }

  lemma TraceOfOne(n: Node)
    requires n == Element("a", [], [Text("x")])
    ensures ValidAll([n]) && ClosedByTag([n]) == 1 && Dones(TraceBody([n])) == 0
  {
    hide TraceBody, TraceAll, ValidAll, CountAll;
    var kids := n.kids;
    OneNode(kids[0]);
    OneNode(n);
    assert TraceBody(kids) == [OnPcData("x")];
    assert Trace(n) == [OnXml("a", map[])] + [OnPcData("x")];
    assert [n][1..] == [] && ClosedByTag(kids) == 0;
    assert Dones([OnPcData("x")]) == 0;
    assert TraceBody([n])[1..] == [OnPcData("x")];
  }

  lemma OneNode(n: Node)
    requires Counted(n)
    ensures TraceBody([n]) == Trace(n) && (ValidAll([n]) <==> ValidNode(n)) && CountAll([n]) == 1
  {
    assert [n][1..] == [];
    assert TraceAll([n]) == Trace(n) + TraceAll([]);
    assert CountAll([n]) == 1 + CountAll([]);
  }
}
