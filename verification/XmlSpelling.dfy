/**
 What the parser of std/cpp/NativeXmlImport.cpp makes of single characters, said of whole texts: which
 characters are part of a name, which ones are spaces, and when a closing tag has the right name.
 */
module XmlSpelling {
  import opened XmlParser
  import opened XmlGrammar
  import opened XmlDocuments
  import opened XmlAccepted
  import opened XmlUnique
  import opened XmlRoundTrip

  lemma Accepted(xml: string, nodes: seq<Node>)
    requires Document(xml, nodes)
    ensures Parse(xml).Returned?
  {
    hide Parse, Document;
    AcceptsDocuments(xml);
  }

  /** The first tag of an accepted text that begins with a tag. */
  lemma FirstNode(xml: string) returns (n: Node, j: nat)
    requires Parse(xml).Returned? && xml != "" && xml[0] == '<'
    ensures ValidNode(n) && NodeAt(xml, 0, j, n) && !n.Text?
  {
    hide Parse, NodeAt, ValidNode, NodesAt;
    var nodes := AcceptedDocument(xml);
    n, j := FirstOf(xml, nodes);
    if n.Text? {
      TextStarts(xml, 0, j, n);
    }
  }

  lemma FirstOf(xml: string, nodes: seq<Node>) returns (n: Node, j: nat)
    requires xml != "" && NodesAt(xml, 0, |xml|, nodes) && ValidAll(nodes)
    ensures ValidNode(n) && NodeAt(xml, 0, j, n)
  {
    hide NodeAt, ValidNode;
    n := nodes[0];
    j :| NodeAt(xml, 0, j, n) && NodesAt(xml, j, |xml|, nodes[1..]);
  }

  // ----- the characters of a name -----

  lemma OneTag(xml: string, name: string)
    requires xml == "<" + name + "/>" && ValidName(name)
    ensures Document(xml, [EmptyElement(name, [])])
  {
    hide ValidName, IsValidChar;
    var n, j := EmptyElement(name, []), 1 + |name|;
    var nodes := [n];
    EndsName(xml[j]);
    TagAtStart(xml, name);
    NoSpaces(xml, j);
    assert OpenTagAt(xml, 0, j, name, []);
    assert nodes[1..] == [] && ValidAll(nodes[1..]) && NodesAt(xml, |xml|, |xml|, nodes[1..]);
    assert NodeAt(xml, 0, |xml|, n);
    assert ValidNode(n);
  }

  lemma EndsName(c: char)
    requires c == '>' || c == '/'
    ensures !IsValidChar(c) && !IsSpace(c)
  {
  }

  /** `<` and a name at the beginning of a text. */
  lemma TagAtStart(xml: string, name: string)
    requires ValidName(name) && |xml| > 1 + |name| && xml[0] == '<' && xml[1..1 + |name|] == name
    requires !IsValidChar(xml[1 + |name|])
    ensures TagAt(xml, 0, 1 + |name|, name, []) && ValidAttrs([])
  {
    hide ValidName, IsValidChar;
    NoSpaces(xml, 1);
    assert TagParts(xml, 0, 1, 1 + |name|, name, []);
  }

  lemma NotTagStart(xml: string, c: char)
    requires xml == "<" + [c] + "/>" && !IsValidChar(c)
    ensures Parse(xml).Failed?
  {
    hide Parse, NodeAt, ValidNode, Spaces, Lead, Tagged, MarkupAt, IsValidChar;
    if Parse(xml).Returned? {
      var n, j := FirstNode(xml);
      var b := NodeBegins(xml, 0, j, n);
      SecondAt(xml, c, b);
      if IsMarkup(n) {
        var b' := MarkupChars(xml, 0, j, n);
        TaggedFrom(xml, 0, b');
        TaggedUnique(xml, 0, b, b');
        NoMarkup(xml, c, j, n);
      } else {
        var b' := NameBegins(xml, 0, j, n);
        TaggedUnique(xml, 0, b, b');
      }
    }
  }

  lemma TaggedFrom(xml: string, i: nat, b: nat)
    requires Lead(xml, i, b) && b < |xml| && (xml[b] == '!' || xml[b] == '?')
    ensures Tagged(xml, i, b)
  {
  }

  lemma SecondAt(xml: string, c: char, b: nat)
    requires xml == "<" + [c] + "/>" && Tagged(xml, 0, b)
    ensures b == 1
  {
    SpacesEnd(xml, 1, 2, b);
  }

  lemma NoMarkup(xml: string, c: char, j: nat, n: Node)
    requires xml == "<" + [c] + "/>" && IsMarkup(n)
    ensures !MarkupAt(xml, 1, j, n)
  {
    hide StandsAt;
    if n.DocType? {
      SpellsDocType(xml, 2);
    } else if n.Instruction? && StandsAt(xml, 2, n.text + "?>") {
      StandsSplit(xml, 2, n.text, "?>");
      StandsChar(xml, 2 + |n.text|, "?>", 0);
      StandsChar(xml, 2 + |n.text|, "?>", 1);
    }
  }

  /** The name of an element, behind `<` and spaces. */
  lemma NameBegins(xml: string, i: nat, j: nat, n: Node) returns (b: nat)
    requires NodeAt(xml, i, j, n) && ValidNode(n) && (n.Element? || n.EmptyElement?)
    ensures Tagged(xml, i, b) && b < |xml| && IsValidChar(xml[b])
  {
    hide OpenTagAt, ValidAttrs, ValidName, CloseTagAt, NodesAt, ValidAll, Tagged, IsValidChar;
    if n.Element? {
      var a: nat, e: nat :| ElementParts(xml, i, a, e, j, n);
      b := TagStarts(xml, i, a, n.name, n.attrs);
    } else {
      b := TagStarts(xml, i, j - 2, n.name, n.attrs);
    }
  }

  /** The characters that a name is made of. */
  lemma NameCharacters(c: char)
    ensures Parse("<" + [c] + "/>").Returned? <==>
      || 'a' <= c <= 'z' || 'A' <= c <= 'Z' || '0' <= c <= '9' || c == ':' || c == '.' || c == '_' || c == '-'
  {
    hide Parse;
    var xml := "<" + [c] + "/>";
    if IsValidChar(c) {
      OneTag(xml, [c]);
      Accepted(xml, [EmptyElement([c], [])]);
    } else {
      NotTagStart(xml, c);
    }
  }

  // ----- spaces -----

  lemma SpaceEndsName(xml: string, c: char)
    requires xml == "<a" + [c] + "/>" && IsSpace(c)
    ensures Document(xml, [EmptyElement("a", [])])
  {
    var n := EmptyElement("a", []);
    var nodes := [n];
    TagAtStart(xml, "a");
    assert Spaces(xml, 2, 3);
    assert OpenTagAt(xml, 0, 3, "a", []);
    assert nodes[1..] == [] && ValidAll(nodes[1..]) && NodesAt(xml, |xml|, |xml|, nodes[1..]);
    assert NodeAt(xml, 0, |xml|, n);
    assert ValidNode(n);
  }

  /** Behind the name a tag can only end. */
  lemma TagEndsThere(xml: string, c: char, j: nat, name: string, attrs: seq<Attr>)
    requires xml == "<a" + [c] + "/>" && !IsValidChar(c) && !IsSpace(c)
    requires OpenTagAt(xml, 0, j, name, attrs) && ValidName(name) && ValidAttrs(attrs)
    ensures j == 2
  {
    hide Spaces, StandsAt, Lead, AttrAt, AttrsAt, ValidName, ValidAttrs, IsValidChar, IsSpace;
    var k: nat :| TagAt(xml, 0, k, name, attrs) && Spaces(xml, k, j);
    var b: nat :| TagParts(xml, 0, b, k, name, attrs);
    StartsWithA(xml, c);
    NameStarts(xml, b, name);
    LeadUnique(xml, 0, b, 1);
    NameUnique(xml, 1, name, "a");
    NoAttrHere(xml, k, attrs);
    SpacesEnd(xml, 2, 2, j);
    SpacesForward(xml, 2, j);
  }

  lemma SpacesForward(xml: string, i: nat, j: nat)
    requires Spaces(xml, i, j)
    ensures i <= j
  {
  }

  lemma NoAttrHere(xml: string, k: nat, attrs: seq<Attr>)
    requires |xml| > 2 && !IsValidChar(xml[2]) && !IsSpace(xml[2]) && AttrsAt(xml, 2, k, attrs) && ValidAttrs(attrs)
    ensures attrs == [] && k == 2
  {
    hide AttrsAt, AttrAt, IsValidChar, IsSpace, ValidName;
    if attrs != [] {
      var i, e := AttrsTake(xml, 2, k, attrs, 0);
      NoAttrs(xml, 2, i, attrs[..0]);
      NotAttr(xml, e, attrs[0]);
    } else {
      NoAttrs(xml, 2, k, attrs);
    }
  }

  lemma NoAttrs(xml: string, i: nat, k: nat, attrs: seq<Attr>)
    requires attrs == [] && AttrsAt(xml, i, k, attrs)
    ensures i == k
  {
  }

  lemma NotAttr(xml: string, j: nat, a: Attr)
    requires |xml| > 2 && !IsValidChar(xml[2]) && !IsSpace(xml[2]) && ValidAttr(a)
    ensures !AttrAt(xml, 2, j, a)
  {
    hide IsValidChar, IsSpace, Spaces, StandsAt, ValidAttr;
    if AttrAt(xml, 2, j, a) {
      var s: nat, e: nat, q: nat :| AttrParts(xml, 2, s, e, q, j, a);
      SpacesEnd(xml, 2, 2, s);
      AttrChars(xml, 2, s, e, q, j, a);
    }
  }

  lemma NoOtherSeparator(xml: string, c: char)
    requires xml == "<a" + [c] + "/>" && !IsValidChar(c) && !IsSpace(c)
    ensures Parse(xml).Failed?
  {
    hide Parse, NodeAt, ValidNode, Tagged, IsValidChar, IsSpace;
    if Parse(xml).Returned? {
      var n, j := FirstNode(xml);
      StartsWithA(xml, c);
      var b := NodeBegins(xml, 0, j, n);
      TagBegins(xml, 0, b);
      TaggedAtOne(xml, b);
      NotThatNode(xml, c, j, n);
    }
  }

  lemma TaggedAtOne(xml: string, b: nat)
    requires Tagged(xml, 0, b) && Lead(xml, 0, 1) && |xml| > 1 && !IsSpace(xml[1])
    ensures b == 1
  {
    LeadUnique(xml, 0, b, 1);
  }

  lemma NotThatNode(xml: string, c: char, j: nat, n: Node)
    requires xml == "<a" + [c] + "/>" && !IsValidChar(c) && !IsSpace(c)
    requires ValidNode(n) && (n.Element? || n.EmptyElement?)
    ensures !NodeAt(xml, 0, j, n)
  {
    hide OpenTagAt, CloseTagAt, NodesAt, IsValidChar, IsSpace, ValidName, ValidAttrs, ValidAll;
    if NodeAt(xml, 0, j, n) {
      if n.Element? {
        var a, b := ElementSplit(xml, 0, j, n);
        TagEndsThere(xml, c, a, n.name, n.attrs);
        NoCloseTag(xml, b, j, n.name);
      } else {
        TagEndsThere(xml, c, j - 2, n.name, n.attrs);
      }
    }
  }

  lemma ElementSplit(xml: string, i: nat, j: nat, n: Node) returns (a: nat, b: nat)
    requires n.Element? && NodeAt(xml, i, j, n)
    ensures ElementParts(xml, i, a, b, j, n)
  {
    hide ElementParts;
    a, b :| ElementParts(xml, i, a, b, j, n);
  }

  lemma NoCloseTag(xml: string, i: nat, j: nat, name: string)
    requires xml == "<a>/>"
    ensures !CloseTagAt(xml, i, j, name)
  {
    hide EqualName;
    if CloseTagAt(xml, i, j, name) {
      var b: nat :| CloseParts(xml, i, b, j, name);
      SpacesEnd(xml, 1, 1, b);
    }
  }

  /** The characters that may stand behind a name, as part of it or as a space. */
  lemma Separators(c: char)
    ensures Parse("<a" + [c] + "/>").Returned? <==>
      || c == ' ' || c == '\n' || c == '\r' || c == '\t'
      || 'a' <= c <= 'z' || 'A' <= c <= 'Z' || '0' <= c <= '9' || c in ":._-"
    ensures c in " \n\r\t" ==> Parse("<a" + [c] + "/>").events == [OnXml("a", map[]), OnDone]
  {
    hide Parse;
    var xml := "<a" + [c] + "/>";
    if IsSpace(c) {
      SpaceEndsName(xml, c);
      ParseDocument(xml, [EmptyElement("a", [])]);
      OneNode(EmptyElement("a", []));
    } else if IsValidChar(c) {
      assert xml == "<" + ("a" + [c]) + "/>";
      OneTag(xml, "a" + [c]);
      Accepted(xml, [EmptyElement("a" + [c], [])]);
    } else {
      NoOtherSeparator(xml, c);
    }
  }

  lemma StartsWithA(xml: string, c: char)
    requires xml == "<a" + [c] + "/>"
    ensures |xml| == 5 && xml[1] == 'a' && xml[2] == c && xml[3] == '/' && xml[4] == '>'
    ensures Lead(xml, 0, 1) && !IsSpace(xml[1]) && StandsAt(xml, 1, "a") && ValidName("a") && IsValidChar('a')
  {
  }

  // ----- closing tags -----

  /** The characters of an opening and a closing tag. */
  predicate TwoTags(xml: string, a: string, b: string) {
    var e := |a| + 1;
    && |xml| == |a| + |b| + 5
    && xml[0] == '<' && xml[1..e] == a && xml[e] == '>'
    && xml[e + 1] == '<' && xml[e + 2] == '/' && xml[e + 3..e + 3 + |b|] == b && xml[e + 3 + |b|] == '>'
  }

  lemma TwoTagsWritten(a: string, b: string)
    ensures TwoTags("<" + a + "></" + b + ">", a, b)
  {
  }

  lemma OpenTagOf(xml: string, a: string, b: string)
    requires TwoTags(xml, a, b) && ValidName(a)
    ensures OpenTagAt(xml, 0, |a| + 1, a, []) && ValidAttrs([])
  {
    hide ValidName, IsValidChar, TagAt;
    EndsName(xml[|a| + 1]);
    TagAtStart(xml, a);
    NoSpaces(xml, |a| + 1);
  }

  lemma CloseTagOf(xml: string, a: string, b: string)
    requires TwoTags(xml, a, b) && EqualIgnoringCase(a, b)
    ensures CloseTagAt(xml, |a| + 2, |xml|, a)
  {
    NoSpaces(xml, |a| + 3);
    NoSpaces(xml, |a| + 4 + |b|);
    assert CloseParts(xml, |a| + 2, |a| + 3, |xml|, a);
  }

  lemma RightName(xml: string, a: string, b: string)
    requires TwoTags(xml, a, b) && ValidName(a) && EqualIgnoringCase(a, b)
    ensures Document(xml, [Element(a, [], [])])
  {
    hide ValidName, OpenTagAt, CloseTagAt;
    var n := Element(a, [], []);
    var nodes := [n];
    OpenTagOf(xml, a, b);
    CloseTagOf(xml, a, b);
    assert NodesAt(xml, |a| + 2, |a| + 2, []);
    assert ElementParts(xml, 0, |a| + 1, |a| + 2, |xml|, n);
    assert nodes[1..] == [] && ValidAll(nodes[1..]) && NodesAt(xml, |xml|, |xml|, nodes[1..]);
    assert NodeAt(xml, 0, |xml|, n);
    assert ValidAll([]) && ValidNode(n);
  }

  /** A list of nodes ends at the `</`. */
  lemma StopsAtClose(xml: string, a: string, b: string)
    requires TwoTags(xml, a, b)
    ensures Stop(xml, |a| + 2)
  {
    NoSpaces(xml, |a| + 3);
    assert Lead(xml, |a| + 2, |a| + 3) && Is(xml, |a| + 3, '/');
  }

  lemma CloseNameIs(xml: string, a: string, b: string, j: nat)
    requires TwoTags(xml, a, b) && ValidName(a) && ValidName(b) && CloseTagAt(xml, |a| + 2, j, a)
    ensures EqualIgnoringCase(a, b)
  {
    hide Lead, Spaces, ValidName, IsValidChar, EqualIgnoringCase, IsSpace;
    var p := |a| + 3;
    var q: nat :| CloseParts(xml, |a| + 2, q, j, a);
    CloseChars(xml, |a| + 2, q, j, a);
    EndsName(xml[p]);
    LeadHere(xml, |a| + 2);
    LeadUnique(xml, |a| + 2, q, p);
    EndsName(xml[p + 1 + |b|]);
    NameUnique(xml, p + 1, xml[p + 1..p + 1 + |a|], b);
  }

  lemma LeadHere(xml: string, i: nat)
    requires Is(xml, i, '<')
    ensures Lead(xml, i, i + 1)
  {
  }

  /** The only reading of two tags is an element without children. */
  lemma ReadTwoTags(xml: string, a: string, b: string, n: Node, j: nat) returns (j': nat)
    requires TwoTags(xml, a, b) && ValidName(a)
    requires ValidNode(n) && NodeAt(xml, 0, j, n) && !n.Text?
    ensures CloseTagAt(xml, |a| + 2, j', a)
  {
    hide OpenTagAt, CloseTagAt, NodesAt, ValidName, ValidAttrs, ValidAll, Lead, Tagged, Stop, IsValidChar, MarkupAt;
    j' := j;
    OpenTagOf(xml, a, b);
    NotMarkupNode(xml, a, b, n, j);
    if n.Element? {
      var e: nat, k: nat :| ElementParts(xml, 0, e, k, j, n);
      OpenTagUnique(xml, 0, |a| + 1, a, [], e, n.name, n.attrs);
      StopsAtClose(xml, a, b);
      CloseTagStops(xml, k, j, n.name);
      NoNodes(xml, |a| + 2);
      NodesUnique(xml, |a| + 2, |a| + 2, [], k, n.kids);
    } else {
      OpenTagUnique(xml, 0, |a| + 1, a, [], j - 2, n.name, n.attrs);
    }
  }

  lemma NoNodes(xml: string, i: nat)
    ensures NodesAt(xml, i, i, []) && ValidAll([])
  {
  }

  lemma NotMarkupNode(xml: string, a: string, b: string, n: Node, j: nat)
    requires TwoTags(xml, a, b) && ValidName(a)
    requires ValidNode(n) && NodeAt(xml, 0, j, n) && !n.Text?
    ensures n.Element? || n.EmptyElement?
  {
    hide NodeAt, ValidNode, Tagged, OpenTagAt, IsValidChar, ValidName;
    OpenTagOf(xml, a, b);
    var p := TagStarts(xml, 0, |a| + 1, a, []);
    var q := NodeBegins(xml, 0, j, n);
    TaggedUnique(xml, 0, p, q);
    NotMarkup(xml[p]);
  }

  lemma SameLetter(c: char, d: char)
    ensures ToLower(c) == ToLower(d) <==>
      || c == d
      || ('A' <= c <= 'Z' && d as int == c as int + 32)
      || ('A' <= d <= 'Z' && c as int == d as int + 32)
  {
  }

  /**
   A closing tag is accepted if and only if its name is that of the element, letter by letter the
   same or the other case of it.
   */
  lemma ClosingNames(a: string, b: string)
    requires a != "" && forall i :: 0 <= i < |a| ==>
      || 'a' <= a[i] <= 'z' || 'A' <= a[i] <= 'Z' || '0' <= a[i] <= '9' || a[i] in ":._-"
    requires b != "" && forall i :: 0 <= i < |b| ==>
      || 'a' <= b[i] <= 'z' || 'A' <= b[i] <= 'Z' || '0' <= b[i] <= '9' || b[i] in ":._-"
    ensures Parse("<" + a + "></" + b + ">").Returned? <==>
      |a| == |b| && forall i :: 0 <= i < |a| ==>
        || a[i] == b[i]
        || ('A' <= a[i] <= 'Z' && b[i] as int == a[i] as int + 32)
        || ('A' <= b[i] <= 'Z' && a[i] as int == b[i] as int + 32)
  {
    hide Parse, ToLower, NodeAt, ValidNode, TwoTags;
    var xml := "<" + a + "></" + b + ">";
    TwoTagsWritten(a, b);
    assert ValidName(a) && ValidName(b);
    forall i | 0 <= i < |a| && i < |b|
      ensures ToLower(a[i]) == ToLower(b[i]) <==>
        || a[i] == b[i]
        || ('A' <= a[i] <= 'Z' && b[i] as int == a[i] as int + 32)
        || ('A' <= b[i] <= 'Z' && a[i] as int == b[i] as int + 32)
    {
      SameLetter(a[i], b[i]);
    }
    if EqualIgnoringCase(a, b) {
      RightName(xml, a, b);
      Accepted(xml, [Element(a, [], [])]);
    }
    if Parse(xml).Returned? {
      assert xml[0] == '<';
      var n, j := FirstNode(xml);
      var j' := ReadTwoTags(xml, a, b, n, j);
      CloseNameIs(xml, a, b, j');
    }
  }

  // ----- the words behind an exclamation mark -----

  lemma SpellsLetter(xml: string, i: nat, lower: char, upper: char, rest: string)
    requires i < |xml| && '\0' !in rest
    requires ('a' <= lower <= 'z' && upper as int + 32 == lower as int) || lower == upper == '['
    ensures '\0' !in [lower] + rest
    ensures Spells(xml, i, [lower] + rest) <==> (xml[i] == lower || xml[i] == upper) && Spells(xml, i + 1, rest)
  {
    var word := [lower] + rest;
    assert word[1..] == rest;
  }

  lemma SpellsCData(xml: string, i: nat)
    requires i + 6 <= |xml|
    ensures Spells(xml, i, "cdata[") <==>
      && (xml[i] == 'c' || xml[i] == 'C') && (xml[i + 1] == 'd' || xml[i + 1] == 'D')
      && (xml[i + 2] == 'a' || xml[i + 2] == 'A') && (xml[i + 3] == 't' || xml[i + 3] == 'T')
      && (xml[i + 4] == 'a' || xml[i + 4] == 'A') && xml[i + 5] == '['
  {
    hide ToLower;
    assert "cdata[" == ['c'] + "data[" && "data[" == ['d'] + "ata[" && "ata[" == ['a'] + "ta[";
    assert "ta[" == ['t'] + "a[" && "a[" == ['a'] + "[" && "[" == ['['] + "";
    SpellsLetter(xml, i, 'c', 'C', "data[");
    SpellsLetter(xml, i + 1, 'd', 'D', "ata[");
    SpellsLetter(xml, i + 2, 'a', 'A', "ta[");
    SpellsLetter(xml, i + 3, 't', 'T', "a[");
    SpellsLetter(xml, i + 4, 'a', 'A', "[");
    SpellsLetter(xml, i + 5, '[', '[', "");
  }

  lemma SpellsDoctypeWord(xml: string, i: nat)
    requires i + 7 <= |xml|
    ensures Spells(xml, i, "doctype") <==>
      && (xml[i] == 'd' || xml[i] == 'D') && (xml[i + 1] == 'o' || xml[i + 1] == 'O')
      && (xml[i + 2] == 'c' || xml[i + 2] == 'C') && (xml[i + 3] == 't' || xml[i + 3] == 'T')
      && (xml[i + 4] == 'y' || xml[i + 4] == 'Y') && (xml[i + 5] == 'p' || xml[i + 5] == 'P')
      && (xml[i + 6] == 'e' || xml[i + 6] == 'E')
  {
    hide ToLower;
    assert "doctype" == ['d'] + "octype" && "octype" == ['o'] + "ctype" && "ctype" == ['c'] + "type";
    assert "type" == ['t'] + "ype" && "ype" == ['y'] + "pe" && "pe" == ['p'] + "e" && "e" == ['e'] + "";
    SpellsLetter(xml, i, 'd', 'D', "octype");
    SpellsLetter(xml, i + 1, 'o', 'O', "ctype");
    SpellsLetter(xml, i + 2, 'c', 'C', "type");
    SpellsLetter(xml, i + 3, 't', 'T', "ype");
    SpellsLetter(xml, i + 4, 'y', 'Y', "pe");
    SpellsLetter(xml, i + 5, 'p', 'P', "e");
    SpellsLetter(xml, i + 6, 'e', 'E', "");
  }

  lemma OneMarkup(xml: string, n: Node)
    requires IsMarkup(n) && ValidNode(n) && |xml| > 1 && xml[0] == '<' && MarkupAt(xml, 1, |xml|, n)
    ensures Parse(xml).Returned?
  {
    hide Parse, MarkupAt, ValidNode;
    var nodes := [n];
    LeadHere(xml, 0);
    assert NodeAt(xml, 0, |xml|, n);
    assert nodes[1..] == [] && ValidAll(nodes[1..]) && NodesAt(xml, |xml|, |xml|, nodes[1..]);
    Accepted(xml, nodes);
  }

  /** Behind `<!` only markup can be read. */
  lemma BangNode(xml: string) returns (n: Node, j: nat)
    requires Parse(xml).Returned? && |xml| > 1 && xml[0] == '<' && xml[1] == '!'
    ensures IsMarkup(n) && MarkupAt(xml, 1, j, n)
  {
    hide Parse, NodeAt, ValidNode, Tagged, MarkupAt;
    n, j := FirstNode(xml);
    var b := NodeBegins(xml, 0, j, n);
    LeadHere(xml, 0);
    TagBegins(xml, 0, b);
    TaggedAtOne(xml, b);
    var b' := MarkupChars(xml, 0, j, n);
    LeadUnique(xml, 0, b', 1);
  }

  /** A section is opened by CDATA in any case, and by no other word. */
  lemma SectionWord(w: string)
    requires |w| == 6
    ensures Parse("<![" + w + "]]>").Returned? <==>
      && (w[0] == 'c' || w[0] == 'C') && (w[1] == 'd' || w[1] == 'D') && (w[2] == 'a' || w[2] == 'A')
      && (w[3] == 't' || w[3] == 'T') && (w[4] == 'a' || w[4] == 'A') && w[5] == '['
  {
    hide Parse, Spells;
    var xml := "<![" + w + "]]>";
    assert forall k :: 0 <= k < 6 ==> xml[3 + k] == w[k];
    SpellsCData(xml, 3);
    if Spells(xml, 3, "cdata[") {
      assert xml[9..] == "]]>" && StandsAt(xml, 9, "" + "]]>");
      OneMarkup(xml, Section(""));
    }
    if Parse(xml).Returned? {
      var n, j := BangNode(xml);
      NotDocType(xml);
    }
  }

  lemma NotDocType(xml: string)
    requires |xml| > 2 && xml[2] != 'd' && xml[2] != 'D'
    ensures !Spells(xml, 2, "doctype")
  {
    hide Spells;
    SpellsDocType(xml, 2);
  }

  /** Unless it begins like a comment or a section, a word behind `<!` is DOCTYPE in any case. */
  lemma DocTypeWord(w: string)
    requires |w| == 7 && w[0] != '-' && w[0] != '['
    ensures Parse("<!" + w + ">").Returned? <==>
      && (w[0] == 'd' || w[0] == 'D') && (w[1] == 'o' || w[1] == 'O') && (w[2] == 'c' || w[2] == 'C')
      && (w[3] == 't' || w[3] == 'T') && (w[4] == 'y' || w[4] == 'Y') && (w[5] == 'p' || w[5] == 'P')
      && (w[6] == 'e' || w[6] == 'E')
  {
    hide Parse, Spells;
    var xml := "<!" + w + ">";
    assert forall k :: 0 <= k < 7 ==> xml[2 + k] == w[k];
    SpellsDoctypeWord(xml, 2);
    if Spells(xml, 2, "doctype") {
      assert xml[9..] == ">" && StandsAt(xml, 9, "" + ">");
      assert ValidDocType("");
      OneMarkup(xml, DocType(""));
    }
    if Parse(xml).Returned? {
      var n, j := BangNode(xml);
    }
  }
}
