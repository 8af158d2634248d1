/**
 The language of the parser of std/cpp/NativeXmlImport.cpp is unambiguous: a text is the text of at
 most one valid forest.
 */
module XmlUnique {
  import opened XmlParser
  import opened XmlGrammar
  import opened XmlDocuments

  // ----- spaces, names, attributes -----

  lemma SpacesEnd(xml: string, i: nat, j: nat, j': nat)
    requires i <= j < |xml| && !IsSpace(xml[j]) && Spaces(xml, i, j')
    ensures j' <= j
  {
  }

  lemma SpacesUnique(xml: string, i: nat, j: nat, j': nat)
    requires Spaces(xml, i, j) && j < |xml| && !IsSpace(xml[j])
    requires Spaces(xml, i, j') && j' < |xml| && !IsSpace(xml[j'])
    ensures j == j'
  {
    SpacesEnd(xml, i, j, j');
    SpacesEnd(xml, i, j', j);
  }

  /** No longer than s, behind which stands a character that is not in t. */
  lemma NotLonger(xml: string, i: nat, s: string, t: string)
    requires StandsAt(xml, i, s) && StandsAt(xml, i, t) && i + |s| < |xml| && xml[i + |s|] !in t
    ensures |t| <= |s|
  {
    hide StandsAt;
    if |s| < |t| {
      StandsChar(xml, i, t, |s|);
    }
  }

  lemma NameHasNot(name: string, c: char)
    requires ValidName(name) && !IsValidChar(c)
    ensures c !in name
  {
  }

  lemma NameUnique(xml: string, i: nat, s: string, t: string)
    requires StandsAt(xml, i, s) && ValidName(s) && i + |s| < |xml| && !IsValidChar(xml[i + |s|])
    requires StandsAt(xml, i, t) && ValidName(t) && i + |t| < |xml| && !IsValidChar(xml[i + |t|])
    ensures s == t
  {
    hide StandsAt, ValidName, IsValidChar;
    NameHasNot(s, xml[i + |t|]);
    NameHasNot(t, xml[i + |s|]);
    NotLonger(xml, i, s, t);
    NotLonger(xml, i, t, s);
    StandsSlice(xml, i, s);
    StandsSlice(xml, i, t);
  }

  lemma ValueUnique(xml: string, i: nat, quote: char, s: string, t: string)
    requires StandsAt(xml, i, s + [quote]) && quote !in s
    requires StandsAt(xml, i, t + [quote]) && quote !in t
    ensures s == t
  {
    hide StandsAt;
    StandsSplit(xml, i, s, [quote]);
    StandsSplit(xml, i, t, [quote]);
    StandsChar(xml, i + |s|, [quote], 0);
    StandsChar(xml, i + |t|, [quote], 0);
    NotLonger(xml, i, s, t);
    NotLonger(xml, i, t, s);
    StandsSlice(xml, i, s);
    StandsSlice(xml, i, t);
  }

  /** The quoted value at q. */
  lemma QuotedUnique(xml: string, q: nat, a: Attr, a': Attr)
    requires StandsAt(xml, q, [a.quote] + a.value + [a.quote]) && ValidAttr(a)
    requires StandsAt(xml, q, [a'.quote] + a'.value + [a'.quote]) && ValidAttr(a')
    ensures a.quote == a'.quote && a.value == a'.value
  {
    hide StandsAt, ValidName;
    assert [a.quote] + a.value + [a.quote] == [a.quote] + (a.value + [a.quote]);
    assert [a'.quote] + a'.value + [a'.quote] == [a'.quote] + (a'.value + [a'.quote]);
    StandsSplit(xml, q, [a.quote], a.value + [a.quote]);
    StandsSplit(xml, q, [a'.quote], a'.value + [a'.quote]);
    StandsChar(xml, q, [a.quote], 0);
    StandsChar(xml, q, [a'.quote], 0);
    ValueUnique(xml, q + 1, a.quote, a.value, a'.value);
  }

  lemma AttrUnique(xml: string, i: nat, j: nat, a: Attr, j': nat, a': Attr)
    requires AttrAt(xml, i, j, a) && ValidAttr(a) && AttrAt(xml, i, j', a') && ValidAttr(a')
    ensures j == j' && a == a'
  {
    hide StandsAt, Spaces, ValidName, IsValidChar, IsSpace;
    var s: nat, e: nat, q: nat :| AttrParts(xml, i, s, e, q, j, a);
    var s': nat, e': nat, q': nat :| AttrParts(xml, i, s', e', q', j', a');
    AttrChars(xml, i, s, e, q, j, a);
    AttrChars(xml, i, s', e', q', j', a');
    SpacesUnique(xml, i, s, s');
    NameUnique(xml, s, a.name, a'.name);
    SpacesUnique(xml, s + |a.name|, e, e');
    SpacesUnique(xml, e + 1, q, q');
    QuotedUnique(xml, q, a, a');
  }

  lemma {:induction false} SameAttrs(xml: string, i: nat, j: nat, attrs: seq<Attr>, j': nat, attrs': seq<Attr>)
    requires AttrsAt(xml, i, j, attrs) && ValidAttrs(attrs) && AttrsAt(xml, i, j', attrs') && ValidAttrs(attrs')
    requires |attrs| == |attrs'|
    ensures j == j' && attrs == attrs'
    decreases |attrs|
  {
    hide AttrAt, ValidAttr;
    if attrs != [] {
      var n := |attrs| - 1;
      var k: nat :| AttrsAt(xml, i, k, attrs[..n]) && AttrAt(xml, k, j, attrs[n]);
      var k': nat :| AttrsAt(xml, i, k', attrs'[..n]) && AttrAt(xml, k', j', attrs'[n]);
      SameAttrs(xml, i, k, attrs[..n], k', attrs'[..n]);
      AttrUnique(xml, k, j, attrs[n], j', attrs'[n]);
      assert attrs == attrs[..n] + [attrs[n]] && attrs' == attrs'[..n] + [attrs'[n]];
    }
  }

  /** Where the attribute number n begins. */
  lemma {:induction false} AttrsTake(xml: string, i: nat, j: nat, attrs: seq<Attr>, n: nat) returns (k: nat, k': nat)
    requires AttrsAt(xml, i, j, attrs) && n < |attrs|
    ensures AttrsAt(xml, i, k, attrs[..n]) && AttrAt(xml, k, k', attrs[n])
    decreases |attrs|
  {
    hide AttrAt;
    var last := |attrs| - 1;
    var mid: nat :| AttrsAt(xml, i, mid, attrs[..last]) && AttrAt(xml, mid, j, attrs[last]);
    if n == last {
      k, k' := mid, j;
    } else {
      k, k' := AttrsTake(xml, i, mid, attrs[..last], n);
      assert attrs[..last][..n] == attrs[..n];
    }
  }

  /** No attribute begins where a tag ends. */
  lemma TagEndIsNoAttr(xml: string, i: nat, j: nat, a: Attr, e: nat)
    requires Spaces(xml, i, e) && (Is(xml, e, '>') || Is(xml, e, '/')) && ValidAttr(a)
    ensures !AttrAt(xml, i, j, a)
  {
    hide Spaces, StandsAt, ValidName, IsValidChar;
    if AttrAt(xml, i, j, a) {
      var s: nat, e': nat, q: nat :| AttrParts(xml, i, s, e', q, j, a);
      AttrChars(xml, i, s, e', q, j, a);
      NotTagEnd(xml[s], xml[e]);
      SpacesUnique(xml, i, s, e);
    }
  }

  lemma NotTagEnd(c: char, d: char)
    requires IsValidChar(c) && (d == '>' || d == '/')
    ensures c != d
  {
  }

  /** With fewer attributes the tag would not have ended. */
  lemma NoFewerAttrs(xml: string, i: nat, k: nat, attrs: seq<Attr>, e: nat, k': nat, attrs': seq<Attr>)
    requires AttrsAt(xml, i, k, attrs) && ValidAttrs(attrs) && AttrsAt(xml, i, k', attrs') && ValidAttrs(attrs')
    requires Spaces(xml, k, e) && (Is(xml, e, '>') || Is(xml, e, '/'))
    ensures |attrs| >= |attrs'|
  {
    hide AttrsAt, AttrAt, ValidAttr, Spaces;
    if |attrs| < |attrs'| {
      var mid, end := AttrsTake(xml, i, k', attrs', |attrs|);
      SameAttrs(xml, i, k, attrs, mid, attrs'[..|attrs|]);
      TagEndIsNoAttr(xml, k, end, attrs'[|attrs|], e);
    }
  }

  lemma LeadUnique(xml: string, i: nat, b: nat, b': nat)
    requires Lead(xml, i, b) && b < |xml| && !IsSpace(xml[b])
    requires Lead(xml, i, b') && b' < |xml| && !IsSpace(xml[b'])
    ensures b == b'
  {
    SpacesUnique(xml, i + 1, b, b');
  }

  lemma OpenTagUnique(xml: string, i: nat, j: nat, name: string, attrs: seq<Attr>,
                      j': nat, name': string, attrs': seq<Attr>)
    requires OpenTagAt(xml, i, j, name, attrs) && ValidName(name) && ValidAttrs(attrs)
    requires OpenTagAt(xml, i, j', name', attrs') && ValidName(name') && ValidAttrs(attrs')
    requires (Is(xml, j, '>') || Is(xml, j, '/')) && (Is(xml, j', '>') || Is(xml, j', '/'))
    ensures j == j' && name == name' && attrs == attrs'
  {
    hide StandsAt, Spaces, ValidName, IsValidChar, AttrsAt, ValidAttrs, Lead;
    var k: nat :| TagAt(xml, i, k, name, attrs) && Spaces(xml, k, j);
    var k': nat :| TagAt(xml, i, k', name', attrs') && Spaces(xml, k', j');
    var b: nat :| TagParts(xml, i, b, k, name, attrs);
    var b': nat :| TagParts(xml, i, b', k', name', attrs');
    NameStarts(xml, b, name);
    NameStarts(xml, b', name');
    LeadUnique(xml, i, b, b');
    NameUnique(xml, b, name, name');
    NoFewerAttrs(xml, b + |name|, k, attrs, j, k', attrs');
    NoFewerAttrs(xml, b + |name|, k', attrs', j', k, attrs);
    SameAttrs(xml, b + |name|, k, attrs, k', attrs');
    SpacesUnique(xml, k, j, j');
  }

  lemma CloseTagUnique(xml: string, i: nat, j: nat, j': nat, name: string)
    requires CloseTagAt(xml, i, j, name) && CloseTagAt(xml, i, j', name) && ValidName(name)
    ensures j == j'
  {
    hide Spaces, EqualName, ValidName, IsValidChar, Lead, IsSpace;
    var b: nat :| CloseParts(xml, i, b, j, name);
    var b': nat :| CloseParts(xml, i, b', j', name);
    CloseChars(xml, i, b, j, name);
    CloseChars(xml, i, b', j', name);
    LeadUnique(xml, i, b, b');
    SpacesUnique(xml, b + 1 + |name|, j - 1, j' - 1);
  }

  // ----- texts up to a terminator -----

  /** The text before the first terminator. */
  lemma ThreeUnique(xml: string, i: nat, s: string, t: string, d: char)
    requires d != '>' && StandsAt(xml, i, s + [d, d, '>']) && Free(s, [d, d, '>'])
    requires StandsAt(xml, i, t + [d, d, '>']) && Free(t, [d, d, '>'])
    ensures s == t
  {
    hide StandsAt, Free;
    ThreeNotLonger(xml, i, s, t, d);
    ThreeNotLonger(xml, i, t, s, d);
    StandsSplit(xml, i, s, [d, d, '>']);
    StandsSplit(xml, i, t, [d, d, '>']);
    StandsSlice(xml, i, s);
    StandsSlice(xml, i, t);
  }

  lemma ThreeNotLonger(xml: string, i: nat, s: string, t: string, d: char)
    requires d != '>' && StandsAt(xml, i, s + [d, d, '>'])
    requires StandsAt(xml, i, t + [d, d, '>']) && Free(t, [d, d, '>'])
    ensures |t| <= |s|
  {
    hide StandsAt, Free;
    if |s| < |t| {
      NotYet(xml, i, t, d, i + |s|);
      StandsSplit(xml, i, s, [d, d, '>']);
      StandsThree(xml, i + |s|, d);
    }
  }

  lemma TwoUnique(xml: string, i: nat, s: string, t: string)
    requires StandsAt(xml, i, s + "?>") && Free(s, "?>") && StandsAt(xml, i, t + "?>") && Free(t, "?>")
    ensures s == t
  {
    hide StandsAt, Free;
    TwoNotLonger(xml, i, s, t);
    TwoNotLonger(xml, i, t, s);
    StandsSplit(xml, i, s, "?>");
    StandsSplit(xml, i, t, "?>");
    StandsSlice(xml, i, s);
    StandsSlice(xml, i, t);
  }

  lemma TwoNotLonger(xml: string, i: nat, s: string, t: string)
    requires StandsAt(xml, i, s + "?>") && StandsAt(xml, i, t + "?>") && Free(t, "?>")
    ensures |t| <= |s|
  {
    hide StandsAt, Free;
    if |s| < |t| {
      NotYetQuestion(xml, i, t, i + |s|);
      StandsSplit(xml, i, s, "?>");
      StandsTwo(xml, i + |s|);
    }
  }

  lemma DocTypeNotLonger(xml: string, i: nat, s: string, t: string)
    requires StandsAt(xml, i, s + ">") && ValidDocType(s) && StandsAt(xml, i, t + ">") && ValidDocType(t)
    ensures |t| <= |s|
  {
    hide Depth, StandsAt;
    if |s| < |t| {
      StandsChar(xml, i, s + ">", |s|);
      StandsSplit(xml, i, s, ">");
      StandsSplit(xml, i, t, ">");
      StandsChar(xml, i, t, |s|);
      StandsSlice(xml, i, s);
      StandsSlice(xml, i, t);
      assert xml[i..i + |t|][..|s|] == xml[i..i + |s|];
      DepthOfPrefix(s, t, |s|);
    }
  }

  lemma DocTypeUnique(xml: string, i: nat, s: string, t: string)
    requires StandsAt(xml, i, s + ">") && ValidDocType(s) && StandsAt(xml, i, t + ">") && ValidDocType(t)
    ensures s == t
  {
    hide ValidDocType, StandsAt;
    DocTypeNotLonger(xml, i, s, t);
    DocTypeNotLonger(xml, i, t, s);
    StandsSplit(xml, i, s, ">");
    StandsSplit(xml, i, t, ">");
    StandsSlice(xml, i, s);
    StandsSlice(xml, i, t);
  }

  /** The characters behind `<` and spaces tell the kinds of markup apart. */
  lemma SameMarkup(xml: string, b: nat, j: nat, n: Node, j': nat, n': Node)
    requires IsMarkup(n) && IsMarkup(n') && MarkupAt(xml, b, j, n) && MarkupAt(xml, b, j', n')
    ensures (n.Section? <==> n'.Section?) && (n.Remark? <==> n'.Remark?)
    ensures (n.Instruction? <==> n'.Instruction?) && (n.DocType? <==> n'.DocType?)
  {
    hide StandsAt, Spells;
    if n.DocType? || n'.DocType? {
      SpellsInside(xml, b + 1, "doctype");
      SpellsDocType(xml, b + 1);
    }
  }

  lemma MarkupUnique(xml: string, i: nat, j: nat, n: Node, j': nat, n': Node)
    requires IsMarkup(n) && IsMarkup(n') && ValidNode(n) && ValidNode(n')
    requires NodeAt(xml, i, j, n) && NodeAt(xml, i, j', n')
    ensures j == j' && n == n'
  {
    hide StandsAt, Spells, Lead, Free, ValidDocType, IsSpace, NodeAt;
    var b := MarkupChars(xml, i, j, n);
    var b' := MarkupChars(xml, i, j', n');
    LeadUnique(xml, i, b, b');
    SameMarkup(xml, b, j, n, j', n');
    match n
    case Section(text) => ThreeUnique(xml, b + 8, text, n'.text, ']');
    case Remark(text) => ThreeUnique(xml, b + 3, text, n'.text, '-');
    case Instruction(text) => TwoUnique(xml, b + 1, text, n'.text);
    case DocType(text) => DocTypeUnique(xml, b + 8, text, n'.text);
  }

  // ----- nodes -----

  /** Here a list of nodes ends: at the end of the text or before a closing tag. */
  ghost predicate Stop(xml: string, j: nat) {
    j == |xml| || exists b: nat :: Lead(xml, j, b) && Is(xml, b, '/')
  }

  /** What begins with `<` goes on with a character of a name, or with `!` or `?`. */
  ghost predicate Tagged(xml: string, i: nat, b: nat) {
    Lead(xml, i, b) && b < |xml| && !IsSpace(xml[b]) && xml[b] != '/'
  }

  lemma TagStarts(xml: string, i: nat, j: nat, name: string, attrs: seq<Attr>) returns (b: nat)
    requires OpenTagAt(xml, i, j, name, attrs) && ValidName(name)
    ensures Tagged(xml, i, b) && b < |xml| && IsValidChar(xml[b])
  {
    hide AttrsAt, Spaces, StandsAt, Lead, ValidName;
    var k: nat :| TagAt(xml, i, k, name, attrs) && Spaces(xml, k, j);
    b :| TagParts(xml, i, b, k, name, attrs);
    NameStarts(xml, b, name);
  }

  lemma NodeBegins(xml: string, i: nat, j: nat, n: Node) returns (b: nat)
    requires NodeAt(xml, i, j, n) && ValidNode(n) && !n.Text?
    ensures Tagged(xml, i, b) && Is(xml, i, '<') && (IsMarkup(n) <==> xml[b] == '!' || xml[b] == '?')
  {
    hide OpenTagAt, Lead, MarkupAt, ValidAttrs, ValidName, CloseTagAt, NodesAt, IsSpace, Tagged, IsValidChar, ValidAll;
    if n.Element? {
      var a: nat, e: nat :| ElementParts(xml, i, a, e, j, n);
      b := TagStarts(xml, i, a, n.name, n.attrs);
      NotMarkup(xml[b]);
    } else if n.EmptyElement? {
      b := TagStarts(xml, i, j - 2, n.name, n.attrs);
      NotMarkup(xml[b]);
    } else {
      b := MarkupChars(xml, i, j, n);
      IsTagged(xml, i, b);
    }
    TagBegins(xml, i, b);
  }

  lemma NotMarkup(c: char)
    requires IsValidChar(c)
    ensures c != '!' && c != '?'
  {
  }

  lemma IsTagged(xml: string, i: nat, b: nat)
    requires Lead(xml, i, b) && b < |xml| && (xml[b] == '!' || xml[b] == '?')
    ensures Tagged(xml, i, b)
  {
  }

  lemma TagBegins(xml: string, i: nat, b: nat)
    requires Tagged(xml, i, b)
    ensures Is(xml, i, '<') && b < |xml|
  {
  }

  lemma TaggedUnique(xml: string, i: nat, b: nat, b': nat)
    requires Tagged(xml, i, b) && Tagged(xml, i, b')
    ensures b == b'
  {
    LeadUnique(xml, i, b, b');
  }

  lemma TextStarts(xml: string, i: nat, j: nat, n: Node)
    requires NodeAt(xml, i, j, n) && ValidNode(n) && n.Text?
    ensures i < |xml| && xml[i] != '<'
  {
    StandsChar(xml, i, n.text, 0);
  }

  /** No node begins where a list of nodes ends. */
  lemma StopIsNoNode(xml: string, i: nat, j: nat, n: Node)
    requires Stop(xml, i) && ValidNode(n)
    ensures !NodeAt(xml, i, j, n)
  {
    hide NodeAt, ValidNode, Spaces;
    if NodeAt(xml, i, j, n) {
      if n.Text? {
        TextStarts(xml, i, j, n);
      } else {
        var b := NodeBegins(xml, i, j, n);
        var b': nat :| Lead(xml, i, b') && Is(xml, b', '/');
        LeadUnique(xml, i, b, b');
      }
    }
  }

  /** A text goes on up to the end or the next `<`. */
  lemma TextUnique(xml: string, i: nat, j: nat, n: Node, j': nat, n': Node)
    requires n.Text? && NodeAt(xml, i, j, n) && ValidNode(n) && (j == |xml| || Is(xml, j, '<'))
    requires n'.Text? && NodeAt(xml, i, j', n') && ValidNode(n') && (j' == |xml| || Is(xml, j', '<'))
    ensures j == j' && n == n'
  {
    hide StandsAt;
    if j < |xml| {
      NotLonger(xml, i, n.text, n'.text);
    }
    if j' < |xml| {
      NotLonger(xml, i, n'.text, n.text);
    }
    StandsSlice(xml, i, n.text);
    StandsSlice(xml, i, n'.text);
  }

  lemma {:induction false} ElementUnique(xml: string, i: nat, j: nat, n: Node, j': nat, n': Node)
    requires n.Element? && NodeAt(xml, i, j, n) && ValidNode(n)
    requires n'.Element? && NodeAt(xml, i, j', n') && ValidNode(n')
    ensures j == j' && n == n'
    decreases n, 0
  {
    hide OpenTagAt, CloseTagAt, NodesAt, ValidName, ValidAttrs, ValidAll, Stop;
    var a: nat, b: nat :| ElementParts(xml, i, a, b, j, n);
    var a': nat, b': nat :| ElementParts(xml, i, a', b', j', n');
    OpenTagUnique(xml, i, a, n.name, n.attrs, a', n'.name, n'.attrs);
    CloseTagStops(xml, b, j, n.name);
    CloseTagStops(xml, b', j', n.name);
    NodesUnique(xml, a + 1, b, n.kids, b', n'.kids);
    CloseTagUnique(xml, b, j, j', n.name);
  }

  lemma CloseTagStops(xml: string, i: nat, j: nat, name: string)
    requires CloseTagAt(xml, i, j, name)
    ensures Stop(xml, i)
  {
    hide Lead, Spaces, EqualName;
    var b: nat :| CloseParts(xml, i, b, j, name);
  }

  /** Both are markup, elements closed with a tag, elements that close themselves, or texts. */
  lemma SameKind(xml: string, i: nat, j: nat, n: Node, j': nat, n': Node)
    requires NodeAt(xml, i, j, n) && ValidNode(n) && NodeAt(xml, i, j', n') && ValidNode(n')
    ensures n.Text? <==> n'.Text?
    ensures IsMarkup(n) <==> IsMarkup(n')
    ensures n.Element? <==> n'.Element?
  {
    hide NodeAt, ValidNode, Spaces, Tagged;
    if n.Text? {
      TextStarts(xml, i, j, n);
    }
    if n'.Text? {
      TextStarts(xml, i, j', n');
    }
    if !n.Text? {
      var b := NodeBegins(xml, i, j, n);
      if !n'.Text? {
        var b' := NodeBegins(xml, i, j', n');
        TaggedUnique(xml, i, b, b');
      }
    } else if !n'.Text? {
      var b' := NodeBegins(xml, i, j', n');
    }
    if n.Element? && n'.EmptyElement? {
      OtherEnding(xml, i, j, n, j', n');
    } else if n.EmptyElement? && n'.Element? {
      OtherEnding(xml, i, j', n', j, n);
    }
  }

  /** An element that closes itself is not one that is closed with a tag. */
  lemma OtherEnding(xml: string, i: nat, j: nat, n: Node, j': nat, n': Node)
    requires n.Element? && NodeAt(xml, i, j, n) && ValidNode(n)
    requires n'.EmptyElement? && ValidNode(n')
    ensures !NodeAt(xml, i, j', n')
  {
    hide OpenTagAt, CloseTagAt, NodesAt, ValidName, ValidAttrs, ValidAll;
    var a: nat, b: nat :| ElementParts(xml, i, a, b, j, n);
    if NodeAt(xml, i, j', n') {
      OpenTagUnique(xml, i, a, n.name, n.attrs, j' - 2, n'.name, n'.attrs);
    }
  }

  lemma {:induction false} NodeUnique(xml: string, i: nat, j: nat, n: Node, j': nat, n': Node)
    requires NodeAt(xml, i, j, n) && ValidNode(n) && NodeAt(xml, i, j', n') && ValidNode(n')
    requires n.Text? ==> j == |xml| || Is(xml, j, '<')
    requires n'.Text? ==> j' == |xml| || Is(xml, j', '<')
    ensures j == j' && n == n'
    decreases n, 1
  {
    hide NodeAt, ValidNode;
    SameKind(xml, i, j, n, j', n');
    match n
    case Text(_) => TextUnique(xml, i, j, n, j', n');
    case Element(_, _, _) => ElementUnique(xml, i, j, n, j', n');
    case EmptyElement(_, _) => EmptyUnique(xml, i, j, n, j', n');
    case _ => MarkupUnique(xml, i, j, n, j', n');
  }

  lemma EmptyUnique(xml: string, i: nat, j: nat, n: Node, j': nat, n': Node)
    requires n.EmptyElement? && NodeAt(xml, i, j, n) && ValidNode(n)
    requires n'.EmptyElement? && NodeAt(xml, i, j', n') && ValidNode(n')
    ensures j == j' && n == n'
  {
    hide OpenTagAt, ValidName, ValidAttrs;
    OpenTagUnique(xml, i, j - 2, n.name, n.attrs, j' - 2, n'.name, n'.attrs);
  }

  lemma StopOrTag(xml: string, k: nat, j: nat, rest: seq<Node>)
    requires NodesAt(xml, k, j, rest) && Stop(xml, j) && (rest != [] ==> !rest[0].Text?)
    ensures k == |xml| || Is(xml, k, '<')
  {
    hide NodesAt, Spaces;
    NextStarts(xml, k, j, rest);
  }

  lemma {:induction false} NodesUnique(xml: string, i: nat, j: nat, nodes: seq<Node>, j': nat, nodes': seq<Node>)
    requires NodesAt(xml, i, j, nodes) && ValidAll(nodes) && Stop(xml, j)
    requires NodesAt(xml, i, j', nodes') && ValidAll(nodes') && Stop(xml, j')
    ensures j == j' && nodes == nodes'
    decreases nodes, 0
  {
    hide NodeAt, ValidNode, Stop;
    if nodes == [] {
      if nodes' != [] {
        var k': nat :| NodeAt(xml, i, k', nodes'[0]) && NodesAt(xml, k', j', nodes'[1..]);
        StopIsNoNode(xml, i, k', nodes'[0]);
      }
    } else {
      var n, rest := nodes[0], nodes[1..];
      var k: nat :| NodeAt(xml, i, k, n) && NodesAt(xml, k, j, rest);
      if nodes' == [] {
        StopIsNoNode(xml, i, k, n);
      } else {
        var n', rest' := nodes'[0], nodes'[1..];
        var k': nat :| NodeAt(xml, i, k', n') && NodesAt(xml, k', j', rest');
        if n.Text? {
          StopOrTag(xml, k, j, rest);
        }
        if n'.Text? {
          StopOrTag(xml, k', j', rest');
        }
        NodeUnique(xml, i, k, n, k', n');
        NodesUnique(xml, k, j, rest, j', rest');
        assert nodes == [n] + rest && nodes' == [n'] + rest';
      }
    }
  }

  /** A text is the text of at most one valid forest. */
  lemma DocumentUnique(xml: string, nodes: seq<Node>, nodes': seq<Node>)
    requires Document(xml, nodes) && Document(xml, nodes')
    ensures nodes == nodes'
  {
    hide NodesAt, ValidAll;
    NodesUnique(xml, 0, |xml|, nodes, |xml|, nodes');
  }
}
