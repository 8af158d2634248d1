/**
 The language of the parser of std/cpp/NativeXmlImport.cpp: XML trees, the events reported for them,
 and which stretches of a text are which trees.
 */
module XmlGrammar {
  import opened XmlParser

  // ----- trees and their events -----

  datatype Attr = Attr(name: string, value: string, quote: char)

  datatype Node =
    | Element(name: string, attrs: seq<Attr>, kids: seq<Node>)
    | EmptyElement(name: string, attrs: seq<Attr>)
    | Text(text: string)
    | Section(text: string)
    | Remark(text: string)
    | Instruction(text: string)
    | DocType(text: string)

  function AttrMap(attrs: seq<Attr>): map<string, string> {
    if attrs == [] then map[]
    else AttrMap(attrs[..|attrs| - 1])[attrs[|attrs| - 1].name := attrs[|attrs| - 1].value]
  }

  /** Does this child count for the parser's decision whether an element was empty? */
  predicate Counted(n: Node) {
    n.Element? || n.EmptyElement? || n.Text? || n.Section?
  }

  function CountAll(nodes: seq<Node>): nat {
    if nodes == [] then 0 else (if Counted(nodes[0]) then 1 else 0) + CountAll(nodes[1..])
  }

  /** The events of a list of children: an empty text is reported where nothing counted was found. */
  function TraceBody(nodes: seq<Node>): seq<Event>
    decreases nodes, 1
  {
    TraceAll(nodes) + if CountAll(nodes) == 0 then [OnPcData("")] else []
  }

  /**
   The events of a node.  An element written with a closing tag is not followed by `done`; only a
   self-closing one is.
   */
  function Trace(n: Node): seq<Event>
    decreases n
  {
    match n
    case Element(name, attrs, kids) => [OnXml(name, AttrMap(attrs))] + TraceBody(kids)
    case EmptyElement(name, attrs) => [OnXml(name, AttrMap(attrs)), OnDone]
    case Text(text) => [OnPcData(text)]
    case Section(text) => [OnCData(text)]
    case Remark(text) => [OnComment(text)]
    case Instruction(text) => [OnComment("?" + text + "?")]
    case DocType(text) => [OnDoctype(text)]
  }

  function TraceAll(nodes: seq<Node>): seq<Event>
    decreases nodes, 0
  {
    if nodes == [] then [] else Trace(nodes[0]) + TraceAll(nodes[1..])
  }

  // ----- which trees -----

  predicate ValidName(name: string) {
    name != "" && forall i :: 0 <= i < |name| ==> IsValidChar(name[i])
  }

  predicate ValidAttr(a: Attr) {
    ValidName(a.name) && (a.quote == '"' || a.quote == '\'') && a.quote !in a.value
  }

  predicate ValidAttrs(attrs: seq<Attr>) {
    && (forall i :: 0 <= i < |attrs| ==> ValidAttr(attrs[i]))
    && (forall i, j :: 0 <= i < j < |attrs| ==> attrs[i].name != attrs[j].name)
  }

  /** `word` stands in s at i. */
  predicate StandsAt(s: string, i: nat, word: string) {
    i + |word| <= |s| && s[i..i + |word|] == word
  }

  predicate Free(s: string, word: string) {
    forall i :: 0 <= i < |s| ==> !StandsAt(s, i, word)
  }

  /** The depth of square brackets after the first k characters. */
  function Depth(s: string, k: nat): int
    requires k <= |s|
  {
    if k == 0 then 0
    else Depth(s, k - 1) + (if s[k - 1] == '[' then 1 else if s[k - 1] == ']' then -1 else 0)
  }

  /** Every `>` of a document type stands inside brackets, and the brackets balance. */
  predicate ValidDocType(s: string) {
    && Depth(s, |s|) == 0
    && forall i :: 0 <= i < |s| && s[i] == '>' ==> Depth(s, i) != 0
  }

  lemma DepthStep(s: string, k: nat)
    requires k < |s|
    ensures Depth(s, k + 1) == Depth(s, k) + if s[k] == '[' then 1 else if s[k] == ']' then -1 else 0
  {
  }

  lemma {:induction false} DepthOfPrefix(s: string, t: string, k: nat)
    requires k <= |s| && s <= t
    ensures Depth(s, k) == Depth(t, k)
    decreases k
  {
    if k > 0 {
      DepthOfPrefix(s, t, k - 1);
    }
  }

  predicate ValidNode(n: Node) {
    match n
    case Element(name, attrs, kids) => ValidName(name) && ValidAttrs(attrs) && ValidAll(kids)
    case EmptyElement(name, attrs) => ValidName(name) && ValidAttrs(attrs)
    case Text(text) => text != "" && '<' !in text
    case Section(text) => Free(text, "]]>")
    case Remark(text) => Free(text, "-->")
    case Instruction(text) => Free(text, "?>")
    case DocType(text) => ValidDocType(text)
  }

  /** Valid nodes, no text next to a text: printed, two of those would be one. */
  predicate ValidAll(nodes: seq<Node>) {
    nodes == [] ||
    (ValidNode(nodes[0]) && ValidAll(nodes[1..]) && (nodes[0].Text? && |nodes| > 1 ==> !nodes[1].Text?))
  }

  // ----- positions -----

  lemma StandsSplit(s: string, i: nat, a: string, b: string)
    requires StandsAt(s, i, a + b)
    ensures StandsAt(s, i, a) && StandsAt(s, i + |a|, b)
  {
    assert s[i..i + |a + b|][..|a|] == s[i..i + |a|];
    assert s[i..i + |a + b|][|a|..] == s[i + |a|..i + |a| + |b|];
  }

  lemma StandsSlice(s: string, i: nat, word: string)
    requires StandsAt(s, i, word)
    ensures i + |word| <= |s| && s[i..i + |word|] == word
  {
  }

  lemma StandsChar(s: string, i: nat, word: string, k: nat)
    requires StandsAt(s, i, word) && k < |word|
    ensures i + k < |s| && s[i + k] == word[k]
  {
    assert s[i..i + |word|][k] == s[i + k];
  }

  // ----- which texts -----

  predicate IsSpace(c: char) {
    c == ' ' || c == '\n' || c == '\r' || c == '\t'
  }

  predicate Is(xml: string, i: nat, c: char) {
    i < |xml| && xml[i] == c
  }

  predicate Spaces(xml: string, i: nat, j: nat) {
    i <= j <= |xml| && forall k :: i <= k < j ==> IsSpace(xml[k])
  }

  /** The `<` of a tag at i; the character after it and after spaces is at b. */
  predicate Lead(xml: string, i: nat, b: nat) {
    Is(xml, i, '<') && Spaces(xml, i + 1, b)
  }

  /** From i to j: spaces, the name at s, spaces, `=` at e, spaces, the value from the quote at q on. */
  predicate AttrParts(xml: string, i: nat, s: nat, e: nat, q: nat, j: nat, a: Attr) {
    && Spaces(xml, i, s) && StandsAt(xml, s, a.name)
    && Spaces(xml, s + |a.name|, e) && Is(xml, e, '=')
    && Spaces(xml, e + 1, q) && StandsAt(xml, q, [a.quote] + a.value + [a.quote])
    && j == q + |a.value| + 2
  }

  ghost predicate AttrAt(xml: string, i: nat, j: nat, a: Attr) {
    exists s: nat, e: nat, q: nat :: AttrParts(xml, i, s, e, q, j, a)
  }

  ghost predicate AttrsAt(xml: string, i: nat, j: nat, attrs: seq<Attr>)
    decreases |attrs|
  {
    if attrs == [] then i == j
    else
      var n := |attrs| - 1;
      exists k: nat :: AttrsAt(xml, i, k, attrs[..n]) && AttrAt(xml, k, j, attrs[n])
  }

  /** From `<` at i over the name at b, which ends at the first other character, and the attributes. */
  ghost predicate TagParts(xml: string, i: nat, b: nat, j: nat, name: string, attrs: seq<Attr>) {
    && Lead(xml, i, b) && StandsAt(xml, b, name)
    && b + |name| < |xml| && !IsValidChar(xml[b + |name|])
    && AttrsAt(xml, b + |name|, j, attrs)
  }

  ghost predicate TagAt(xml: string, i: nat, j: nat, name: string, attrs: seq<Attr>) {
    exists b: nat :: TagParts(xml, i, b, j, name, attrs)
  }

  /** And the spaces behind those. */
  ghost predicate OpenTagAt(xml: string, i: nat, j: nat, name: string, attrs: seq<Attr>) {
    exists k: nat :: TagAt(xml, i, k, name, attrs) && Spaces(xml, k, j)
  }

  /** A closing tag: `/` at b directly before the name, in any case; `>` before j. */
  predicate CloseParts(xml: string, i: nat, b: nat, j: nat, name: string) {
    && Lead(xml, i, b) && Is(xml, b, '/')
    && b + 1 + |name| < j && EqualName(xml, b + 1, name)
    && Spaces(xml, b + 1 + |name|, j - 1) && Is(xml, j - 1, '>')
  }

  predicate EqualName(xml: string, i: nat, name: string) {
    i + |name| <= |xml| && EqualIgnoringCase(name, xml[i..i + |name|])
  }

  ghost predicate CloseTagAt(xml: string, i: nat, j: nat, name: string) {
    exists b: nat :: CloseParts(xml, i, b, j, name)
  }

  predicate IsMarkup(n: Node) {
    n.Section? || n.Remark? || n.Instruction? || n.DocType?
  }

  /** What follows `<` and spaces. */
  predicate MarkupAt(xml: string, b: nat, j: nat, n: Node)
    requires IsMarkup(n)
  {
    match n
    case Section(text) =>
      && Is(xml, b, '!') && Is(xml, b + 1, '[') && Spells(xml, b + 2, "cdata[")
      && StandsAt(xml, b + 8, text + "]]>") && j == b + 8 + |text| + 3
    case DocType(text) =>
      && Is(xml, b, '!') && Spells(xml, b + 1, "doctype")
      && StandsAt(xml, b + 8, text + ">") && j == b + 8 + |text| + 1
    case Remark(text) =>
      && Is(xml, b, '!') && Is(xml, b + 1, '-') && Is(xml, b + 2, '-')
      && StandsAt(xml, b + 3, text + "-->") && j == b + 3 + |text| + 3
    case Instruction(text) => Is(xml, b, '?') && StandsAt(xml, b + 1, text + "?>") && j == b + 1 + |text| + 2
  }

  /** The text from i up to j is the node n. */
  ghost predicate NodeAt(xml: string, i: nat, j: nat, n: Node)
    decreases n, 1
  {
    match n
    case Element(name, attrs, kids) => exists a: nat, b: nat :: ElementParts(xml, i, a, b, j, n)
    case EmptyElement(name, attrs) =>
      j >= 2 && OpenTagAt(xml, i, j - 2, name, attrs) && Is(xml, j - 2, '/') && Is(xml, j - 1, '>')
    case Text(text) => StandsAt(xml, i, text) && j == i + |text|
    case _ => exists b: nat :: Lead(xml, i, b) && MarkupAt(xml, b, j, n)
  }

  /** An element whose opening tag ends with `>` at a and whose closing tag begins at b. */
  ghost predicate ElementParts(xml: string, i: nat, a: nat, b: nat, j: nat, n: Node)
    requires n.Element?
    decreases n, 0
  {
    && OpenTagAt(xml, i, a, n.name, n.attrs) && Is(xml, a, '>')
    && NodesAt(xml, a + 1, b, n.kids) && CloseTagAt(xml, b, j, n.name)
  }

  /** The text from i up to j is these nodes, one after the other. */
  ghost predicate NodesAt(xml: string, i: nat, j: nat, nodes: seq<Node>)
    decreases nodes, 0
  {
    if nodes == [] then i == j
    else exists k: nat :: NodeAt(xml, i, k, nodes[0]) && NodesAt(xml, k, j, nodes[1..])
  }

  /** The whole text is these nodes. */
  ghost predicate Document(xml: string, nodes: seq<Node>) {
    ValidAll(nodes) && NodesAt(xml, 0, |xml|, nodes)
  }
}
