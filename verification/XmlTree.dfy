/**
 XML trees, how the compact printer writes them and how the parser reads a text, as functions
 (compat/tinyxml2-v34/tinyxml2.cpp and tinyxml2.h).

 The parser works on the unread rest of a text that has no NUL. Values are decoded when they are
 read; the source does so when they are first asked for, in cells it has already passed.
 */
module XmlTree {
  import opened Common
  import opened XmlText
  import opened XmlDecode

  const MAX_ELEMENT_DEPTH := 100

  datatype Attribute = Attribute(name: string, value: string)

  datatype Node =
    | Element(name: string, attributes: seq<Attribute>, children: seq<Node>)
    | Text(value: string)
    | CData(value: string)
    | Comment(value: string)
    | Unknown(value: string)
    | Declaration(value: string)

  // ------------------------------------------------------------------------
  // Characters
  // ------------------------------------------------------------------------

  predicate IsSpace(c: char) {
    c == ' ' || '\t' <= c <= '\r'
  }

  predicate IsNameStart(c: char) {
    c as int >= 128 || 'a' <= c <= 'z' || 'A' <= c <= 'Z' || c == ':' || c == '_'
  }

  predicate IsNameChar(c: char) {
    IsNameStart(c) || '0' <= c <= '9' || c == '.' || c == '-'
  }

  predicate IsName(s: string) {
    s != [] && IsNameStart(s[0]) && forall i :: 0 <= i < |s| ==> IsNameChar(s[i])
  }

  // ------------------------------------------------------------------------
  // Printing
  // ------------------------------------------------------------------------

  /** Whether the printer escapes a character: in text only the three that matter there. */
  predicate Escapes(c: char, inText: bool) {
    c == '&' || c == '<' || c == '>' || (!inText && (c == '\"' || c == '\''))
  }

  function EntityOf(c: char): (i: nat)
    requires Escapes(c, false)
    ensures i < |ENTITIES| && ENTITIES[i].value == c
  {
    if c == '\"' then 0 else if c == '&' then 1 else if c == '\'' then 2 else if c == '<' then 3 else 4
  }

  function EscapedChar(c: char, inText: bool): string {
    if Escapes(c, inText) then "&" + ENTITIES[EntityOf(c)].pattern + ";" else [c]
  }

  function Escaped(s: string, inText: bool): string {
    if s == [] then [] else EscapedChar(s[0], inText) + Escaped(s[1..], inText)
  }

  function PrintedAttribute(a: Attribute): string {
    " " + a.name + "=\"" + Escaped(a.value, false) + "\""
  }

  function PrintedAttributes(attributes: seq<Attribute>): string {
    if attributes == [] then [] else PrintedAttribute(attributes[0]) + PrintedAttributes(attributes[1..])
  }

  function Printed(n: Node): (r: string)
    decreases n, 0
  {
    match n
    case Element(name, attributes, children) =>
      "<" + name + PrintedAttributes(attributes)
      + if children == [] then "/>" else ">" + PrintedAll(children) + "</" + name + ">"
    case Text(value) => Escaped(value, true)
    case CData(value) => "<![CDATA[" + value + "]]>"
    case Comment(value) => "<!--" + value + "-->"
    case Unknown(value) => "<!" + value + ">"
    case Declaration(value) => "<?" + value + "?>"
  }

  function PrintedAll(nodes: seq<Node>): string
    decreases nodes, 0
  {
    if nodes == [] then [] else Printed(nodes[0]) + PrintedAll(nodes[1..])
  }

  // ------------------------------------------------------------------------
  // Parsing
  // ------------------------------------------------------------------------

  function SkipSpace(s: string): (r: string)
    ensures |r| <= |s| && (r != [] ==> !IsSpace(r[0])) && r == s[|s| - |r|..]
  {
    if s != [] && IsSpace(s[0]) then SkipSpace(s[1..]) else s
  }

  /** How many name characters `s` begins with. */
  function NameLength(s: string): (n: nat)
    ensures n <= |s| && (forall i :: 0 <= i < n ==> IsNameChar(s[i])) && (n < |s| ==> !IsNameChar(s[n]))
  {
    if s != [] && IsNameChar(s[0]) then 1 + NameLength(s[1..]) else 0
  }

  /** The name `s` begins with; empty if it begins with none. */
  function ParseName(s: string): (r: string)
    ensures r <= s
  {
    if s != [] && IsNameStart(s[0]) then s[..NameLength(s)] else []
  }

  predicate StartsWith(s: string, prefix: string) {
    prefix <= s
  }

  /** The text up to the first `tag`, and what follows the tag. */
  function ParseText(s: string, tag: string): (r: Option<(string, string)>)
    requires tag != []
    ensures r.Some? ==> |r.value.0| + |tag| + |r.value.1| == |s|
  {
    if s == [] then None
    else if StartsWith(s, tag) then Some(([], s[|tag|..]))
    else
      var r := ParseText(s[1..], tag);
      if r.None? then None else Some(([s[0]] + r.value.0, r.value.1))
  }

  /** A value as it is handed out. */
  ghost function ValueOf(raw: string, entities: bool): string {
    RoundIsRound(true, entities);
    InPlace(raw, 0, 0, Round(true, entities))
  }

  /** The text between two like quotes, and what follows. */
  function ParseQuoted(s: string): (r: Option<(string, string)>)
    ensures r.Some? ==> |r.value.1| < |s|
  {
    if s == [] || (s[0] != '\"' && s[0] != '\'') then None else ParseText(s[1..], [s[0]])
  }

  ghost function ParseAttribute(s: string): (r: Option<(Attribute, string)>)
    ensures r.Some? ==> |r.value.1| < |s|
  {
    var name := ParseName(s);
    var s1 := s[|name|..];
    if name == [] || s1 == [] then None
    else
      var s2 := SkipSpace(s1);
      if s2 == [] || s2[0] != '=' then None
      else
        var text := ParseQuoted(SkipSpace(s2[1..]));
        if text.None? then None else Some((Attribute(name, ValueOf(text.value.0, true)), text.value.1))
  }

  predicate HasAttribute(attributes: seq<Attribute>, name: string) {
    exists i :: 0 <= i < |attributes| && attributes[i].name == name
  }

  /** The attributes, whether the tag is sealed with "/>", and the rest behind the tag. */
  ghost function ParseAttributes(s: string, soFar: seq<Attribute>): (r: Option<(seq<Attribute>, bool, string)>)
    ensures r.Some? ==> |r.value.2| < |s|
    decreases |s|
  {
    var s1 := SkipSpace(s);
    if s1 == [] then None
    else if IsNameStart(s1[0]) then
      var a := ParseAttribute(s1);
      if a.None? || HasAttribute(soFar, a.value.0.name) then None
      else ParseAttributes(a.value.1, soFar + [a.value.0])
    else if s1[0] == '>' then Some((soFar, false, s1[1..]))
    else if s1[0] == '/' && Peek(s1, 1) == '>' then Some((soFar, true, s1[2..]))
    else None
  }

  /** How reading a list of nodes ends: with a closing tag, with the end of the text, or with an error. */
  datatype Nodes =
    | Closed(nodes: seq<Node>, name: string, rest: string)
    | AtEnd(nodes: seq<Node>)
    | Error

  /** What one node reads as. A closing tag is read like an element. */
  datatype NodeResult =
    | Read(node: Node, rest: string)
    | ClosingTag(name: string, rest: string)
    | End
    | Failure

  /** What the first characters behind white space announce. */
  datatype Kind = NothingLeft | DeclarationTag | CommentTag | CDataTag | UnknownTag | ElementTag | PlainText

  predicate DashesAt(s: string, i: nat) {
    Peek(s, i) == '-' && Peek(s, i + 1) == '-'
  }

  predicate CDataAt(s: string, i: nat) {
    && Peek(s, i) == '[' && Peek(s, i + 1) == 'C' && Peek(s, i + 2) == 'D' && Peek(s, i + 3) == 'A'
    && Peek(s, i + 4) == 'T' && Peek(s, i + 5) == 'A' && Peek(s, i + 6) == '['
  }

  function KindOf(s: string): (k: Kind)
    ensures HeaderSize(k) <= |s|
  {
    if s == [] then NothingLeft
    else if s[0] != '<' then PlainText
    else if Peek(s, 1) == '?' then DeclarationTag
    else if Peek(s, 1) != '!' then ElementTag
    else if DashesAt(s, 2) then CommentTag
    else if CDataAt(s, 2) then CDataTag
    else UnknownTag
  }

  /** How long "<?", "<!--", "<![CDATA[", "<!" and "<" are. */
  function HeaderSize(k: Kind): nat {
    match k
    case DeclarationTag => 2
    case CommentTag => 4
    case CDataTag => 9
    case UnknownTag => 2
    case ElementTag => 1
    case _ => 0
  }

  function Footer(k: Kind): (tag: string)
    ensures tag != []
  {
    match k
    case DeclarationTag => "?>"
    case CommentTag => "-->"
    case CDataTag => "]]>"
    case UnknownTag => ">"
    case _ => "<"
  }

  function MakeLeaf(k: Kind, value: string): Node {
    match k
    case DeclarationTag => Declaration(value)
    case CommentTag => Comment(value)
    case CDataTag => CData(value)
    case UnknownTag => Unknown(value)
    case _ => Text(value)
  }

  /** A leaf from behind its header. */
  ghost function ParseLeaf(s: string, k: Kind): (r: NodeResult)
    ensures r.Read? ==> |r.rest| < |s|
    ensures !r.ClosingTag? && !r.End?
  {
    var text := ParseText(s, Footer(k));
    if text.None? then Failure else Read(MakeLeaf(k, ValueOf(text.value.0, false)), text.value.1)
  }

  /** Text up to the next tag, of which something must follow. */
  ghost function ParsePlain(s: string): (r: NodeResult)
    ensures !r.ClosingTag? && !r.End?
    ensures r.Read? && (s != [] ==> s[0] != '<') ==> |r.rest| < |s|
  {
    var text := ParseText(s, "<");
    if text.None? || text.value.1 == [] then Failure
    else Read(Text(ValueOf(text.value.0, true)), "<" + text.value.1)
  }

  ghost function ParseNode(s: string, depth: nat): (r: NodeResult)
    requires depth < MAX_ELEMENT_DEPTH
    ensures (r.Read? || r.ClosingTag?) ==> |r.rest| < |s|
    ensures r.End? <==> SkipSpace(s) == []
    decreases |s|, 0
  {
    var s1 := SkipSpace(s);
    match KindOf(s1)
    case NothingLeft => End
    case ElementTag => ParseElement(s1[1..], depth)
    case PlainText => ParsePlain(s)
    case k => ParseLeaf(s1[HeaderSize(k)..], k)
  }

  /** A tag: "</", "/>" or neither, its name, its attributes and the rest behind it. */
  datatype Tag = Tag(closing: bool, isSealed: bool, name: string, attributes: seq<Attribute>, rest: string)

  /** The tag from behind its "<". */
  ghost function ParseTag(s: string): (r: Option<Tag>)
    ensures r.Some? ==> |r.value.rest| < |s|
  {
    var s1 := SkipSpace(s);
    var closing := s1 != [] && s1[0] == '/';
    var s2 := if closing then s1[1..] else s1;
    var name := ParseName(s2);
    if name == [] then None
    else
      var attributes := ParseAttributes(s2[|name|..], []);
      if attributes.None? then None
      else Some(Tag(closing, attributes.value.1, name, attributes.value.0, attributes.value.2))
  }

  /** An element, or a closing tag, from behind its "<". */
  ghost function ParseElement(s: string, depth: nat): (r: NodeResult)
    requires depth < MAX_ELEMENT_DEPTH
    ensures (r.Read? || r.ClosingTag?) ==> |r.rest| < |s|
    ensures !r.End?
    decreases |s|, 1
  {
    var tag := ParseTag(s);
    if tag.None? then Failure else ParseContent(tag.value, depth)
  }

  /** What follows a tag: nothing more for a sealed or closing one, else the children. */
  ghost function ParseContent(tag: Tag, depth: nat): (r: NodeResult)
    requires depth < MAX_ELEMENT_DEPTH
    ensures (r.Read? || r.ClosingTag?) ==> |r.rest| <= |tag.rest|
    ensures !r.End?
    decreases |tag.rest|, 3
  {
    if tag.isSealed then Read(Element(tag.name, tag.attributes, []), tag.rest)
    else if tag.closing then ClosingTag(tag.name, tag.rest)
    else if tag.rest == [] then Failure
    else
      var kids := ParseNodes(tag.rest, depth + 1, [], false);
      if kids.Closed? && kids.name == tag.name then Read(Element(tag.name, tag.attributes, kids.nodes), kids.rest)
      else Failure
  }

  /** Declarations are only allowed in a document, before anything else. */
  predicate WellLocated(soFar: seq<Node>, document: bool) {
    document && (soFar != [] ==> soFar[0].Declaration? && soFar[|soFar| - 1].Declaration?)
  }

  ghost function ParseNodes(s: string, depth: nat, soFar: seq<Node>, document: bool): (r: Nodes)
    requires depth <= MAX_ELEMENT_DEPTH
    ensures r.Closed? ==> |r.rest| < |s|
    decreases |s|, 2
  {
    if depth == MAX_ELEMENT_DEPTH then Error
    else if s == [] then AtEnd(soFar)
    else
      match ParseNode(s, depth)
      case End => AtEnd(soFar)
      case Failure => Error
      case ClosingTag(name, rest) => Closed(soFar, name, rest)
      case Read(node, rest) =>
        if node.Declaration? && !WellLocated(soFar, document) then Error
        else ParseNodes(rest, depth, soFar + [node], document)
  }

  const BOM: string := [Byte(0xEF), Byte(0xBB), Byte(0xBF)]

  /** A document's nodes, or None if there is an error. A stray closing tag ends it without one. */
  ghost function Parse(s: string): Option<seq<Node>> {
    var s1 := SkipSpace(s);
    var s2 := if StartsWith(s1, BOM) then s1[3..] else s1;
    if s2 == [] then None
    else
      var r := ParseNodes(s2, 1, [], true);
      if r.Error? then None else Some(r.nodes)
  }
}
