/**
 What the parser leaves unread: it reads every text from the left and looks no further than it
 reads, so an accepted text that was not read to its end may be followed by anything
 (XMLNode::ParseDeep in compat/tinyxml2-v34/tinyxml2.cpp).
 */
module XmlUnread {
  import opened Common
  import opened XmlText
  import opened XmlTree
  import opened XmlRoundTrip

  // ------------------------------------------------------------------------
  // Pieces with more text behind them
  // ------------------------------------------------------------------------

  lemma Append(s: string, u: string, n: nat)
    requires n <= |s|
    ensures (s + u)[n..] == s[n..] + u && (s + u)[..n] == s[..n]
  {
  }

  lemma {:induction false} SpaceThen(s: string, u: string)
    requires SkipSpace(s) != []
    ensures SkipSpace(s + u) == SkipSpace(s) + u
  {
    if IsSpace(s[0]) {
      Append(s, u, 1);
      SpaceThen(s[1..], u);
    }
  }

  lemma {:induction false} NameLengthThen(s: string, u: string)
    requires NameLength(s) < |s|
    ensures NameLength(s + u) == NameLength(s)
  {
    if IsNameChar(s[0]) {
      Append(s, u, 1);
      NameLengthThen(s[1..], u);
    }
  }

  lemma NameThen(s: string, u: string)
    requires |ParseName(s)| < |s|
    ensures ParseName(s + u) == ParseName(s)
  {
    if IsNameStart(s[0]) {
      NameLengthThen(s, u);
      Append(s, u, NameLength(s));
    }
  }

  lemma {:induction false} TextThen(s: string, tag: string, u: string)
    requires tag != [] && ParseText(s, tag).Some?
    ensures ParseText(s + u, tag) == Some((ParseText(s, tag).value.0, ParseText(s, tag).value.1 + u))
  {
    if StartsWith(s, tag) {
      assert StartsWith(s + u, tag);
      Append(s, u, |tag|);
    } else {
      TextNeeds(s[1..], tag);
      NotBefore(s, tag, u);
      Append(s, u, 1);
      TextThen(s[1..], tag, u);
    }
  }

  lemma NotBefore(s: string, tag: string, u: string)
    requires |tag| <= |s| && !StartsWith(s, tag)
    ensures !StartsWith(s + u, tag)
  {
    assert (s + u)[..|tag|] == s[..|tag|];
  }

  lemma TextNeeds(s: string, tag: string)
    requires tag != [] && ParseText(s, tag).Some?
    ensures |tag| <= |s|
  {
  }

  lemma QuotedThen(s: string, u: string)
    requires ParseQuoted(s).Some?
    ensures ParseQuoted(s + u) == Some((ParseQuoted(s).value.0, ParseQuoted(s).value.1 + u))
  {
    Append(s, u, 1);
    TextThen(s[1..], [s[0]], u);
  }

  /** What ParseAttribute reads, piece by piece. */
  ghost predicate AttributeParts(s: string, name: string, s1: string, s2: string, s3: string, text: (string, string)) {
    && name == ParseName(s) != [] && s1 == s[|name|..] != [] && s2 == SkipSpace(s1) != [] && s2[0] == '='
    && s3 == SkipSpace(s2[1..]) != [] && ParseQuoted(s3) == Some(text)
  }

  lemma AttributeOf(s: string, name: string, s1: string, s2: string, s3: string, text: (string, string))
    requires AttributeParts(s, name, s1, s2, s3, text)
    ensures ParseAttribute(s) == Some((Attribute(name, ValueOf(text.0, true)), text.1))
  {
  }

  lemma AttributeHas(s: string) returns (name: string, s1: string, s2: string, s3: string, text: (string, string))
    requires ParseAttribute(s).Some?
    ensures AttributeParts(s, name, s1, s2, s3, text)
  {
    name := ParseName(s);
    s1 := s[|name|..];
    s2 := SkipSpace(s1);
    s3 := SkipSpace(s2[1..]);
    text := ParseQuoted(s3).value;
  }

  lemma PartsThen(s: string, name: string, s1: string, s2: string, s3: string, text: (string, string), u: string)
    requires AttributeParts(s, name, s1, s2, s3, text)
    ensures AttributeParts(s + u, name, s1 + u, s2 + u, s3 + u, (text.0, text.1 + u))
  {
    NameThen(s, u);
    Append(s, u, |name|);
    SpaceThen(s1, u);
    Append(s2, u, 1);
    SpaceThen(s2[1..], u);
    QuotedThen(s3, u);
  }

  lemma AttributeThen(s: string, u: string)
    requires ParseAttribute(s).Some?
    ensures ParseAttribute(s + u) == Some((ParseAttribute(s).value.0, ParseAttribute(s).value.1 + u))
  {
    var name, s1, s2, s3, text := AttributeHas(s);
    AttributeOf(s, name, s1, s2, s3, text);
    PartsThen(s, name, s1, s2, s3, text, u);
    AttributeOf(s + u, name, s1 + u, s2 + u, s3 + u, (text.0, text.1 + u));
  }

  lemma NextAttributeOf(s: string, s1: string, soFar: seq<Attribute>, a: Option<(Attribute, string)>)
    requires s1 == SkipSpace(s) && s1 != [] && IsNameStart(s1[0]) && a == ParseAttribute(s1)
    ensures ParseAttributes(s, soFar) ==
      if a.None? || HasAttribute(soFar, a.value.0.name) then None else ParseAttributes(a.value.1, soFar + [a.value.0])
  {
  }

  lemma LastAttributeOf(s: string, s1: string, soFar: seq<Attribute>)
    requires s1 == SkipSpace(s) && s1 != [] && !IsNameStart(s1[0])
    ensures ParseAttributes(s, soFar) ==
      if s1[0] == '>' then Some((soFar, false, s1[1..]))
      else if s1[0] == '/' && Peek(s1, 1) == '>' then Some((soFar, true, s1[2..]))
      else None
  {
  }

  lemma EndThen(s: string, s1: string, soFar: seq<Attribute>, u: string)
    requires ParseAttributes(s, soFar).Some? && s1 == SkipSpace(s) && s1 != [] && !IsNameStart(s1[0])
    ensures
      var r := ParseAttributes(s, soFar).value;
      ParseAttributes(s + u, soFar) == Some((r.0, r.1, r.2 + u))
  {
    LastAttributeOf(s, s1, soFar);
    SpaceThen(s, u);
    LastAttributeOf(s + u, s1 + u, soFar);
    Append(s1, u, 1);
    if |s1| >= 2 { Append(s1, u, 2); }
  }

  lemma {:induction false} AttributesThen(s: string, soFar: seq<Attribute>, u: string)
    requires ParseAttributes(s, soFar).Some?
    ensures
      var r := ParseAttributes(s, soFar).value;
      ParseAttributes(s + u, soFar) == Some((r.0, r.1, r.2 + u))
    decreases |s|
  {
    var s1 := SkipSpace(s);
    if IsNameStart(s1[0]) {
      var a := ParseAttribute(s1);
      NextAttributeOf(s, s1, soFar, a);
      AttributesThen(a.value.1, soFar + [a.value.0], u);
      SpaceThen(s, u);
      AttributeThen(s1, u);
      NextAttributeOf(s + u, s1 + u, soFar, Some((a.value.0, a.value.1 + u)));
    } else {
      EndThen(s, s1, soFar, u);
    }
  }

  /** What ParseTag reads, piece by piece. */
  ghost predicate TagParts(s: string, s1: string, s2: string, name: string, list: (seq<Attribute>, bool, string)) {
    && s1 == SkipSpace(s) != [] && s2 == (if s1[0] == '/' then s1[1..] else s1)
    && name == ParseName(s2) != [] && ParseAttributes(s2[|name|..], []) == Some(list)
  }

  lemma TagOf(s: string, s1: string, s2: string, name: string, list: (seq<Attribute>, bool, string))
    requires TagParts(s, s1, s2, name, list)
    ensures ParseTag(s) == Some(Tag(s1[0] == '/', list.1, name, list.0, list.2))
  {
  }

  lemma TagHas(s: string) returns (s1: string, s2: string, name: string, list: (seq<Attribute>, bool, string))
    requires ParseTag(s).Some?
    ensures TagParts(s, s1, s2, name, list)
  {
    s1 := SkipSpace(s);
    s2 := if s1 != [] && s1[0] == '/' then s1[1..] else s1;
    name := ParseName(s2);
    list := ParseAttributes(s2[|name|..], []).value;
  }

  lemma TagPartsThen(s: string, s1: string, s2: string, name: string, list: (seq<Attribute>, bool, string), u: string)
    requires TagParts(s, s1, s2, name, list)
    ensures TagParts(s + u, s1 + u, s2 + u, name, (list.0, list.1, list.2 + u))
  {
    SpaceThen(s, u);
    Append(s1, u, 1);
    AttributesNeed(s2[|name|..]);
    NameThen(s2, u);
    Append(s2, u, |name|);
    AttributesThen(s2[|name|..], [], u);
  }

  lemma TagThen(s: string, u: string)
    requires ParseTag(s).Some?
    ensures ParseTag(s + u) == Some(ParseTag(s).value.(rest := ParseTag(s).value.rest + u))
  {
    var s1, s2, name, list := TagHas(s);
    TagOf(s, s1, s2, name, list);
    TagPartsThen(s, s1, s2, name, list, u);
    TagOf(s + u, s1 + u, s2 + u, name, (list.0, list.1, list.2 + u));
  }

  lemma AttributesNeed(s: string)
    requires ParseAttributes(s, []).Some?
    ensures s != []
  {
  }

  lemma LeafThen(s: string, k: Kind, u: string)
    requires ParseLeaf(s, k).Read?
    ensures ParseLeaf(s + u, k) == Read(ParseLeaf(s, k).node, ParseLeaf(s, k).rest + u)
  {
    TextThen(s, Footer(k), u);
  }

  lemma PlainThen(s: string, u: string)
    requires ParsePlain(s).Read?
    ensures ParsePlain(s + u) == Read(ParsePlain(s).node, ParsePlain(s).rest + u)
  {
    TextThen(s, "<", u);
    assert "<" + (ParseText(s, "<").value.1 + u) == "<" + ParseText(s, "<").value.1 + u;
  }

  // ------------------------------------------------------------------------
  // Kinds
  // ------------------------------------------------------------------------

  lemma {:induction false} TextHasEnd(s: string, c: char) returns (j: nat)
    requires ParseText(s, [c]).Some?
    ensures j < |s| && s[j] == c
  {
    if s[0] == c { j := 0; }
    else {
      assert !StartsWith(s, [c]);
      j := TextHasEnd(s[1..], c);
      j := j + 1;
    }
  }

  lemma UnknownThen(s: string, u: string)
    requires KindOf(s) == UnknownTag && ParseText(s[2..], ">").Some?
    ensures KindOf(s + u) == UnknownTag
  {
    var j := TextHasEnd(s[2..], '>');
    assert s[j + 2] == '>' == (s + u)[j + 2];
    assert forall i :: 0 <= i < |s| ==> Peek(s + u, i) == s[i] == Peek(s, i);
    if j + 2 <= 3 { assert !DashesAt(s + u, 2); } else { assert !DashesAt(s, 2); }
    if j + 2 <= 8 { assert !CDataAt(s + u, 2); } else { assert !CDataAt(s, 2); }
  }

  /** A node that is read announces itself within what is read of it. */
  lemma KindThen(s: string, u: string)
    requires s != [] && KindOf(s) != UnknownTag && (KindOf(s) == ElementTag ==> |s| >= 2)
    ensures KindOf(s + u) == KindOf(s)
  {
    assert forall i :: 0 <= i < |s| ==> Peek(s + u, i) == s[i] == Peek(s, i);
  }

  // ------------------------------------------------------------------------
  // Nodes with more text behind them
  // ------------------------------------------------------------------------

  predicate IsRead(r: NodeResult) {
    r.Read? || r.ClosingTag?
  }

  function Then(r: NodeResult, u: string): NodeResult
    requires IsRead(r)
  {
    if r.Read? then Read(r.node, r.rest + u) else ClosingTag(r.name, r.rest + u)
  }

  lemma LeafKindThen(s: string, k: Kind, u: string)
    requires s != [] && k == KindOf(s) && k != PlainText && k != ElementTag && ParseLeaf(s[HeaderSize(k)..], k).Read?
    ensures KindOf(s + u) == k
  {
    if k == UnknownTag { UnknownThen(s, u); } else { KindThen(s, u); }
  }

  lemma {:induction false} NodeThen(s: string, depth: nat, u: string)
    requires depth < MAX_ELEMENT_DEPTH && IsRead(ParseNode(s, depth))
    ensures ParseNode(s + u, depth) == Then(ParseNode(s, depth), u)
    decreases |s|, 0
  {
    var s1 := SkipSpace(s);
    var k := KindOf(s1);
    SpaceThen(s, u);
    if k == PlainText { PlainNodeThen(s, s1, depth, u); }
    else if k == ElementTag {
      ElementOf(s, s1, depth);
      TagNeeds(s1[1..], depth);
      KindThen(s1, u);
      Append(s1, u, 1);
      ElementThen(s1[1..], depth, u);
      ElementOf(s + u, s1 + u, depth);
    } else {
      LeafNodeThen(s, s1, k, depth, u);
    }
  }

  lemma PlainNodeThen(s: string, s1: string, depth: nat, u: string)
    requires depth < MAX_ELEMENT_DEPTH && IsRead(ParseNode(s, depth)) && s1 == SkipSpace(s) && KindOf(s1) == PlainText
    ensures ParseNode(s + u, depth) == Then(ParseNode(s, depth), u)
  {
    PlainOf(s, s1, depth);
    SpaceThen(s, u);
    KindThen(s1, u);
    PlainThen(s, u);
    PlainOf(s + u, s1 + u, depth);
  }

  lemma LeafNodeThen(s: string, s1: string, k: Kind, depth: nat, u: string)
    requires depth < MAX_ELEMENT_DEPTH && IsRead(ParseNode(s, depth)) && s1 == SkipSpace(s) && KindOf(s1) == k && IsLeaf(k)
    ensures ParseNode(s + u, depth) == Then(ParseNode(s, depth), u)
  {
    LeafOf(s, s1, k, depth);
    SpaceThen(s, u);
    LeafKindThen(s1, k, u);
    Append(s1, u, HeaderSize(k));
    LeafThen(s1[HeaderSize(k)..], k, u);
    LeafOf(s + u, s1 + u, k, depth);
  }

  lemma TagNeeds(s: string, depth: nat)
    requires depth < MAX_ELEMENT_DEPTH && IsRead(ParseElement(s, depth))
    ensures s != []
  {
  }

  lemma {:induction false} ElementThen(s: string, depth: nat, u: string)
    requires depth < MAX_ELEMENT_DEPTH && IsRead(ParseElement(s, depth))
    ensures ParseElement(s + u, depth) == Then(ParseElement(s, depth), u)
    decreases |s|, 1
  {
    TagThen(s, u);
    ContentThen(ParseTag(s).value, depth, u);
  }

  lemma ContentOf(tag: Tag, depth: nat, kids: Nodes)
    requires depth < MAX_ELEMENT_DEPTH && !tag.isSealed && !tag.closing && tag.rest != []
    requires kids == ParseNodes(tag.rest, depth + 1, [], false)
    ensures ParseContent(tag, depth) ==
      if kids.Closed? && kids.name == tag.name then Read(Element(tag.name, tag.attributes, kids.nodes), kids.rest)
      else Failure
  {
  }

  lemma {:induction false} ContentThen(tag: Tag, depth: nat, u: string)
    requires depth < MAX_ELEMENT_DEPTH && IsRead(ParseContent(tag, depth))
    ensures ParseContent(tag.(rest := tag.rest + u), depth) == Then(ParseContent(tag, depth), u)
    decreases |tag.rest|, 3
  {
    if !tag.isSealed && !tag.closing {
      var kids := ParseNodes(tag.rest, depth + 1, [], false);
      ContentOf(tag, depth, kids);
      NodesThen(tag.rest, depth + 1, [], false, u);
      ContentOf(tag.(rest := tag.rest + u), depth, Closed(kids.nodes, kids.name, kids.rest + u));
    }
  }

  lemma {:induction false} NodesThen(s: string, depth: nat, soFar: seq<Node>, document: bool, u: string)
    requires depth <= MAX_ELEMENT_DEPTH && ParseNodes(s, depth, soFar, document).Closed?
    ensures
      var r := ParseNodes(s, depth, soFar, document);
      ParseNodes(s + u, depth, soFar, document) == Closed(r.nodes, r.name, r.rest + u)
    decreases |s|, 2
  {
    var r := ParseNode(s, depth);
    NodesOf(s, depth, soFar, document, r);
    NodeThen(s, depth, u);
    NodesOf(s + u, depth, soFar, document, Then(r, u));
    match r
    case Read(node, rest) => NodesThen(rest, depth, soFar + [node], document, u);
    case ClosingTag(_, _) =>
  }

  lemma OpenTagFails(s: string, depth: nat)
    requires depth < MAX_ELEMENT_DEPTH && SkipSpace(s) == []
    ensures ParseNode(s + "<", depth) == Failure
  {
    SpacesThen(s);
    ElementOf(s + "<", "<", depth);
    assert "<"[1..] == "" && ParseTag("") == None;
  }

  lemma {:induction false} SpacesThen(s: string)
    requires SkipSpace(s) == []
    ensures SkipSpace(s + "<") == "<"
  {
    if s == [] { assert s + "<" == "<"; }
    else {
      var w := s + "<";
      assert w[0] == s[0] && IsSpace(s[0]);
      Append(s, "<", 1);
      SpacesThen(s[1..]);
    }
  }

  /** What was read to its end is no longer read without an error when the beginning of a tag follows. */
  lemma {:induction false} NodesThenOpen(s: string, depth: nat, soFar: seq<Node>, document: bool)
    requires depth <= MAX_ELEMENT_DEPTH && ParseNodes(s, depth, soFar, document).AtEnd?
    ensures ParseNodes(s + "<", depth, soFar, document) == Error
    decreases |s|
  {
    if s == [] || ParseNode(s, depth).End? {
      OpenTagFails(s, depth);
      NodesOf(s + "<", depth, soFar, document, Failure);
    } else {
      var r := ParseNode(s, depth);
      NodesOf(s, depth, soFar, document, r);
      NodeThen(s, depth, "<");
      NodesOf(s + "<", depth, soFar, document, Then(r, "<"));
      NodesThenOpen(r.rest, depth, soFar + [r.node], document);
    }
  }

  // ------------------------------------------------------------------------
  // Documents
  // ------------------------------------------------------------------------

  /** The text behind white space and a byte order mark. */
  function Body(s: string): string {
    var s1 := SkipSpace(s);
    if StartsWith(s1, BOM) then s1[3..] else s1
  }

  /** Whether an accepted text was read to its end, rather than up to a closing tag that closes nothing. */
  ghost predicate IsReadToEnd(s: string) {
    ParseNodes(Body(s), 1, [], true).AtEnd?
  }

  lemma NoTagNoNode(s: string, depth: nat)
    requires s != [] && '<' !in s && depth < MAX_ELEMENT_DEPTH && !IsSpace(s[0])
    ensures ParseNodes(s, depth, [], true) == Error
  {
    NoTagNoText(s);
    PlainOf(s, s, depth);
    NodesOf(s, depth, [], true, Failure);
  }

  lemma {:induction false} NoTagNoText(s: string)
    requires '<' !in s
    ensures ParseText(s, "<") == None
  {
    if s != [] {
      assert s[0] != '<' && !StartsWith(s, "<");
      NoTagNoText(s[1..]);
    }
  }

  lemma ParseIs(s: string)
    ensures
      var r := ParseNodes(Body(s), 1, [], true);
      Parse(s) == if Body(s) == [] || r.Error? then None else Some(r.nodes)
  {
  }

  /** A part of a byte order mark is no text that is accepted. */
  lemma PartOfBomFails(s: string, u: string)
    requires s != [] && |s| < 3 && StartsWith(s + u, BOM)
    ensures ParseNodes(s, 1, [], true) == Error
  {
    forall i | 0 <= i < |s| ensures s[i] != '<' && !IsSpace(s[i]) {
      assert s[i] == (s + u)[i] == BOM[i];
      BomIsNoTag(i);
    }
    NoTagNoNode(s, 1);
  }

  lemma BomIsNoTag(i: nat)
    requires i < 3
    ensures BOM[i] != '<' && !IsSpace(BOM[i])
  {
  }

  lemma NoPartOfBom(s: string, u: string)
    requires s != [] && !StartsWith(s, BOM) && !ParseNodes(s, 1, [], true).Error?
    ensures !StartsWith(s + u, BOM)
  {
    if |s| >= 3 { NotBefore(s, BOM, u); }
    else if StartsWith(s + u, BOM) { PartOfBomFails(s, u); }
  }

  lemma BodyThen(s: string, u: string)
    requires Parse(s).Some?
    ensures Body(s) != [] && Body(s + u) == Body(s) + u
  {
    var s1 := SkipSpace(s);
    ParseIs(s);
    SpaceThen(s, u);
    if StartsWith(s1, BOM) { Append(s1, u, 3); } else { NoPartOfBom(s1, u); }
  }

  /** What follows a closing tag that closes nothing is never read. */
  lemma UnreadMayBeAnything(s: string, u: string)
    requires Parse(s).Some? && !IsReadToEnd(s)
    ensures Parse(s + u) == Parse(s) && !IsReadToEnd(s + u)
  {
    BodyThen(s, u);
    ParseIs(s);
    NodesThen(Body(s), 1, [], true, u);
    ParseIs(s + u);
  }

  lemma ReadToEndIsTight(s: string)
    requires Parse(s).Some? && IsReadToEnd(s)
    ensures Parse(s + "<") == None
  {
    BodyThen(s, "<");
    NodesThenOpen(Body(s), 1, [], true);
    ParseIs(s + "<");
  }

  /** An accepted text was read to its end exactly if not everything may follow it. */
  lemma ReadToEndIff(s: string)
    requires Parse(s).Some?
    ensures IsReadToEnd(s) <==> Parse(s + "<") == None
    ensures !IsReadToEnd(s) <==> forall u: string :: Parse(s + u) == Parse(s)
  {
    if IsReadToEnd(s) { ReadToEndIsTight(s); }
    else { forall u: string ensures Parse(s + u) == Parse(s) { UnreadMayBeAnything(s, u); } }
  }

  /** A closing tag behind the root element ends the document without an error, whatever follows. */
  lemma StrayTagEndsDocument(root: Node, name: string, u: string)
    requires root.Element? && Good(root) && Fits(root, 1) && IsName(name)
    ensures
      var s := Printed(root) + ("</" + name + ">" + u);
      Parse(s) == Some([root]) && !IsReadToEnd(s)
  {
    var tail := "</" + name + ">" + u;
    var s := Printed(root) + tail;
    assert s[0] == '<';
    NodeReadsBack(s, root, tail, 1);
    ClosingReadsBack(tail, name, u, 1);
    assert [] + [root] == [root];
    TwoNodes(s, root, tail, name, u);
    WholeText(s);
    NoSpace(s);
    Differs(s, BOM, 0);
  }

  lemma TwoNodes(s: string, root: Node, tail: string, name: string, u: string)
    requires root.Element? && s != [] && tail != [] && ParseNode(s, 1) == Read(root, tail)
    requires ParseNode(tail, 1) == ClosingTag(name, u)
    ensures ParseNodes(s, 1, [], true) == Closed([root], name, u)
  {
    assert [] + [root] == [root];
    NodesOf(tail, 1, [root], true, ClosingTag(name, u));
    NodesOf(s, 1, [], true, Read(root, tail));
  }

  /** The smallest of them. */
  lemma StrayTagIsAccepted()
    ensures Parse("<a/></b>") == Some([Element("a", [], [])]) && !IsReadToEnd("<a/></b>")
  {
    var root := Element("a", [], []);
    assert Printed(root) == "<a/>" && "<a/>" + ("</" + "b" + ">" + "") == "<a/></b>";
    StrayTagEndsDocument(root, "b", "");
  }
}
