/**
 What the compact printer writes, the parser reads back
 (compat/tinyxml2-v34/tinyxml2.cpp).
 */
module XmlRoundTrip {
  import opened Common
  import opened XmlText
  import opened XmlDecode
  import opened XmlReference
  import opened XmlMeaning
  import opened XmlTree

  // ------------------------------------------------------------------------
  // Trees that survive
  // ------------------------------------------------------------------------

  /** A string without carriage returns, which are normalised away, and without NUL. */
  predicate IsClean(s: string) {
    CR !in s && NUL !in s
  }

  predicate OccursAt(s: string, tag: string, i: nat) {
    i + |tag| <= |s| && s[i..i + |tag|] == tag
  }

  predicate Contains(s: string, tag: string) {
    exists i: nat :: i <= |s| && OccursAt(s, tag, i)
  }

  predicate GoodAttributes(attributes: seq<Attribute>) {
    && (forall i :: 0 <= i < |attributes| ==> IsName(attributes[i].name) && IsClean(attributes[i].value))
    && (forall i, j :: 0 <= i < j < |attributes| ==> attributes[i].name != attributes[j].name)
  }

  predicate Good(n: Node)
    decreases n, 0
  {
    match n
    case Element(name, attributes, children) => IsName(name) && GoodAttributes(attributes) && GoodAll(children)
    case Text(value) => IsClean(value) && exists i :: 0 <= i < |value| && !IsSpace(value[i])
    case CData(value) => IsClean(value) && !Contains(value, "]]>")
    case Comment(value) => IsClean(value) && !Contains(value, "-->")
    case Unknown(value) => IsClean(value) && '>' !in value && !DashesAt(value, 0) && !CDataAt(value, 0)
    case Declaration(_) => false
  }

  predicate GoodAll(nodes: seq<Node>)
    decreases nodes, 0
  {
    nodes != [] ==> Good(nodes[0]) && GoodAll(nodes[1..]) && !(|nodes| > 1 && nodes[0].Text? && nodes[1].Text?)
  }

  /** Whether a node's open elements stay within the depth limit when it is read at `depth`. */
  predicate Fits(n: Node, depth: nat)
    decreases n, 0
  {
    n.Element? && n.children != [] ==> FitsAll(n.children, depth + 1)
  }

  predicate FitsAll(nodes: seq<Node>, depth: nat)
    decreases nodes, 0
  {
    depth < MAX_ELEMENT_DEPTH && (nodes != [] ==> Fits(nodes[0], depth) && FitsAll(nodes[1..], depth))
  }

  // ------------------------------------------------------------------------
  // Strings
  // ------------------------------------------------------------------------

  lemma EscapedSplits(s: string, inText: bool, e: string, k: nat)
    requires s != [] && e == Escaped(s, inText) && k == |EscapedChar(s[0], inText)|
    ensures e == EscapedChar(s[0], inText) + Escaped(s[1..], inText) && e[k..] == Escaped(s[1..], inText)
    ensures 1 <= k <= |e| && forall i :: 0 < i < k ==> e[i] != '&'
    ensures Escapes(s[0], inText) || e[0] == s[0]
  {
  }

  lemma EscapedReference(s: string, inText: bool, e: string, k: nat)
    requires s != [] && e == Escaped(s, inText) && k == |EscapedChar(s[0], inText)|
    ensures ReferenceAt(e) == if Escapes(s[0], inText) then Some((k, [s[0]])) else None
  {
    EscapedSplits(s, inText, e, k);
    if Escapes(s[0], inText) { EntityIsReference(EntityOf(s[0]), Escaped(s[1..], inText), e); }
  }

  lemma EntityIsReference(i: nat, rest: string, e: string)
    requires i < |ENTITIES| && e == "&" + ENTITIES[i].pattern + ";" + rest
    ensures ReferenceAt(e) == Some((|ENTITIES[i].pattern| + 2, [ENTITIES[i].value]))
  {
    var pattern := ENTITIES[i].pattern;
    EntitySpelled(pattern, rest, e);
    PatternShape(i);
    assert e[1] == pattern[0];
    NamedIs(e, i);
  }

  lemma EntitySpelled(pattern: string, rest: string, e: string)
    requires pattern != [] && e == "&" + pattern + ";" + rest
    ensures HasEntity(e, pattern) && e[0] == '&' && e[1] == pattern[0]
  {
    assert e[1..|pattern| + 1] == pattern;
  }

  lemma {:induction false} EscapedExpands(s: string, inText: bool)
    ensures Expanded(Escaped(s, inText)) == s
  {
    if s != [] {
      var e, k := Escaped(s, inText), |EscapedChar(s[0], inText)|;
      EscapedSplits(s, inText, e, k);
      EscapedReference(s, inText, e, k);
      EscapedExpands(s[1..], inText);
    }
  }

  lemma {:induction false} EscapedHasOnlyReferences(s: string, inText: bool, i: nat)
    requires i < |Escaped(s, inText)| && Escaped(s, inText)[i] == '&'
    ensures ReferenceAt(Escaped(s, inText)[i..]).Some?
    decreases |s|
  {
    var e, k := Escaped(s, inText), |EscapedChar(s[0], inText)|;
    var rest := Escaped(s[1..], inText);
    EscapedSplits(s, inText, e, k);
    if i == 0 {
      EscapedReference(s, inText, e, k);
      assert e[0..] == e;
    } else {
      EndOfIt(e, k, i, rest);
      EscapedHasOnlyReferences(s[1..], inText, i - k);
    }
  }

  lemma EndOfIt(e: string, k: nat, i: nat, rest: string)
    requires k <= i < |e| && e[k..] == rest
    ensures i - k < |rest| && e[i] == rest[i - k] && e[i..] == rest[i - k..]
  {
  }

  lemma {:induction false} EscapedHasNoCr(s: string, inText: bool)
    requires CR !in s
    ensures CR !in Escaped(s, inText)
  {
    if s != [] {
      EscapedHasNoCr(s[1..], inText);
      assert CR !in EscapedChar(s[0], inText);
      NotInEither(EscapedChar(s[0], inText), Escaped(s[1..], inText), CR);
    }
  }

  /** Without carriage returns nothing is normalised. */
  lemma NoCrIsNormalized(t: string)
    requires CR !in t
    ensures Normalized(t) == t && !HasLfToCr(t)
  {
    assert t[..|t|] == t && t[|t|..] == [] && t + [] == t;
    NormalizedBefore(t, |t|);
  }

  /** Decoding undoes escaping. */
  lemma EscapedReadsBack(s: string, inText: bool)
    requires CR !in s
    ensures ValueOf(Escaped(s, inText), true) == s
  {
    var e := Escaped(s, inText);
    EscapedHasNoCr(s, inText);
    NoCrIsNormalized(e);
    forall i | 0 <= i < |e| && e[i] == '&' ensures ReferenceAt(e[i..]).Some? {
      EscapedHasOnlyReferences(s, inText, i);
    }
    DecodesAsMeant(e);
    EscapedExpands(s, inText);
  }

  lemma PlainReadsBack(s: string)
    requires CR !in s
    ensures ValueOf(s, false) == s
  {
    NoCrIsNormalized(s);
    InPlaceIsNormalized(s);
  }

  lemma {:induction false} EscapedLacks(s: string, inText: bool, c: char)
    requires Escapes(c, inText) && c != '&'
    ensures c !in Escaped(s, inText)
  {
    if s != [] {
      EscapedLacks(s[1..], inText, c);
      EscapedCharLacks(s[0], inText, c);
      NotInEither(EscapedChar(s[0], inText), Escaped(s[1..], inText), c);
    }
  }

  lemma EscapedCharLacks(e: char, inText: bool, c: char)
    requires Escapes(c, inText) && c != '&'
    ensures c !in EscapedChar(e, inText)
  {
  }

  lemma NotInEither(a: string, b: string, c: char)
    requires c !in a && c !in b
    ensures c !in a + b
  {
  }

  // ------------------------------------------------------------------------
  // Pieces of the parser
  // ------------------------------------------------------------------------

  /** No occurrence of the tag begins before the one that was appended. */
  predicate Ends(raw: string, tag: string) {
    forall i: nat :: i < |raw| ==> !OccursAt(raw + tag, tag, i)
  }

  lemma {:induction false} TextReadsBack(raw: string, tag: string, rest: string)
    requires tag != [] && Ends(raw, tag)
    ensures ParseText(raw + tag + rest, tag) == Some((raw, rest))
  {
    var s := raw + tag + rest;
    if raw == [] { assert s[|tag|..] == rest; }
    else {
      var tail := raw[1..];
      assert s[..|tag|] == (raw + tag)[0..0 + |tag|] && !OccursAt(raw + tag, tag, 0);
      assert s[1..] == tail + tag + rest && raw == [s[0]] + tail;
      assert tail + tag == (raw + tag)[1..];
      forall i: nat | i < |tail| ensures !OccursAt(tail + tag, tag, i) {
        assert !OccursAt(raw + tag, tag, i + 1);
        assert (tail + tag)[i..i + |tag|] == (raw + tag)[i + 1..i + 1 + |tag|];
      }
      TextReadsBack(tail, tag, rest);
    }
  }

  lemma EndsWithChar(raw: string, c: char)
    requires c !in raw
    ensures Ends(raw, [c])
  {
    forall i: nat | i < |raw| ensures !OccursAt(raw + [c], [c], i) {
      assert (raw + [c])[i..i + 1][0] == raw[i];
    }
  }

  /** A tag whose last character occurs nowhere else in it cannot overlap itself. */
  lemma EndsWithTag(raw: string, tag: string)
    requires |tag| == 3 && tag[0] == tag[1] != tag[2] && !Contains(raw, tag)
    ensures Ends(raw, tag)
  {
    forall i: nat | i < |raw| ensures !OccursAt(raw + tag, tag, i) {
      if i + 3 <= |raw| {
        assert !OccursAt(raw, tag, i);
        assert (raw + tag)[i..i + 3] == raw[i..i + 3];
      } else {
        assert (raw + tag)[i..i + 3][2] == tag[i + 2 - |raw|];
      }
    }
  }

  lemma {:induction false} NameReadsBack(name: string, rest: string)
    requires IsName(name) && (rest == [] || !IsNameChar(rest[0]))
    ensures ParseName(name + rest) == name && (name + rest)[|name|..] == rest
  {
    NameLengthIs(name, rest);
    assert (name + rest)[..|name|] == name;
  }

  lemma {:induction false} NameLengthIs(name: string, rest: string)
    requires (forall i :: 0 <= i < |name| ==> IsNameChar(name[i])) && (rest == [] || !IsNameChar(rest[0]))
    ensures NameLength(name + rest) == |name|
  {
    if name == [] { assert name + rest == rest; }
    else {
      assert (name + rest)[1..] == name[1..] + rest;
      NameLengthIs(name[1..], rest);
    }
  }

  lemma NoSpace(s: string)
    requires s != [] ==> !IsSpace(s[0])
    ensures SkipSpace(s) == s
  {
  }

  lemma Behind(c: char, s: string)
    ensures ([c] + s)[1..] == s
  {
  }

  lemma QuotedReadsBack(value: string, rest: string)
    requires IsClean(value)
    ensures ParseQuoted("\"" + Escaped(value, false) + "\"" + rest) == Some((Escaped(value, false), rest))
  {
    var raw := Escaped(value, false);
    assert ("\"" + raw + "\"" + rest)[1..] == raw + "\"" + rest;
    EscapedLacks(value, false, '\"');
    EndsWithChar(raw, '\"');
    TextReadsBack(raw, "\"", rest);
  }

  lemma AttributeReadsBack(a: Attribute, rest: string)
    requires IsName(a.name) && IsClean(a.value)
    ensures ParseAttribute(a.name + "=\"" + Escaped(a.value, false) + "\"" + rest) == Some((a, rest))
  {
    var raw := Escaped(a.value, false);
    var s2 := "\"" + raw + "\"" + rest;
    AttributeIsGrouped(a.name, raw, rest);
    NameReadsBack(a.name, "=" + s2);
    QuotedReadsBack(a.value, rest);
    EscapedReadsBack(a.value, false);
    AttributeIs(a.name + ("=" + s2), a.name, s2, raw, rest);
  }

  lemma AttributeIsGrouped(name: string, raw: string, rest: string)
    ensures name + "=\"" + raw + "\"" + rest == name + ("=" + ("\"" + raw + "\"" + rest))
  {
  }

  lemma AttributeIs(s: string, name: string, s2: string, raw: string, rest: string)
    requires ParseName(s) == name && name != [] && s[|name|..] == "=" + s2 && s2 != [] && s2[0] == '\"'
    requires ParseQuoted(s2) == Some((raw, rest))
    ensures ParseAttribute(s) == Some((Attribute(name, ValueOf(raw, true)), rest))
  {
    NoSpace("=" + s2);
    Behind('=', s2);
    NoSpace(s2);
    AttributeFrom(s, name, "=" + s2, s2, raw, rest);
  }

  lemma AttributeFrom(s: string, name: string, s1: string, s2: string, raw: string, rest: string)
    requires ParseName(s) == name && name != [] && s[|name|..] == s1 && s1 != [] && s1[0] == '=' && s1[1..] == s2
    requires SkipSpace(s1) == s1 && SkipSpace(s2) == s2 && ParseQuoted(s2) == Some((raw, rest))
    ensures ParseAttribute(s) == Some((Attribute(name, ValueOf(raw, true)), rest))
  {
  }

  lemma OneSpace(s: string)
    requires s != [] && !IsSpace(s[0])
    ensures SkipSpace(" " + s) == s
  {
    Behind(' ', s);
    NoSpace(s);
  }

  /** How a tag ends. */
  function EndOf(isSealed: bool): string {
    if isSealed then "/>" else ">"
  }

  lemma {:induction false} AttributesReadBack(list: seq<Attribute>, soFar: seq<Attribute>, isSealed: bool, rest: string)
    requires GoodAttributes(soFar + list)
    ensures ParseAttributes(PrintedAttributes(list) + EndOf(isSealed) + rest, soFar) ==
            Some((soFar + list, isSealed, rest))
    decreases |list|
  {
    var end := EndOf(isSealed);
    if list == [] {
      assert PrintedAttributes(list) + end + rest == end + rest && soFar + list == soFar;
      EndReadsBack(soFar, isSealed, rest);
    } else {
      var a, tail := list[0], PrintedAttributes(list[1..]) + end + rest;
      NameIsNew(soFar, list);
      Regroup(a.name, Escaped(a.value, false), PrintedAttributes(list[1..]), end, rest);
      AttributeStep(a, soFar, tail);
      AttributesReadBack(list[1..], soFar + [a], isSealed, rest);
    }
  }

  lemma Regroup(name: string, raw: string, more: string, end: string, rest: string)
    ensures " " + name + "=\"" + raw + "\"" + more + end + rest
         == " " + (name + "=\"" + raw + "\"" + (more + end + rest))
  {
  }

  lemma EndReadsBack(soFar: seq<Attribute>, isSealed: bool, rest: string)
    ensures ParseAttributes(EndOf(isSealed) + rest, soFar) == Some((soFar, isSealed, rest))
  {
    var s := EndOf(isSealed) + rest;
    NoSpace(s);
    assert s[|EndOf(isSealed)|..] == rest;
  }

  lemma AttributeStep(a: Attribute, soFar: seq<Attribute>, tail: string)
    requires IsName(a.name) && IsClean(a.value) && !HasAttribute(soFar, a.name)
    ensures ParseAttributes(" " + (a.name + "=\"" + Escaped(a.value, false) + "\"" + tail), soFar) ==
            ParseAttributes(tail, soFar + [a])
  {
    var s := a.name + "=\"" + Escaped(a.value, false) + "\"" + tail;
    assert s[0] == a.name[0];
    OneSpace(s);
    AttributeReadsBack(a, tail);
  }

  lemma NameIsNew(soFar: seq<Attribute>, list: seq<Attribute>)
    requires GoodAttributes(soFar + list) && list != []
    ensures !HasAttribute(soFar, list[0].name) && IsName(list[0].name) && IsClean(list[0].value)
    ensures soFar + [list[0]] + list[1..] == soFar + list
  {
    var all := soFar + list;
    assert all[|soFar|] == list[0];
    forall i | 0 <= i < |soFar| ensures soFar[i].name != list[0].name { assert all[i] == soFar[i]; }
  }

  predicate IsLeafKind(k: Kind) {
    k == CommentTag || k == CDataTag || k == UnknownTag
  }

  lemma LeafReadsBack(value: string, k: Kind, rest: string)
    requires IsLeafKind(k) && IsClean(value) && Ends(value, Footer(k))
    ensures ParseLeaf(value + Footer(k) + rest, k) == Read(MakeLeaf(k, value), rest)
  {
    TextReadsBack(value, Footer(k), rest);
    PlainReadsBack(value);
  }

  /** The next node decides how a list of nodes goes on. */
  lemma NodesOf(s: string, depth: nat, soFar: seq<Node>, document: bool, r: NodeResult)
    requires depth < MAX_ELEMENT_DEPTH && s != [] && r == ParseNode(s, depth)
    ensures r.Read? && (r.node.Declaration? ==> WellLocated(soFar, document)) ==>
      ParseNodes(s, depth, soFar, document) == ParseNodes(r.rest, depth, soFar + [r.node], document)
    ensures r.ClosingTag? ==> ParseNodes(s, depth, soFar, document) == Closed(soFar, r.name, r.rest)
    ensures r.Failure? ==> ParseNodes(s, depth, soFar, document) == Error
    ensures r.End? ==> ParseNodes(s, depth, soFar, document) == AtEnd(soFar)
  {
  }

  /** What the first characters announce is read. */
  lemma PlainOf(s: string, s1: string, depth: nat)
    requires depth < MAX_ELEMENT_DEPTH && s1 == SkipSpace(s) && KindOf(s1) == PlainText
    ensures ParseNode(s, depth) == ParsePlain(s)
  {
  }

  lemma ElementOf(s: string, s1: string, depth: nat)
    requires depth < MAX_ELEMENT_DEPTH && s1 == SkipSpace(s) && KindOf(s1) == ElementTag
    ensures ParseNode(s, depth) == ParseElement(s1[1..], depth)
  {
  }

  predicate IsLeaf(k: Kind) {
    k == DeclarationTag || k == CommentTag || k == CDataTag || k == UnknownTag
  }

  lemma LeafOf(s: string, s1: string, k: Kind, depth: nat)
    requires depth < MAX_ELEMENT_DEPTH && s1 == SkipSpace(s) && KindOf(s1) == k && IsLeaf(k)
    ensures ParseNode(s, depth) == ParseLeaf(s1[HeaderSize(k)..], k)
  {
  }

  lemma LeafNode(s: string, k: Kind, t: string, depth: nat)
    requires IsLeafKind(k) && SkipSpace(s) == s && KindOf(s) == k && s[HeaderSize(k)..] == t && depth < MAX_ELEMENT_DEPTH
    ensures ParseNode(s, depth) == ParseLeaf(t, k)
  {
    LeafOf(s, s, k, depth);
  }

  lemma {:induction false} TextBegins(value: string, rest: string)
    requires exists i :: 0 <= i < |value| && !IsSpace(value[i])
    ensures var s := SkipSpace(Escaped(value, true) + rest); s != [] && s[0] != '<'
  {
    var c, tail := value[0], Escaped(value[1..], true) + rest;
    var s := Escaped(value, true) + rest;
    assert s == EscapedChar(c, true) + tail;
    if IsSpace(c) {
      assert s[1..] == tail;
      var i :| 0 <= i < |value| && !IsSpace(value[i]);
      assert value[1..][i - 1] == value[i];
      TextBegins(value[1..], rest);
    } else {
      assert s[0] == EscapedChar(c, true)[0];
      NoSpace(s);
    }
  }

  lemma TextNodeReadsBack(value: string, rest: string, depth: nat)
    requires Good(Text(value)) && |rest| >= 2 && rest[0] == '<' && depth < MAX_ELEMENT_DEPTH
    ensures ParseNode(Escaped(value, true) + rest, depth) == Read(Text(value), rest)
  {
    var raw := Escaped(value, true);
    TextBegins(value, rest);
    PlainReads(value, raw, rest);
    TextNode(raw + rest, depth);
  }

  lemma PlainReads(value: string, raw: string, rest: string)
    requires IsClean(value) && raw == Escaped(value, true) && |rest| >= 2 && rest[0] == '<'
    ensures ParsePlain(raw + rest) == Read(Text(value), rest)
  {
    UpToTag(raw, rest);
    EscapedLacks(value, true, '<');
    EndsWithChar(raw, '<');
    TextReadsBack(raw, "<", rest[1..]);
    EscapedReadsBack(value, true);
  }

  lemma UpToTag(raw: string, rest: string)
    requires rest != [] && rest[0] == '<'
    ensures rest == "<" + rest[1..] && raw + rest == raw + "<" + rest[1..]
  {
  }

  lemma TextNode(s: string, depth: nat)
    requires depth < MAX_ELEMENT_DEPTH && SkipSpace(s) != [] && SkipSpace(s)[0] != '<'
    ensures ParseNode(s, depth) == ParsePlain(s)
  {
    PlainOf(s, SkipSpace(s), depth);
  }

  lemma TagIsElement(s: string, x: string, depth: nat)
    requires s == "<" + x && x != [] && x[0] != '?' && x[0] != '!' && depth < MAX_ELEMENT_DEPTH
    ensures ParseNode(s, depth) == ParseElement(x, depth)
  {
    NoSpace(s);
    Behind('<', x);
    ElementOf(s, s, depth);
  }

  lemma OpenTag(name: string, tail: string, list: seq<Attribute>, isSealed: bool, rest: string)
    requires IsName(name) && tail != [] && !IsNameChar(tail[0])
    requires ParseAttributes(tail, []) == Some((list, isSealed, rest))
    ensures ParseTag(name + tail) == Some(Tag(false, isSealed, name, list, rest))
  {
    NameReadsBack(name, tail);
    assert (name + tail)[0] == name[0];
    NoSpace(name + tail);
    TagIs(name + tail, name + tail, false, name, tail, list, isSealed, rest);
  }

  lemma TagIs(s: string, s2: string, closing: bool, name: string, tail: string, list: seq<Attribute>, isSealed: bool,
              rest: string)
    requires s != [] && SkipSpace(s) == s && closing == (s[0] == '/') && s2 == if closing then s[1..] else s
    requires ParseName(s2) == name && name != [] && s2[|name|..] == tail
    requires ParseAttributes(tail, []) == Some((list, isSealed, rest))
    ensures ParseTag(s) == Some(Tag(closing, isSealed, name, list, rest))
  {
  }

  lemma CloseTag(name: string, tail: string, list: seq<Attribute>, rest: string)
    requires IsName(name) && tail != [] && !IsNameChar(tail[0])
    requires ParseAttributes(tail, []) == Some((list, false, rest))
    ensures ParseTag("/" + (name + tail)) == Some(Tag(true, false, name, list, rest))
  {
    var s := "/" + (name + tail);
    NameReadsBack(name, tail);
    Behind('/', name + tail);
    NoSpace(s);
    TagIs(s, name + tail, true, name, tail, list, false, rest);
  }

  lemma ClosingReadsBack(s: string, name: string, rest: string, depth: nat)
    requires IsName(name) && depth < MAX_ELEMENT_DEPTH && s == "</" + name + ">" + rest
    ensures ParseNode(s, depth) == ClosingTag(name, rest)
  {
    var x := "/" + (name + (">" + rest));
    CloseIsGrouped(name, rest);
    TagIsElement(s, x, depth);
    EndReadsBack([], false, rest);
    CloseTag(name, ">" + rest, [], rest);
  }

  lemma CloseIsGrouped(name: string, rest: string)
    ensures "</" + name + ">" + rest == "<" + ("/" + (name + (">" + rest)))
  {
  }

  lemma TagReadsBack(s: string, name: string, list: seq<Attribute>, isSealed: bool, rest: string, depth: nat)
    requires IsName(name) && GoodAttributes(list) && depth < MAX_ELEMENT_DEPTH
    requires s == "<" + name + PrintedAttributes(list) + EndOf(isSealed) + rest
    ensures ParseNode(s, depth) == ParseContent(Tag(false, isSealed, name, list, rest), depth)
  {
    var tail := PrintedAttributes(list) + EndOf(isSealed) + rest;
    TagIsGrouped(name, PrintedAttributes(list), EndOf(isSealed), rest);
    TagIsElement(s, name + tail, depth);
    TagAttributes(list, isSealed, rest, tail);
    TagTail(list, isSealed, rest, tail);
    OpenTag(name, tail, list, isSealed, rest);
  }

  lemma TagAttributes(list: seq<Attribute>, isSealed: bool, rest: string, tail: string)
    requires GoodAttributes(list) && tail == PrintedAttributes(list) + EndOf(isSealed) + rest
    ensures ParseAttributes(tail, []) == Some((list, isSealed, rest))
  {
    assert [] + list == list;
    AttributesReadBack(list, [], isSealed, rest);
  }

  lemma TagTail(list: seq<Attribute>, isSealed: bool, rest: string, tail: string)
    requires tail == PrintedAttributes(list) + EndOf(isSealed) + rest
    ensures tail != [] && !IsNameChar(tail[0])
  {
    assert tail[0] == ' ' || tail[0] == EndOf(isSealed)[0];
  }

  lemma TagIsGrouped(name: string, attributes: string, end: string, rest: string)
    ensures "<" + name + attributes + end + rest == "<" + (name + (attributes + end + rest))
  {
  }

  lemma HeaderIsComment(s: string, t: string)
    requires s == "<!--" + t
    ensures SkipSpace(s) == s && KindOf(s) == CommentTag && s[4..] == t
  {
    NoSpace(s);
  }

  lemma HeaderIsCData(s: string, t: string)
    requires s == "<![CDATA[" + t
    ensures SkipSpace(s) == s && KindOf(s) == CDataTag && s[9..] == t
  {
    NoSpace(s);
  }

  lemma HeaderIsUnknown(s: string, value: string, rest: string)
    requires !DashesAt(value, 0) && !CDataAt(value, 0) && s == "<!" + (value + ">" + rest)
    ensures SkipSpace(s) == s && KindOf(s) == UnknownTag && s[2..] == value + ">" + rest
  {
    NoSpace(s);
    UnknownHolds(s, value, rest);
    NotDashes(s, value);
    NotCData(s, value);
  }

  lemma UnknownHolds(s: string, value: string, rest: string)
    requires s == "<!" + (value + ">" + rest)
    ensures Holds(s, value) && s[0] == '<' && s[1] == '!' && s[2..] == value + ">" + rest
  {
  }

  /** What stands in front of the first ">" decides. */
  predicate Holds(s: string, value: string) {
    |value| + 3 <= |s| && (forall i :: 0 <= i < |value| ==> s[i + 2] == value[i]) && s[|value| + 2] == '>'
  }

  lemma NotDashes(s: string, value: string)
    requires Holds(s, value) && !DashesAt(value, 0)
    ensures !DashesAt(s, 2)
  {
    if |value| >= 2 { assert s[0 + 2] == value[0] && s[1 + 2] == value[1]; }
    else if |value| == 1 { assert s[0 + 2] == value[0]; }
  }

  lemma NotCData(s: string, value: string)
    requires Holds(s, value) && !CDataAt(value, 0)
    ensures !CDataAt(s, 2)
  {
    if CDataAt(s, 2) {
      forall i: nat | i < 7 && i < |value| ensures Peek(value, i) == Peek(s, i + 2) { assert s[i + 2] == value[i]; }
    }
  }

  lemma CommentReadsBack(s: string, value: string, rest: string, depth: nat)
    requires Good(Comment(value)) && depth < MAX_ELEMENT_DEPTH && s == "<!--" + (value + "-->" + rest)
    ensures ParseNode(s, depth) == Read(Comment(value), rest)
  {
    var t := value + "-->" + rest;
    HeaderIsComment(s, t);
    EndsWithTag(value, "-->");
    LeafReadsBack(value, CommentTag, rest);
    LeafNode(s, CommentTag, t, depth);
  }

  lemma CDataReadsBack(s: string, value: string, rest: string, depth: nat)
    requires Good(CData(value)) && depth < MAX_ELEMENT_DEPTH && s == "<![CDATA[" + (value + "]]>" + rest)
    ensures ParseNode(s, depth) == Read(CData(value), rest)
  {
    var t := value + "]]>" + rest;
    HeaderIsCData(s, t);
    EndsWithTag(value, "]]>");
    LeafReadsBack(value, CDataTag, rest);
    LeafNode(s, CDataTag, t, depth);
  }

  lemma UnknownReadsBack(s: string, value: string, rest: string, depth: nat)
    requires Good(Unknown(value)) && depth < MAX_ELEMENT_DEPTH && s == "<!" + (value + ">" + rest)
    ensures ParseNode(s, depth) == Read(Unknown(value), rest)
  {
    var t := value + ">" + rest;
    HeaderIsUnknown(s, value, rest);
    EndsWithChar(value, '>');
    LeafReadsBack(value, UnknownTag, rest);
    LeafNode(s, UnknownTag, t, depth);
  }

  // ------------------------------------------------------------------------
  // Trees
  // ------------------------------------------------------------------------

  lemma Group3(a: string, b: string, c: string, d: string)
    ensures a + b + c + d == a + (b + c + d)
  {
  }

  lemma LeafNodeReadsBack(s: string, n: Node, rest: string, depth: nat)
    requires Good(n) && !n.Element? && depth < MAX_ELEMENT_DEPTH && s == Printed(n) + rest
    requires n.Text? ==> |rest| >= 2 && rest[0] == '<'
    ensures ParseNode(s, depth) == Read(n, rest)
  {
    match n
    case Text(value) => TextNodeReadsBack(value, rest, depth);
    case CData(value) => Group3("<![CDATA[", value, "]]>", rest); CDataReadsBack(s, value, rest, depth);
    case Comment(value) => Group3("<!--", value, "-->", rest); CommentReadsBack(s, value, rest, depth);
    case Unknown(value) => Group3("<!", value, ">", rest); UnknownReadsBack(s, value, rest, depth);
  }

  function CloseOf(name: string, rest: string): string {
    "</" + name + ">" + rest
  }

  lemma ElementIsGrouped(n: Node, rest: string)
    requires n.Element?
    ensures
      var head := "<" + n.name + PrintedAttributes(n.attributes);
      Printed(n) + rest ==
      if n.children == [] then head + "/>" + rest
      else head + ">" + (PrintedAll(n.children) + CloseOf(n.name, rest))
  {
    var head := "<" + n.name + PrintedAttributes(n.attributes);
    if n.children == [] { assert Printed(n) == head + "/>"; }
    else {
      var inner := PrintedAll(n.children);
      assert Printed(n) == head + (">" + inner + "</" + n.name + ">");
      Group5(head, inner, n.name, rest);
    }
  }

  lemma Group5(head: string, inner: string, name: string, rest: string)
    ensures head + (">" + inner + "</" + name + ">") + rest == head + ">" + (inner + ("</" + name + ">" + rest))
  {
  }

  lemma ChildrenAreRead(n: Node, tail: string, rest: string, depth: nat)
    requires n.Element? && n.children != [] && tail != [] && depth < MAX_ELEMENT_DEPTH
    requires ParseNodes(tail, depth + 1, [], false) ==
             if FitsAll(n.children, depth + 1) then Closed([] + n.children, n.name, rest) else Error
    ensures ParseContent(Tag(false, false, n.name, n.attributes, tail), depth) ==
            if Fits(n, depth) then Read(n, rest) else Failure
  {
    assert [] + n.children == n.children;
  }

  lemma {:induction false} NodeReadsBack(s: string, n: Node, rest: string, depth: nat)
    requires Good(n) && depth < MAX_ELEMENT_DEPTH && s == Printed(n) + rest
    requires n.Text? ==> |rest| >= 2 && rest[0] == '<'
    ensures ParseNode(s, depth) == if Fits(n, depth) then Read(n, rest) else Failure
    decreases n, 1
  {
    if !n.Element? { LeafNodeReadsBack(s, n, rest, depth); }
    else {
      ElementIsGrouped(n, rest);
      if n.children == [] { TagReadsBack(s, n.name, n.attributes, true, rest, depth); }
      else {
        var tail := PrintedAll(n.children) + CloseOf(n.name, rest);
        TagReadsBack(s, n.name, n.attributes, false, tail, depth);
        NodesReadBack(tail, n.children, n.name, rest, depth + 1, []);
        ChildrenAreRead(n, tail, rest, depth);
      }
    }
  }

  lemma NextBegins(nodes: seq<Node>, name: string, rest: string)
    requires IsName(name) && (nodes != [] ==> !nodes[0].Text?)
    ensures var tail := PrintedAll(nodes) + CloseOf(name, rest); |tail| >= 2 && tail[0] == '<'
  {
    if nodes != [] { assert Printed(nodes[0])[0] == '<' && |Printed(nodes[0])| >= 2; }
  }

  lemma {:induction false} NodesReadBack(s: string, nodes: seq<Node>, name: string, rest: string, depth: nat,
                                         soFar: seq<Node>)
    requires GoodAll(nodes) && IsName(name) && depth <= MAX_ELEMENT_DEPTH
    requires s == PrintedAll(nodes) + CloseOf(name, rest)
    ensures ParseNodes(s, depth, soFar, false) ==
            if FitsAll(nodes, depth) then Closed(soFar + nodes, name, rest) else Error
    decreases nodes, 0
  {
    if depth < MAX_ELEMENT_DEPTH {
      if nodes == [] {
        assert s == CloseOf(name, rest) && soFar + nodes == soFar;
        ClosingReadsBack(s, name, rest, depth);
        NodesOf(s, depth, soFar, false, ClosingTag(name, rest));
      } else {
        var n, tail := nodes[0], PrintedAll(nodes[1..]) + CloseOf(name, rest);
        FirstPrinted(nodes, CloseOf(name, rest));
        if n.Text? { NextBegins(nodes[1..], name, rest); }
        NodeReadsBack(s, n, tail, depth);
        NodesOf(s, depth, soFar, false, if Fits(n, depth) then Read(n, tail) else Failure);
        NodesReadBack(tail, nodes[1..], name, rest, depth, soFar + [n]);
        FirstThenRest(soFar, nodes);
      }
    }
  }

  lemma FirstPrinted(nodes: seq<Node>, end: string)
    requires nodes != []
    ensures PrintedAll(nodes) + end == Printed(nodes[0]) + (PrintedAll(nodes[1..]) + end)
  {
    Assoc(Printed(nodes[0]), PrintedAll(nodes[1..]), end);
  }

  lemma FirstThenRest(soFar: seq<Node>, nodes: seq<Node>)
    requires nodes != []
    ensures soFar + [nodes[0]] + nodes[1..] == soFar + nodes
  {
  }

  /**
   A one-root tree printed in compact mode parses to the same tree, exactly when its open elements
   stay within the depth limit; a deeper one is refused.
   */
  lemma PrintedTreeParsesBack(root: Node)
    requires root.Element? && Good(root)
    ensures Parse(Printed(root)) == if Fits(root, 1) then Some([root]) else None
  {
    var s := Printed(root);
    assert s[0] == '<' && s == s + [];
    NodeReadsBack(s, root, [], 1);
    OneNode(s, root);
    WholeText(s);
  }

  lemma Differs(s: string, prefix: string, i: nat)
    requires i < |s| && i < |prefix| && s[i] != prefix[i]
    ensures !StartsWith(s, prefix)
  {
  }

  lemma WholeText(s: string)
    requires s != [] && s[0] == '<'
    ensures Parse(s) == var r := ParseNodes(s, 1, [], true); if r.Error? then None else Some(r.nodes)
  {
    NoSpace(s);
    Differs(s, BOM, 0);
  }

  lemma OneNode(s: string, root: Node)
    requires s != [] && root.Element?
    requires ParseNode(s, 1) == if Fits(root, 1) then Read(root, []) else Failure
    ensures ParseNodes(s, 1, [], true) == if Fits(root, 1) then AtEnd([root]) else Error
  {
    assert [] + [root] == [root];
    assert ParseNodes([], 1, [root], true) == AtEnd([root]);
  }
}
