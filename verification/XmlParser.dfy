/**
 The parser's loops and its recursive descent (compat/tinyxml2-v34/tinyxml2.cpp and tinyxml2.h).

 A pointer into the text is the rest of the text it points at.
 */
module XmlParser {
  import opened Common
  import opened XmlText
  import opened XmlDecode
  import opened XmlTree

  method SkipWhiteSpace(s: string) returns (p: string)
    ensures p == SkipSpace(s)
  {
    p := s;
    while p != [] && IsSpace(p[0])
      invariant SkipSpace(p) == SkipSpace(s)
      decreases |p|
    {
      p := p[1..];
    }
  }

  method ReadName(s: string) returns (name: string)
    ensures name == ParseName(s)
  {
    if s == [] || !IsNameStart(s[0]) { return []; }
    var n := 1;
    assert NameLength(s) == 1 + NameLength(s[1..]);
    while n < |s| && IsNameChar(s[n])
      invariant 1 <= n <= |s| && NameLength(s) == n + NameLength(s[n..])
    {
      assert s[n..][1..] == s[n + 1..];
      n := n + 1;
    }
    return s[..n];
  }

  function Behind(read: string, r: Option<(string, string)>): Option<(string, string)> {
    if r.None? then None else Some((read + r.value.0, r.value.1))
  }

  lemma OneFurther(s: string, n: nat, tag: string)
    requires tag != [] && n < |s| && !StartsWith(s[n..], tag)
    ensures Behind(s[..n], ParseText(s[n..], tag)) == Behind(s[..n + 1], ParseText(s[n + 1..], tag))
  {
    var p := s[n..];
    assert p[1..] == s[n + 1..] && s[..n] + [p[0]] == s[..n + 1];
    var r := ParseText(p[1..], tag);
    if r.Some? { assert s[..n] + ([p[0]] + r.value.0) == s[..n] + [p[0]] + r.value.0; }
  }

  lemma {:induction false} ParseTextSplits(s: string, tag: string)
    requires tag != []
    ensures var r := ParseText(s, tag); r.Some? ==> s == r.value.0 + tag + r.value.1
  {
    if s != [] && !StartsWith(s, tag) { ParseTextSplits(s[1..], tag); }
  }

  /** Reads up to the end tag; None if the text ends before one. */
  method ReadText(s: string, tag: string) returns (r: Option<(string, string)>)
    requires tag != []
    ensures r == ParseText(s, tag)
    ensures r.Some? && NUL !in s ==> NUL !in r.value.0 && NUL !in r.value.1
  {
    ParseTextSplits(s, tag);
    var n := 0;
    assert s[0..] == s && forall t: string {:trigger [] + t} :: [] + t == t;
    while n < |s|
      invariant 0 <= n <= |s|
      invariant ParseText(s, tag) == Behind(s[..n], ParseText(s[n..], tag))
    {
      var p := s[n..];
      if p[0] == tag[0] && tag <= p {
        assert s[..n] + [] == s[..n];
        return Some((s[..n], p[|tag|..]));
      }
      OneFurther(s, n, tag);
      n := n + 1;
    }
    return None;
  }

  /** Decodes a value in a buffer of its own. */
  method ReadValue(raw: string, entities: bool) returns (value: string)
    requires NUL !in raw
    ensures value == ValueOf(raw, entities)
  {
    var a := new char[|raw| + 1](i => if 0 <= i < |raw| then raw[i] else NUL);
    assert a[..a.Length - 1] == raw;
    var n := GetStr(a, true, entities);
    return a[..n];
  }

  method ReadQuoted(s: string) returns (r: Option<(string, string)>)
    ensures r == ParseQuoted(s)
    ensures r.Some? && NUL !in s ==> NUL !in r.value.0 && NUL !in r.value.1
  {
    if s == [] || (s[0] != '\"' && s[0] != '\'') { return None; }
    r := ReadText(s[1..], [s[0]]);
  }

  method ReadAttribute(s: string) returns (r: Option<(Attribute, string)>)
    requires NUL !in s
    ensures r == ParseAttribute(s)
    ensures r.Some? ==> NUL !in r.value.1
  {
    var name := ReadName(s);
    var p := s[|name|..];
    if name == [] || p == [] { return None; }
    p := SkipWhiteSpace(p);
    if p == [] || p[0] != '=' { return None; }
    p := SkipWhiteSpace(p[1..]);
    var text := ReadQuoted(p);
    if text.None? { return None; }
    var value := ReadValue(text.value.0, true);
    return Some((Attribute(name, value), text.value.1));
  }

  method ReadAttributes(s: string) returns (r: Option<(seq<Attribute>, bool, string)>)
    requires NUL !in s
    ensures r == ParseAttributes(s, [])
    ensures r.Some? ==> NUL !in r.value.2
  {
    var p, list := s, [];
    while true
      invariant NUL !in p && ParseAttributes(p, list) == ParseAttributes(s, [])
      decreases |p|
    {
      var q := SkipWhiteSpace(p);
      if q == [] { return None; }
      if IsNameStart(q[0]) {
        var a := ReadAttribute(q);
        if a.None? || HasAttribute(list, a.value.0.name) { return None; }
        list, p := list + [a.value.0], a.value.1;
      } else if q[0] == '>' {
        return Some((list, false, q[1..]));
      } else if q[0] == '/' && Peek(q, 1) == '>' {
        return Some((list, true, q[2..]));
      } else {
        return None;
      }
    }
  }

  /** Reads a leaf up to its end tag. */
  method ReadLeaf(s: string, k: Kind) returns (r: NodeResult)
    requires NUL !in s
    ensures r == ParseLeaf(s, k)
    ensures r.Read? ==> NUL !in r.rest
  {
    var text := ReadText(s, Footer(k));
    if text.None? { return Failure; }
    var value := ReadValue(text.value.0, false);
    return Read(MakeLeaf(k, value), text.value.1);
  }

  method ReadPlainText(s: string) returns (r: NodeResult)
    requires NUL !in s
    ensures r == ParsePlain(s)
    ensures r.Read? ==> NUL !in r.rest
  {
    var text := ReadText(s, "<");
    if text.None? || text.value.1 == [] { return Failure; }
    var value := ReadValue(text.value.0, true);
    return Read(Text(value), "<" + text.value.1);
  }

  /** Tells by its first characters what the next node is. */
  method Identify(s: string) returns (k: Kind)
    ensures k == KindOf(s)
  {
    if s == [] { return NothingLeft; }
    if StartsWith(s, "<?") { return DeclarationTag; }
    if StartsWith(s, "<!--") { return CommentTag; }
    if StartsWith(s, "<![CDATA[") { return CDataTag; }
    if StartsWith(s, "<!") { return UnknownTag; }
    return if StartsWith(s, "<") then ElementTag else PlainText;
  }

  method ReadNode(s: string, depth: nat) returns (r: NodeResult)
    requires NUL !in s && depth < MAX_ELEMENT_DEPTH
    ensures r == ParseNode(s, depth)
    ensures r.Read? || r.ClosingTag? ==> NUL !in r.rest
    decreases |s|, 0
  {
    var p := SkipWhiteSpace(s);
    var k := Identify(p);
    match k
    case NothingLeft => r := End;
    case ElementTag => r := ReadElement(p[1..], depth);
    case PlainText => r := ReadPlainText(s);
    case _ => r := ReadLeaf(p[HeaderSize(k)..], k);
  }

  method ReadTag(s: string) returns (r: Option<Tag>)
    requires NUL !in s
    ensures r == ParseTag(s)
    ensures r.Some? ==> NUL !in r.value.rest
  {
    var p := SkipWhiteSpace(s);
    var closing := p != [] && p[0] == '/';
    if closing { p := p[1..]; }
    var name := ReadName(p);
    if name == [] { return None; }
    var attributes := ReadAttributes(p[|name|..]);
    if attributes.None? { return None; }
    return Some(Tag(closing, attributes.value.1, name, attributes.value.0, attributes.value.2));
  }

  method ReadElement(s: string, depth: nat) returns (r: NodeResult)
    requires NUL !in s && depth < MAX_ELEMENT_DEPTH
    ensures r == ParseElement(s, depth)
    ensures r.Read? || r.ClosingTag? ==> NUL !in r.rest
    decreases |s|, 1
  {
    var tag := ReadTag(s);
    if tag.None? { return Failure; }
    var Tag(closing, isSealed, name, list, rest) := tag.value;
    if isSealed { return Read(Element(name, list, []), rest); }
    if closing { return ClosingTag(name, rest); }
    if rest == [] { return Failure; }
    var kids := ReadNodes(rest, depth + 1, false);
    return if kids.Closed? && kids.name == name then Read(Element(name, list, kids.nodes), kids.rest) else Failure;
  }

  /** Reads nodes one after the other until a closing tag, the end of the text or an error. */
  method ReadNodes(s: string, depth: nat, document: bool) returns (r: Nodes)
    requires NUL !in s && depth <= MAX_ELEMENT_DEPTH
    ensures r == ParseNodes(s, depth, [], document)
    ensures r.Closed? ==> NUL !in r.rest
    decreases |s|, 2
  {
    if depth == MAX_ELEMENT_DEPTH { return Error; }
    var p, nodes := s, [];
    while p != []
      invariant NUL !in p && |p| <= |s| && ParseNodes(p, depth, nodes, document) == ParseNodes(s, depth, [], document)
      decreases |p|
    {
      var node := ReadNode(p, depth);
      match node
      case End => return AtEnd(nodes);
      case Failure => return Error;
      case ClosingTag(name, rest) => return Closed(nodes, name, rest);
      case Read(n, rest) =>
        if n.Declaration? && !WellLocated(nodes, document) { return Error; }
        nodes, p := nodes + [n], rest;
    }
    return AtEnd(nodes);
  }

  method ParseDocument(s: string) returns (r: Option<seq<Node>>)
    requires NUL !in s
    ensures r == Parse(s)
  {
    var p := SkipWhiteSpace(s);
    if StartsWith(p, BOM) { p := p[3..]; }
    if p == [] { return None; }
    var nodes := ReadNodes(p, 1, true);
    return if nodes.Error? then None else Some(nodes.nodes);
  }
}
