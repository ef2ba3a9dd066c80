/**
 The compact printer's buffer, changed step by step (XMLPrinter in
 compat/tinyxml2-v34/tinyxml2.cpp).
 */
module XmlPrinter {
  import opened Common
  import opened XmlText
  import opened XmlDecode
  import opened XmlTree

  const INT_MAX := 0x7FFF_FFFF

  /** Where the run of characters behind the last escaped one begins. */
  function LastRun(s: string, inText: bool): (k: nat)
    ensures k <= |s| && (k > 0 ==> Escapes(s[k - 1], inText)) && forall i :: k <= i < |s| ==> !Escapes(s[i], inText)
  {
    if s == [] || Escapes(s[|s| - 1], inText) then |s| else LastRun(s[..|s| - 1], inText)
  }

  lemma {:induction false} EscapedJoin(a: string, b: string, inText: bool)
    ensures Escaped(a + b, inText) == Escaped(a, inText) + Escaped(b, inText)
  {
    if a == [] { assert a + b == b; }
    else {
      assert (a + b)[1..] == a[1..] + b;
      EscapedJoin(a[1..], b, inText);
    }
  }

  lemma {:induction false} NothingToEscape(s: string, inText: bool)
    requires forall i :: 0 <= i < |s| ==> !Escapes(s[i], inText)
    ensures Escaped(s, inText) == s
  {
    if s != [] { NothingToEscape(s[1..], inText); }
  }

  /** What of a string is printed: at most INT_MAX characters behind the last escaped one. */
  function Kept(s: string, inText: bool): string {
    var k := LastRun(s, inText);
    s[..k + Min(|s| - k, INT_MAX)]
  }

  lemma KeptEscaped(s: string, inText: bool, k: nat)
    requires k == LastRun(s, inText)
    ensures Escaped(Kept(s, inText), inText) == Escaped(s[..k], inText) + s[k..k + Min(|s| - k, INT_MAX)]
  {
    var run := s[k..k + Min(|s| - k, INT_MAX)];
    assert Kept(s, inText) == s[..k] + run;
    EscapedJoin(s[..k], run, inText);
    NothingToEscape(run, inText);
  }

  lemma KeptIsAll(s: string, inText: bool)
    ensures Kept(s, inText) == s <==> |s| - LastRun(s, inText) <= INT_MAX
  {
    assert s[..|s|] == s;
  }

  function KeptAttribute(a: Attribute): Attribute {
    Attribute(a.name, Kept(a.value, false))
  }

  function KeptAttributes(attributes: seq<Attribute>): (r: seq<Attribute>)
    ensures |r| == |attributes|
  {
    if attributes == [] then [] else [KeptAttribute(attributes[0])] + KeptAttributes(attributes[1..])
  }

  /** The tree with every text and attribute value cut like that. */
  function KeptTree(n: Node): (r: Node)
    ensures r.Element? == n.Element?
    decreases n, 0
  {
    match n
    case Element(name, attributes, children) => Element(name, KeptAttributes(attributes), KeptTrees(children))
    case Text(value) => Text(Kept(value, true))
    case CData(_) | Comment(_) | Unknown(_) | Declaration(_) => n
  }

  function KeptTrees(nodes: seq<Node>): (r: seq<Node>)
    ensures |r| == |nodes|
    decreases nodes, 0
  {
    if nodes == [] then [] else [KeptTree(nodes[0])] + KeptTrees(nodes[1..])
  }

  predicate IsShort(n: Node)
    decreases n, 0
  {
    match n
    case Element(_, attributes, children) => HasShortValues(attributes) && AllShort(children)
    case Text(value) => |value| - LastRun(value, true) <= INT_MAX
    case CData(_) | Comment(_) | Unknown(_) | Declaration(_) => true
  }

  predicate HasShortValues(attributes: seq<Attribute>) {
    attributes != [] ==>
      |attributes[0].value| - LastRun(attributes[0].value, false) <= INT_MAX && HasShortValues(attributes[1..])
  }

  predicate AllShort(nodes: seq<Node>)
    decreases nodes, 0
  {
    nodes != [] ==> IsShort(nodes[0]) && AllShort(nodes[1..])
  }

  lemma {:induction false} AttributesKept(attributes: seq<Attribute>)
    ensures KeptAttributes(attributes) == attributes <==> HasShortValues(attributes)
  {
    if attributes != [] {
      var a, rest := attributes[0], attributes[1..];
      KeptIsAll(a.value, false);
      AttributesKept(rest);
      assert attributes == [a] + rest;
      SameHeads([KeptAttribute(a)] + KeptAttributes(rest), attributes);
    }
  }

  lemma SameHeads<T>(a: seq<T>, b: seq<T>)
    requires a != [] && |a| == |b|
    ensures a == b <==> a[0] == b[0] && a[1..] == b[1..]
  {
    if a[0] == b[0] && a[1..] == b[1..] { assert a == [a[0]] + a[1..] && b == [b[0]] + b[1..]; }
  }

  /** The whole tree is printed exactly if no text or value has a longer run behind its last escaped character. */
  lemma {:induction false} TreeIsKept(n: Node)
    ensures KeptTree(n) == n <==> IsShort(n)
    decreases n, 0
  {
    match n
    case Element(_, attributes, children) =>
      AttributesKept(attributes);
      TreesAreKept(children);
    case Text(value) => KeptIsAll(value, true);
    case CData(_) =>
    case Comment(_) =>
    case Unknown(_) =>
    case Declaration(_) =>
  }

  lemma {:induction false} TreesAreKept(nodes: seq<Node>)
    ensures KeptTrees(nodes) == nodes <==> AllShort(nodes)
    decreases nodes, 0
  {
    if nodes != [] {
      TreeIsKept(nodes[0]);
      TreesAreKept(nodes[1..]);
      assert nodes == [nodes[0]] + nodes[1..];
      SameHeads([KeptTree(nodes[0])] + KeptTrees(nodes[1..]), nodes);
    }
  }

  class Printer {
    var buffer: string
    var elementJustOpened: bool
    var stack: seq<string>

    constructor ()
      ensures buffer == [] && !elementJustOpened && stack == []
    {
      buffer, elementJustOpened, stack := [], false, [];
    }

    method Write(s: string)
      modifies this`buffer
      ensures buffer == old(buffer) + s
    {
      buffer := buffer + s;
    }

    /** Writes `s` in pieces no longer than an int can count. */
    method Flush(s: string)
      modifies this`buffer
      ensures buffer == old(buffer) + s
    {
      var p := 0;
      while p < |s|
        invariant 0 <= p <= |s| && buffer == old(buffer) + s[..p]
      {
        var size := Min(|s| - p, INT_MAX);
        Write(s[p..p + size]);
        assert s[..p] + s[p..p + size] == s[..p + size];
        p := p + size;
      }
    }

    /** Writes the run from `p` to `q`, and the entity for the character there. */
    method PrintRun(s: string, p: nat, q: nat, inText: bool, ghost before: string)
      requires p <= q < |s| && Escapes(s[q], inText) && forall i :: p <= i < q ==> !Escapes(s[i], inText)
      requires buffer == before + Escaped(s[..p], inText)
      modifies this`buffer
      ensures buffer == before + Escaped(s[..q + 1], inText)
    {
      Flush(s[p..q]);
      Write("&" + ENTITIES[EntityOf(s[q])].pattern + ";");
      RunAndEscape(s, p, q, inText, before);
    }

    /** Writes the escaped string, but at most INT_MAX characters of the run behind the last escape. */
    method PrintString(s: string, inText: bool)
      modifies this`buffer
      ensures buffer == old(buffer) + Escaped(Kept(s, inText), inText)
    {
      var p, q := 0, 0;
      while q < |s|
        invariant 0 <= p <= q <= |s|
        invariant forall i :: p <= i < q ==> !Escapes(s[i], inText)
        invariant p > 0 ==> Escapes(s[p - 1], inText)
        invariant buffer == old(buffer) + Escaped(s[..p], inText)
      {
        if Escapes(s[q], inText) {
          PrintRun(s, p, q, inText, old(buffer));
          p := q + 1;
        }
        q := q + 1;
      }
      LastRunIs(s, p, inText);
      KeptWhole(s, p, inText, buffer, old(buffer));
      if p < q { Write(s[p..p + Min(q - p, INT_MAX)]); }
    }

    method Seal()
      modifies this`buffer, this`elementJustOpened
      ensures buffer == old(buffer) + (if old(elementJustOpened) then ">" else "") && !elementJustOpened
    {
      if !elementJustOpened { return; }
      elementJustOpened := false;
      Write(">");
    }

    method OpenElement(name: string)
      modifies this
      ensures buffer == old(buffer) + (if old(elementJustOpened) then ">" else "") + ("<" + name)
      ensures elementJustOpened && stack == old(stack) + [name]
    {
      Seal();
      stack := stack + [name];
      Write("<");
      Write(name);
      elementJustOpened := true;
    }

    method PushAttribute(a: Attribute)
      modifies this`buffer
      ensures buffer == old(buffer) + PrintedAttribute(KeptAttribute(a))
    {
      Write(" ");
      Write(a.name);
      Write("=\"");
      PrintString(a.value, false);
      Write("\"");
      AttributeParts(old(buffer), a.name, Escaped(Kept(a.value, false), false));
    }

    method CloseElement()
      requires stack != []
      modifies this
      ensures stack == old(stack)[..|old(stack)| - 1] && !elementJustOpened
      ensures buffer == old(buffer) +
        if old(elementJustOpened) then "/>" else "</" + old(stack)[|old(stack)| - 1] + ">"
    {
      var name := stack[|stack| - 1];
      stack := stack[..|stack| - 1];
      if elementJustOpened { Write("/>"); }
      else {
        Write("</");
        Write(name);
        Write(">");
      }
      elementJustOpened := false;
    }

    method PushLeaf(n: Node)
      requires !n.Element?
      modifies this`buffer, this`elementJustOpened
      ensures !elementJustOpened
      ensures buffer == old(buffer) + (if old(elementJustOpened) then ">" else "") + Printed(KeptTree(n))
    {
      Seal();
      match n
      case Text(value) => PrintString(value, true);
      case CData(value) => WriteMarkup("<![CDATA[", value, "]]>");
      case Comment(value) => WriteMarkup("<!--", value, "-->");
      case Unknown(value) => WriteMarkup("<!", value, ">");
      case Declaration(value) => WriteMarkup("<?", value, "?>");
    }

    method WriteMarkup(header: string, value: string, footer: string)
      modifies this`buffer
      ensures buffer == old(buffer) + (header + value + footer)
    {
      Write(header);
      Write(value);
      Write(footer);
      MarkupParts(old(buffer), header, value, footer);
    }

    /** Prints a whole tree: what was there, the end of an open tag, and what is kept of the tree. */
    method Accept(n: Node)
      modifies this
      ensures buffer == old(buffer) + (if old(elementJustOpened) then ">" else "") + Printed(KeptTree(n))
      ensures !elementJustOpened && stack == old(stack)
      decreases n, 1
    {
      if !n.Element? {
        PushLeaf(n);
        return;
      }
      OpenElement(n.name);
      PushAttributes(n.attributes);
      AcceptAll(n.children);
      CloseElement();
      ElementParts(KeptTree(n), old(buffer), if old(elementJustOpened) then ">" else "");
    }

    method PushAttributes(attributes: seq<Attribute>)
      modifies this`buffer
      ensures buffer == old(buffer) + PrintedAttributes(KeptAttributes(attributes))
    {
      ghost var all := old(buffer) + PrintedAttributes(KeptAttributes(attributes));
      var i := 0;
      assert attributes[0..] == attributes;
      while i < |attributes|
        invariant 0 <= i <= |attributes|
        invariant buffer + PrintedAttributes(KeptAttributes(attributes[i..])) == all
      {
        ghost var before := buffer;
        PushAttribute(attributes[i]);
        NextAttribute(attributes, i, before);
        i := i + 1;
      }
    }

    method AcceptAll(nodes: seq<Node>)
      modifies this
      ensures stack == old(stack) && elementJustOpened == (old(elementJustOpened) && nodes == [])
      ensures buffer == old(buffer) +
        (if old(elementJustOpened) && nodes != [] then ">" else "") + PrintedAll(KeptTrees(nodes))
      decreases nodes, 0
    {
      if nodes == [] { return; }
      Accept(nodes[0]);
      AcceptAll(nodes[1..]);
      AllParts(old(buffer) + (if old(elementJustOpened) then ">" else ""), KeptTrees(nodes), nodes);
    }
  }

  lemma RunAndEscape(s: string, p: nat, q: nat, inText: bool, before: string)
    requires p <= q < |s| && Escapes(s[q], inText) && forall i :: p <= i < q ==> !Escapes(s[i], inText)
    ensures before + Escaped(s[..q + 1], inText) ==
            before + Escaped(s[..p], inText) + s[p..q] + EscapedChar(s[q], inText)
  {
    var a, run, c := s[..p], s[p..q], s[q];
    assert s[..q + 1] == a + (run + [c]);
    EscapedJoin(a, run + [c], inText);
    EscapedJoin(run, [c], inText);
    NothingToEscape(run, inText);
    OneEscaped(c, inText);
    Grouped(before, Escaped(a, inText), run, EscapedChar(c, inText));
  }

  lemma OneEscaped(c: char, inText: bool)
    ensures Escaped([c], inText) == EscapedChar(c, inText)
  {
    assert [c][1..] == [];
    assert EscapedChar(c, inText) + [] == EscapedChar(c, inText);
  }

  lemma Grouped(x: string, a: string, b: string, c: string)
    ensures x + (a + (b + c)) == x + a + b + c
  {
  }

  lemma {:induction false} LastRunIs(s: string, p: nat, inText: bool)
    requires p <= |s| && (p > 0 ==> Escapes(s[p - 1], inText)) && forall i :: p <= i < |s| ==> !Escapes(s[i], inText)
    ensures LastRun(s, inText) == p
  {
    var _ := LastRun(s, inText);
  }

  lemma KeptWhole(s: string, p: nat, inText: bool, after: string, before: string)
    requires p == LastRun(s, inText) && after == before + Escaped(s[..p], inText)
    ensures before + Escaped(Kept(s, inText), inText) == after + s[p..p + Min(|s| - p, INT_MAX)]
    ensures p == |s| ==> after == before + Escaped(Kept(s, inText), inText)
  {
    KeptEscaped(s, inText, p);
    Assoc(before, Escaped(s[..p], inText), s[p..p + Min(|s| - p, INT_MAX)]);
    assert after + [] == after;
  }

  lemma NextAttribute(attributes: seq<Attribute>, i: nat, before: string)
    requires i < |attributes|
    ensures before + PrintedAttributes(KeptAttributes(attributes[i..])) ==
            before + PrintedAttribute(KeptAttribute(attributes[i])) + PrintedAttributes(KeptAttributes(attributes[i + 1..]))
  {
    var rest := KeptAttributes(attributes[i + 1..]);
    assert attributes[i..][1..] == attributes[i + 1..];
    assert KeptAttributes(attributes[i..]) == [KeptAttribute(attributes[i])] + rest;
    assert ([KeptAttribute(attributes[i])] + rest)[1..] == rest;
    Assoc(before, PrintedAttribute(KeptAttribute(attributes[i])), PrintedAttributes(rest));
  }

  lemma AllParts(before: string, kept: seq<Node>, nodes: seq<Node>)
    requires nodes != [] && kept == KeptTrees(nodes)
    ensures before + Printed(KeptTree(nodes[0])) + "" + PrintedAll(KeptTrees(nodes[1..])) == before + PrintedAll(kept)
  {
    assert kept[0] == KeptTree(nodes[0]) && kept[1..] == KeptTrees(nodes[1..]);
    assert before + Printed(kept[0]) + "" == before + Printed(kept[0]);
    Assoc(before, Printed(kept[0]), PrintedAll(kept[1..]));
  }

  lemma MarkupParts(before: string, header: string, value: string, footer: string)
    ensures before + header + value + footer == before + (header + value + footer)
  {
  }

  lemma AttributeParts(before: string, name: string, raw: string)
    ensures before + " " + name + "=\"" + raw + "\"" == before + (" " + name + "=\"" + raw + "\"")
  {
  }

  /** What the steps of printing an element add up to. */
  lemma ElementParts(n: Node, before: string, seal: string)
    requires n.Element?
    ensures
      var tag := before + seal + ("<" + n.name) + PrintedAttributes(n.attributes);
      before + seal + Printed(n) ==
      if n.children == [] then tag + "" + PrintedAll(n.children) + "/>"
      else tag + ">" + PrintedAll(n.children) + ("</" + n.name + ">")
  {
    var head := "<" + n.name + PrintedAttributes(n.attributes);
    if n.children == [] {
      assert Printed(n) == head + "/>";
    } else {
      assert Printed(n) == head + (">" + PrintedAll(n.children) + "</" + n.name + ">");
      Regrouped(before + seal, n.name, PrintedAttributes(n.attributes), PrintedAll(n.children));
    }
  }

  lemma Regrouped(before: string, name: string, attributes: string, inner: string)
    ensures before + ("<" + name + attributes + (">" + inner + "</" + name + ">"))
         == before + ("<" + name) + attributes + ">" + inner + ("</" + name + ">")
  {
  }
}
