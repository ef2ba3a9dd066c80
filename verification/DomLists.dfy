/**
 Intrusive doubly linked child lists as values: what the pointers of all nodes say, and how
 cutting a node out and splicing one in change the sequences they spell
 (compat/tinyxml2-v34/tinyxml2.cpp).
 */
module DomLists {
  import opened Common

  class Node {
    var parent: Node?
    var prev: Node?
    var next: Node?
    var first: Node?
    var last: Node?

    constructor ()
      ensures parent == prev == next == first == last == null
    {
      parent, prev, next, first, last := null, null, null, null, null;
    }
  }

  datatype Links = Links(parent: Node?, prev: Node?, next: Node?, first: Node?, last: Node?)

  type Pointers = map<Node, Links>

  type Lists = map<Node, seq<Node>>

  // ------------------------------------------------------------------------
  // Sequences without repeats
  // ------------------------------------------------------------------------

  /** `s` without its first `x`. */
  function Without(s: seq<Node>, x: Node): (r: seq<Node>)
    ensures x !in s ==> r == s
  {
    if s == [] then [] else if s[0] == x then s[1..] else [s[0]] + Without(s[1..], x)
  }

  lemma {:induction false} WithoutAt(s: seq<Node>, i: nat)
    requires i < |s| && NoRepeats(s)
    ensures Without(s, s[i]) == s[..i] + s[i + 1..]
  {
    if i > 0 {
      assert s[1..][i - 1] == s[i];
      WithoutAt(s[1..], i - 1);
      assert [s[0]] + (s[1..][..i - 1] + s[1..][i..]) == s[..i] + s[i + 1..];
    }
  }

  lemma WithoutKeeps(s: seq<Node>, x: Node)
    requires NoRepeats(s)
    ensures NoRepeats(Without(s, x)) && x !in Without(s, x)
    ensures forall y :: y in Without(s, x) <==> y in s && y != x
  {
    if x in s {
      var i :| 0 <= i < |s| && s[i] == x;
      WithoutAt(s, i);
      var r := s[..i] + s[i + 1..];
      forall y | y != x && y in s ensures y in r {
        var j :| 0 <= j < |s| && s[j] == y;
        assert r[if j < i then j else j - 1] == y;
      }
    }
  }

  /** Removing by overwriting with the last entry. */
  lemma SwapRemoved(s: seq<Node>, i: nat)
    requires i < |s| && NoRepeats(s)
    ensures var r := s[i := s[|s| - 1]][..|s| - 1];
      NoRepeats(r) && forall y :: y in r <==> y in s && y != s[i]
  {
    var r := s[i := s[|s| - 1]][..|s| - 1];
    forall y | y in s && y != s[i] ensures y in r {
      var j :| 0 <= j < |s| && s[j] == y;
      assert r[if j == |s| - 1 then i else j] == y;
    }
  }

  function Inserted(s: seq<Node>, i: nat, x: Node): seq<Node>
    requires i <= |s|
  {
    s[..i] + [x] + s[i..]
  }

  lemma InsertedKeeps(s: seq<Node>, i: nat, x: Node)
    requires i <= |s| && NoRepeats(s) && x !in s
    ensures NoRepeats(Inserted(s, i, x))
    ensures forall y :: y in Inserted(s, i, x) <==> y in s || y == x
  {
    var r := Inserted(s, i, x);
    forall y | y in s ensures y in r {
      var j :| 0 <= j < |s| && s[j] == y;
      assert r[if j < i then j else j + 1] == y;
    }
    assert r[i] == x;
  }

  function IndexIn(s: seq<Node>, x: Node): (i: nat)
    requires x in s
    ensures i < |s| && s[i] == x
  {
    if s[0] == x then 0 else 1 + IndexIn(s[1..], x)
  }

  function InsertedAfter(s: seq<Node>, a: Node, x: Node): seq<Node>
    requires a in s
  {
    Inserted(s, IndexIn(s, a) + 1, x)
  }

  /** When `a` ends up last without `x`: it was last, or only `x` was behind it. */
  lemma LastWithout(s: seq<Node>, a: Node, x: Node)
    requires NoRepeats(s) && a in s && a != x
    ensures a in Without(s, x)
    ensures
      var r := Without(s, x);
      r[|r| - 1] == a <==> s[|s| - 1] == a || (|s| >= 2 && s[|s| - 2] == a && s[|s| - 1] == x)
  {
    if x in s {
      var i := IndexIn(s, x);
      WithoutAt(s, i);
      StaysWithout(s, i, a);
      LastAt(s, i, a);
    }
  }

  lemma StaysWithout(s: seq<Node>, i: nat, a: Node)
    requires i < |s| && a in s && a != s[i]
    ensures a in s[..i] + s[i + 1..] && |s| >= 2
  {
    assert s == s[..i] + [s[i]] + s[i + 1..];
  }

  lemma LastAt(s: seq<Node>, i: nat, a: Node)
    requires NoRepeats(s) && i < |s| && |s| >= 2 && a in s && a != s[i]
    ensures
      var r := s[..i] + s[i + 1..];
      r[|r| - 1] == a <==> s[|s| - 1] == a || (s[|s| - 2] == a && i == |s| - 1)
  {
    var r := s[..i] + s[i + 1..];
    if i == |s| - 1 { assert r[|r| - 1] == s[|s| - 2]; } else { assert r[|r| - 1] == s[|s| - 1]; }
  }

  // ------------------------------------------------------------------------
  // Pointers that spell lists
  // ------------------------------------------------------------------------

  /** The pointers of the child at `i` are those of the list `s` of `n`. */
  predicate InPlace(h: Pointers, n: Node, s: seq<Node>, i: nat)
    requires i < |s|
  {
    s[i] in h && h[s[i]].parent == n && h[s[i]].prev == At(s, i - 1, null) && h[s[i]].next == At(s, i + 1, null)
  }

  /** The pointers of `n` and of its children spell out `s`. */
  predicate Spells(h: Pointers, n: Node, s: seq<Node>)
    requires n in h
  {
    && h[n].first == At(s, 0, null) && h[n].last == At(s, |s| - 1, null)
    && NoRepeats(s)
    && forall i: nat {:trigger InPlace(h, n, s, i)} :: i < |s| ==> InPlace(h, n, s, i)
  }

  /** Every live node's child list is well formed, and a node's parent lists it. */
  ghost predicate Linked(h: Pointers, kids: Lists) {
    && h.Keys == kids.Keys
    && (forall n :: n in h ==> Spells(h, n, kids[n]))
    && (forall n :: n in h && h[n].parent != null ==> h[n].parent in h && n in kids[h[n].parent])
    && (forall n :: n in h && h[n].parent == null ==> h[n].prev == h[n].next == null)
  }

  lemma OnParentsList(h: Pointers, kids: Lists, n: Node, x: Node)
    requires Linked(h, kids) && n in h && x in kids[n]
    ensures x in h && h[x].parent == n
  {
    var i: nat :| i < |kids[n]| && kids[n][i] == x;
    assert InPlace(h, n, kids[n], i);
  }

  /** A node is on one list, its parent's, and on that once; a node without a parent is on none. */
  lemma OnExactlyOneList(h: Pointers, kids: Lists, x: Node)
    requires Linked(h, kids) && x in h
    ensures forall n :: n in h ==> (x in kids[n] <==> h[x].parent == n)
    ensures forall n, i, j :: n in h && 0 <= i < |kids[n]| && 0 <= j < |kids[n]| && kids[n][i] == kids[n][j] == x ==> i == j
  {
    forall n | n in h && x in kids[n] ensures h[x].parent == n { OnParentsList(h, kids, n, x); }
  }

  // ------------------------------------------------------------------------
  // Cutting out and splicing in
  // ------------------------------------------------------------------------

  /** What Unlink leaves in the nodes: `x` leaves the children of `p`. */
  function Cut(h: Pointers, p: Node, x: Node): Pointers
    requires x in h
  {
    var (before, after) := (h[x].prev, h[x].next);
    map n | n in h ::
      Links(if n == x then null else h[n].parent,
            if n == x then null else if n == after then before else h[n].prev,
            if n == x then null else if n == before then after else h[n].next,
            if n == p && h[p].first == x then after else h[n].first,
            if n == p && h[p].last == x then before else h[n].last)
  }

  /** What an insertion leaves in the nodes: `x` becomes a child of `p`, between two neighbours. */
  function Splice(h: Pointers, p: Node, x: Node, before: Node?, after: Node?): Pointers {
    map n | n in h ::
      Links(if n == x then p else h[n].parent,
            if n == x then before else if n == after then x else h[n].prev,
            if n == x then after else if n == before then x else h[n].next,
            if n == p && before == null then x else h[n].first,
            if n == p && after == null then x else h[n].last)
  }

  lemma CutSpells(h: Pointers, p: Node, s: seq<Node>, i: nat)
    requires p in h && i < |s| && Spells(h, p, s) && s[i] in h
    ensures Spells(Cut(h, p, s[i]), p, s[..i] + s[i + 1..])
  {
    var x, g, t := s[i], Cut(h, p, s[i]), s[..i] + s[i + 1..];
    assert InPlace(h, p, s, i);
    forall k: nat | k < |t| ensures InPlace(g, p, t, k) {
      var j := if k < i then k else k + 1;
      assert t[k] == s[j] && InPlace(h, p, s, j);
    }
  }

  lemma SpliceSpells(h: Pointers, p: Node, s: seq<Node>, i: nat, x: Node)
    requires p in h && i <= |s| && Spells(h, p, s) && x in h && x !in s
    ensures Spells(Splice(h, p, x, At(s, i - 1, null), At(s, i, null)), p, Inserted(s, i, x))
  {
    var g, t := Splice(h, p, x, At(s, i - 1, null), At(s, i, null)), Inserted(s, i, x);
    InsertedKeeps(s, i, x);
    forall k: nat | k < |t| ensures InPlace(g, p, t, k) {
      if k != i {
        var j := if k < i then k else k - 1;
        assert t[k] == s[j] && InPlace(h, p, s, j);
      }
    }
  }

  lemma StillSpells(h: Pointers, g: Pointers, n: Node, s: seq<Node>)
    requires n in h && n in g && Spells(h, n, s)
    requires g[n].first == h[n].first && g[n].last == h[n].last
    requires forall x :: x in s && x in h ==>
      x in g && g[x].parent == h[x].parent && g[x].prev == h[x].prev && g[x].next == h[x].next
    ensures Spells(g, n, s)
  {
    forall i: nat | i < |s| ensures InPlace(g, n, s, i) { assert InPlace(h, n, s, i); }
  }

  /** Lists other than that of `p` stay when only `p` and its children, or nodes on no list, change. */
  lemma OthersStillSpell(h: Pointers, g: Pointers, kids: Lists, p: Node)
    requires Linked(h, kids) && p in h && g.Keys == h.Keys
    requires forall n :: n in h && n != p ==> g[n].first == h[n].first && g[n].last == h[n].last
    requires forall n :: n in h && h[n].parent != null && h[n].parent != p ==>
      g[n].parent == h[n].parent && g[n].prev == h[n].prev && g[n].next == h[n].next
    ensures forall n :: n in h && n != p ==> Spells(g, n, kids[n])
  {
    forall n | n in h && n != p ensures Spells(g, n, kids[n]) {
      forall x | x in kids[n] ensures x in h && h[x].parent == n { OnParentsList(h, kids, n, x); }
      StillSpells(h, g, n, kids[n]);
    }
  }

  lemma Neighbour(h: Pointers, kids: Lists, p: Node, i: int)
    requires Linked(h, kids) && p in h
    ensures var y := At(kids[p], i, null); y != null ==> y in h && h[y].parent == p
  {
    if 0 <= i < |kids[p]| { OnParentsList(h, kids, p, kids[p][i]); }
  }

  /** The parts of Linked when the list of one node changed. */
  lemma Assembled(g: Pointers, kids: Lists, p: Node, t: seq<Node>)
    requires g.Keys == kids.Keys && p in g && Spells(g, p, t)
    requires forall n :: n in g && n != p ==> Spells(g, n, kids[n])
    requires forall n :: n in g && g[n].parent != null ==> g[n].parent in g && n in kids[p := t][g[n].parent]
    requires forall n :: n in g && g[n].parent == null ==> g[n].prev == g[n].next == null
    ensures Linked(g, kids[p := t])
  {
  }

  lemma CutParents(h: Pointers, kids: Lists, p: Node, i: nat, t: seq<Node>)
    requires Linked(h, kids) && p in h && i < |kids[p]| && kids[p][i] in h
    requires forall y :: y in kids[p] && y != kids[p][i] ==> y in t
    ensures
      var g := Cut(h, p, kids[p][i]);
      && (forall n :: n in g && g[n].parent != null ==> g[n].parent in g && n in kids[p := t][g[n].parent])
      && (forall n :: n in g && g[n].parent == null ==> g[n].prev == g[n].next == null)
  {
    assert InPlace(h, p, kids[p], i);
    Neighbour(h, kids, p, i - 1);
    Neighbour(h, kids, p, i + 1);
  }

  lemma CutOthers(h: Pointers, kids: Lists, p: Node, i: nat)
    requires Linked(h, kids) && p in h && i < |kids[p]| && kids[p][i] in h
    ensures forall n :: n in h && n != p ==> Spells(Cut(h, p, kids[p][i]), n, kids[n])
  {
    assert InPlace(h, p, kids[p], i);
    Neighbour(h, kids, p, i - 1);
    Neighbour(h, kids, p, i + 1);
    OthersStillSpell(h, Cut(h, p, kids[p][i]), kids, p);
  }

  /** Unlink takes the child out of its parent's list and changes no other list. */
  lemma CutLinked(h: Pointers, kids: Lists, p: Node, x: Node)
    requires Linked(h, kids) && p in h && x in kids[p]
    ensures x in h && Linked(Cut(h, p, x), kids[p := Without(kids[p], x)]) && Cut(h, p, x)[x].parent == null
  {
    OnParentsList(h, kids, p, x);
    var i, t := IndexIn(kids[p], x), Without(kids[p], x);
    WithoutAt(kids[p], i);
    WithoutKeeps(kids[p], x);
    CutSpells(h, p, kids[p], i);
    CutOthers(h, kids, p, i);
    CutParents(h, kids, p, i, t);
    Assembled(Cut(h, p, x), kids, p, t);
  }

  lemma SpliceParents(h: Pointers, kids: Lists, p: Node, i: nat, x: Node, t: seq<Node>)
    requires Linked(h, kids) && p in h && i <= |kids[p]| && x in h && h[x].parent == null
    requires forall y :: y in kids[p] || y == x ==> y in t
    ensures
      var g := Splice(h, p, x, At(kids[p], i - 1, null), At(kids[p], i, null));
      && (forall n :: n in g && g[n].parent != null ==> g[n].parent in g && n in kids[p := t][g[n].parent])
      && (forall n :: n in g && g[n].parent == null ==> g[n].prev == g[n].next == null)
  {
    Neighbour(h, kids, p, i - 1);
    Neighbour(h, kids, p, i);
  }

  lemma SpliceOthers(h: Pointers, kids: Lists, p: Node, i: nat, x: Node)
    requires Linked(h, kids) && p in h && i <= |kids[p]| && x in h && h[x].parent == null
    ensures forall n :: n in h && n != p ==> Spells(Splice(h, p, x, At(kids[p], i - 1, null), At(kids[p], i, null)), n, kids[n])
  {
    Neighbour(h, kids, p, i - 1);
    Neighbour(h, kids, p, i);
    OthersStillSpell(h, Splice(h, p, x, At(kids[p], i - 1, null), At(kids[p], i, null)), kids, p);
  }

  /** An insertion puts the node into its new parent's list and changes no other list. */
  lemma SpliceLinked(h: Pointers, kids: Lists, p: Node, i: nat, x: Node)
    requires Linked(h, kids) && p in h && i <= |kids[p]| && x in h && h[x].parent == null
    ensures Linked(Splice(h, p, x, At(kids[p], i - 1, null), At(kids[p], i, null)), kids[p := Inserted(kids[p], i, x)])
  {
    var s, t := kids[p], Inserted(kids[p], i, x);
    OnExactlyOneList(h, kids, x);
    InsertedKeeps(s, i, x);
    SpliceSpells(h, p, s, i, x);
    SpliceOthers(h, kids, p, i, x);
    SpliceParents(h, kids, p, i, x, t);
    Assembled(Splice(h, p, x, At(s, i - 1, null), At(s, i, null)), kids, p, t);
  }
}
