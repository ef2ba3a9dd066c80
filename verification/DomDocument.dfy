/**
 The document's nodes in memory: insertion, removal and deletion on the child lists, and the list
 of nodes that have no parent yet (compat/tinyxml2-v34/tinyxml2.cpp, tinyxml2.h).
 */
module DomDocument {
  import opened Common
  import opened DomLists

  /**
   A live node without a parent is listed in `unlinked`, once, or it is loose: the document
   itself, and during a call the nodes being moved or deleted.
   */
  ghost predicate Roster(h: Pointers, unlinked: seq<Node>, loose: set<Node>) {
    && NoRepeats(unlinked)
    && (forall n :: n in unlinked ==> n in h && h[n].parent == null)
    && (forall n :: n in loose ==> n in h && h[n].parent == null)
    && (forall n :: n in h && h[n].parent == null ==> (n in unlinked <==> n !in loose))
  }

  /** The nodes that are on some child list. */
  function Children(h: Pointers): set<Node> {
    set n | n in h && h[n].parent != null
  }

  /** The child lists once `x` left that of its parent, if it had one. */
  function Detached(kids: Lists, parent: Node?, x: Node): Lists {
    if parent != null && parent in kids then kids[parent := Without(kids[parent], x)] else kids
  }

  /** No node is below itself: ranks fall from parent to child. */
  ghost predicate Ranked(kids: Lists, rank: map<Node, int>) {
    && kids.Keys <= rank.Keys
    && forall n, c :: n in kids && c in kids[n] && c in kids ==> rank[c] < rank[n]
  }

  /** `gone` is `x` and everything below it. */
  ghost predicate IsSubtree(kids: Lists, x: Node, gone: set<Node>) {
    && x in gone && gone <= kids.Keys
    && (forall n, c :: n in gone && c in kids[n] ==> c in gone)
    && (forall c :: c in gone && c != x ==> exists n :: n in gone && c in kids[n])
  }

  /** Whether `p` is `x` or below it. */
  ghost predicate IsBelow(kids: Lists, x: Node, p: Node) {
    exists below: set<Node> :: below <= kids.Keys && IsSubtree(kids, x, below) && p in below
  }

  function Minus(kids: Lists, gone: set<Node>): Lists {
    map n | n in kids && n !in gone :: kids[n]
  }

  ghost function Snapshot(live: set<Node>): (h: Pointers)
    reads live
    ensures h.Keys == live
  {
    map n | n in live :: Links(n.parent, n.prev, n.next, n.first, n.last)
  }

  method CutEnds(p: Node, child: Node)
    modifies p`first, p`last
    ensures p.first == if old(p.first) == child then old(child.next) else old(p.first)
    ensures p.last == if old(p.last) == child then old(child.prev) else old(p.last)
  {
    if child == p.first { p.first := p.first.next; }
    if child == p.last { p.last := p.last.prev; }
  }

  method CutSides(child: Node, ghost live: set<Node>)
    requires child in live && child != child.prev && child != child.next
    requires child.prev != null ==> child.prev in live && child.prev != child.next
    requires child.next != null ==> child.next in live
    modifies live`prev, live`next, child`parent
    ensures child.parent == child.prev == child.next == null
    ensures forall n :: n in live && n != child ==>
      && n.prev == (if n == old(child.next) then old(child.prev) else old(n.prev))
      && n.next == (if n == old(child.prev) then old(child.next) else old(n.next))
  {
    if child.prev != null { child.prev.next := child.next; }
    if child.next != null { child.next.prev := child.prev; }
    child.next, child.prev, child.parent := null, null, null;
  }

  /** The pointer updates that take `child` out of the list of `p`. */
  method CutOut(p: Node, child: Node, ghost live: set<Node>)
    requires p in live && child in live && child != child.prev && child != child.next
    requires child.prev != null ==> child.prev in live && child.prev != child.next
    requires child.next != null ==> child.next in live
    modifies live
    ensures Snapshot(live) == Cut(old(Snapshot(live)), p, child)
  {
    CutEnds(p, child);
    CutSides(child, live);
  }

  /** The pointer updates that make `x` the last child of `p`. */
  method LinkLast(p: Node, x: Node, ghost live: set<Node>)
    requires p in live && x in live && (p.last != null ==> p.last in live && p.last != x)
    requires p.last == null ==> p.first == null
    modifies live
    ensures Snapshot(live) == Splice(old(Snapshot(live)), p, x, old(p.last), null)
  {
    if p.last != null {
      p.last.next := x;
      x.prev := p.last;
      p.last := x;
      x.next := null;
    } else {
      p.first, p.last := x, x;
      x.prev, x.next := null, null;
    }
    x.parent := p;
  }

  /** The pointer updates that make `x` the first child of `p`. */
  method LinkFirst(p: Node, x: Node, ghost live: set<Node>)
    requires p in live && x in live && (p.first != null ==> p.first in live && p.first != x)
    requires p.first == null ==> p.last == null
    modifies live
    ensures Snapshot(live) == Splice(old(Snapshot(live)), p, x, null, old(p.first))
  {
    if p.first != null {
      p.first.prev := x;
      x.next := p.first;
      p.first := x;
      x.prev := null;
    } else {
      p.first, p.last := x, x;
      x.prev, x.next := null, null;
    }
    x.parent := p;
  }

  /** The pointer updates that put `x` between `after` and the child behind it. */
  method LinkAfter(p: Node, after: Node, x: Node, ghost live: set<Node>)
    requires p in live && x in live && after in live && after != x
    requires after.next != null && after.next in live && after.next != x && after.next != after
    modifies live
    ensures Snapshot(live) == Splice(old(Snapshot(live)), p, x, after, old(after.next))
  {
    x.prev := after;
    x.next := after.next;
    after.next.prev := x;
    after.next := x;
    x.parent := p;
  }

  /** Whether `after` would have no next sibling left once `x` is unlinked. */
  predicate LeavesNoNext(h: Pointers, after: Node, x: Node)
    requires after in h && x in h
  {
    h[after].next == x && h[x].next == null
  }

  /** The child lists when the first `j` children of `x`, and what is below them, are gone. */
  function Left(kids: Lists, x: Node, j: nat, gone: set<Node>): Lists
    requires x in kids && j <= |kids[x]|
  {
    Minus(kids[x := kids[x][j..]], gone)
  }

  /** `gone` is the first `j` children of `x` and everything below them. */
  ghost predicate Partly(kids: Lists, x: Node, j: nat, gone: set<Node>, rank: map<Node, int>)
    requires x in kids && j <= |kids[x]|
  {
    && Ranked(kids, rank) && gone <= kids.Keys
    && (forall c :: c in kids[x][..j] ==> c in gone)
    && (forall n, c :: n in gone && c in kids[n] ==> c in gone)
    && (forall c :: c in gone ==> c in kids[x][..j] || exists n :: n in gone && c in kids[n])
    && (forall n :: n in gone ==> rank[n] < rank[x])
  }

  class Document {
    var unlinked: seq<Node>
    // The child list of every live node.
    ghost var kids: Lists
    // Ranks that show that no node is below itself, as long as none is.
    ghost var rank: map<Node, int>

    /** No node is below itself. Insertions do not check that; everything else keeps it. */
    ghost predicate IsForest()
      reads this`kids, this`rank
    {
      Ranked(kids, rank)
    }

    ghost function View(): (h: Pointers)
      reads this`kids, kids.Keys
      ensures h.Keys == kids.Keys
    {
      Snapshot(kids.Keys)
    }

    ghost predicate Valid(loose: set<Node>)
      reads this`kids, this`unlinked, kids.Keys
    {
      Linked(View(), kids) && Roster(View(), unlinked, loose)
    }

    constructor (root: Node)
      requires root.parent == root.prev == root.next == root.first == root.last == null
      ensures Valid({root}) && IsForest() && kids == map[root := []] && unlinked == []
    {
      unlinked, kids, rank := [], map[root := []], map[root := 0];
    }

    method CreateUnlinkedNode(ghost loose: set<Node>) returns (node: Node)
      requires Valid(loose)
      modifies this
      ensures Valid(loose) && fresh(node) && (old(IsForest()) ==> IsForest())
      ensures kids == old(kids)[node := []] && unlinked == old(unlinked) + [node]
    {
      node := new Node();
      CreatedRanked(View(), kids, rank, node);
      CreatedLinked(View(), kids, node);
      CreatedRoster(View(), unlinked, loose, node);
      ghost var h := View()[node := Links(null, null, null, null, null)];
      unlinked, kids, rank := unlinked + [node], kids[node := []], rank[node := 0];
      assert View() == h;
      BecomesValid(h, kids, loose);
    }

    /** Drops the node from the unlinked list, filling its place with the last entry. */
    method MarkInUse(node: Node, ghost loose: set<Node>)
      requires Valid(loose) && node in kids && node.parent == null
      modifies this`unlinked
      ensures Valid(loose + {node}) && rank == old(rank)
      ensures forall n :: n in unlinked <==> n in old(unlinked) && n != node
      ensures node !in old(unlinked) ==> unlinked == old(unlinked)
    {
      var i := 0;
      while i < |unlinked|
        invariant 0 <= i <= |unlinked| && unlinked == old(unlinked)
        invariant node !in unlinked[..i]
      {
        if node == unlinked[i] {
          SwapRemoved(unlinked, i);
          unlinked := unlinked[i := unlinked[|unlinked| - 1]][..|unlinked| - 1];
          break;
        }
        i := i + 1;
      }
    }

    ghost method SetRank(r: map<Node, int>, loose: set<Node>)
      requires Valid(loose)
      modifies this`rank
      ensures Valid(loose) && rank == r
    {
      rank := r;
    }

    lemma BecomesValid(h: Pointers, k: Lists, loose: set<Node>)
      requires View() == h && kids == k
      ensures Linked(h, k) && Roster(h, unlinked, loose) ==> Valid(loose)
    {
    }

    method WriteCut(p: Node, child: Node, ghost k: Lists)
      requires p in kids && child in kids && k.Keys == kids.Keys && child != child.prev && child != child.next
      requires child.prev != null ==> child.prev in kids && child.prev != child.next
      requires child.next != null ==> child.next in kids
      modifies this`kids, kids.Keys
      ensures kids == k && View() == Cut(old(View()), p, child) && rank == old(rank)
    {
      ghost var live := kids.Keys;
      CutOut(p, child, live);
      kids := k;
      assert View() == Snapshot(live);
    }

    method Unlink(p: Node, child: Node, ghost loose: set<Node>)
      requires Valid(loose) && p in kids && child in kids && child in kids[p]
      modifies this`kids, kids.Keys
      ensures Valid(loose + {child}) && View() == Cut(old(View()), p, child) && rank == old(rank)
      ensures kids == old(kids)[p := Without(old(kids)[p], child)]
    {
      ghost var h, k := Unlinked(View(), kids, p, child, unlinked, loose);
      WriteCut(p, child, k);
      BecomesValid(h, k, loose + {child});
    }

    /** Takes a node away from where it is, before it is inserted elsewhere. */
    method InsertChildPreamble(x: Node, ghost loose: set<Node>)
      requires Valid(loose) && x in kids && x !in loose
      modifies this, kids.Keys
      ensures Valid(loose + {x}) && x in kids && rank == old(rank)
      ensures kids == Detached(old(kids), old(x.parent), x)
      ensures forall n :: n in unlinked <==> n in old(unlinked) && n != x
    {
      if x.parent != null {
        IsListed(View(), kids, unlinked, loose, x);
        Unlink(x.parent, x, loose);
      } else {
        MarkInUse(x, loose);
      }
    }

    method WriteLast(p: Node, x: Node, ghost k: Lists)
      requires p in kids && x in kids && k.Keys == kids.Keys
      requires if p.last != null then p.last in kids && p.last != x else p.first == null
      modifies this`kids, kids.Keys
      ensures kids == k && View() == Splice(old(View()), p, x, old(p.last), null)
    {
      ghost var live := kids.Keys;
      LinkLast(p, x, live);
      kids := k;
      assert View() == Snapshot(live);
    }

    method WriteFirst(p: Node, x: Node, ghost k: Lists)
      requires p in kids && x in kids && k.Keys == kids.Keys
      requires if p.first != null then p.first in kids && p.first != x else p.last == null
      modifies this`kids, kids.Keys
      ensures kids == k && View() == Splice(old(View()), p, x, null, old(p.first))
    {
      ghost var live := kids.Keys;
      LinkFirst(p, x, live);
      kids := k;
      assert View() == Snapshot(live);
    }

    method Append(p: Node, x: Node, ghost loose: set<Node>)
      requires Valid(loose + {x}) && p in kids && x in kids && x !in loose
      modifies this`kids, kids.Keys
      ensures Valid(loose) && kids == old(kids)[p := old(kids)[p] + [x]]
    {
      ghost var h, k := SplicedLast(View(), kids, p, x, unlinked, loose);
      WriteLast(p, x, k);
      BecomesValid(h, k, loose);
    }

    method Prepend(p: Node, x: Node, ghost loose: set<Node>)
      requires Valid(loose + {x}) && p in kids && x in kids && x !in loose
      modifies this`kids, kids.Keys
      ensures Valid(loose) && kids == old(kids)[p := [x] + old(kids)[p]]
    {
      ghost var h, k := SplicedFirst(View(), kids, p, x, unlinked, loose);
      WriteFirst(p, x, k);
      BecomesValid(h, k, loose);
    }

    method InsertEndChild(p: Node, x: Node, ghost loose: set<Node>)
      requires Valid(loose) && p in kids && x in kids && x !in loose
      modifies this, kids.Keys
      ensures Valid(loose)
      ensures var k := Detached(old(kids), old(x.parent), x); kids == k[p := k[p] + [x]]
      ensures forall n :: n in unlinked <==> n in old(unlinked) && n != x
      ensures old(IsForest()) && !IsBelow(old(kids), x, p) ==> IsForest()
    {
      ghost var k := DetachedLists(View(), kids, p, x);
      ghost var r := RanksAfterMove(View(), kids, rank, p, x, |k[p]|);
      InsertChildPreamble(x, loose);
      Append(p, x, loose);
      AtTheEnds(k[p], x);
      SetRank(r, loose);
    }

    method InsertFirstChild(p: Node, x: Node, ghost loose: set<Node>)
      requires Valid(loose) && p in kids && x in kids && x !in loose
      modifies this, kids.Keys
      ensures Valid(loose)
      ensures var k := Detached(old(kids), old(x.parent), x); kids == k[p := [x] + k[p]]
      ensures forall n :: n in unlinked <==> n in old(unlinked) && n != x
      ensures old(IsForest()) && !IsBelow(old(kids), x, p) ==> IsForest()
    {
      ghost var k := DetachedLists(View(), kids, p, x);
      ghost var r := RanksAfterMove(View(), kids, rank, p, x, 0);
      InsertChildPreamble(x, loose);
      Prepend(p, x, loose);
      AtTheEnds(k[p], x);
      SetRank(r, loose);
    }

    method WriteAfter(p: Node, after: Node, x: Node, ghost k: Lists)
      requires p in kids && x in kids && after in kids && after != x && k.Keys == kids.Keys
      requires after.next != null && after.next in kids && after.next != x && after.next != after
      modifies this`kids, kids.Keys
      ensures kids == k && View() == Splice(old(View()), p, x, after, old(after.next))
    {
      ghost var live := kids.Keys;
      LinkAfter(p, after, x, live);
      kids := k;
      assert View() == Snapshot(live);
    }

    method PutAfter(p: Node, after: Node, x: Node, ghost loose: set<Node>)
      requires Valid(loose + {x}) && p in kids && x in kids && x !in loose
      requires after in kids && after in kids[p] && kids[p][|kids[p]| - 1] != after
      modifies this`kids, kids.Keys
      ensures Valid(loose) && kids == old(kids)[p := InsertedAfter(old(kids)[p], after, x)]
    {
      HasNext(View(), kids, p, after);
      ghost var h, k := SplicedAfter(View(), kids, p, after, x, unlinked, loose);
      WriteAfter(p, after, x, k);
      BecomesValid(h, k, loose);
    }

    method MoveAfter(p: Node, after: Node, x: Node, ghost k: Lists, ghost loose: set<Node>)
      requires Valid(loose) && p in kids && after in kids && x in kids && x !in loose && after != x
      requires k == Detached(kids, x.parent, x) && p in k && after in k[p] && k[p][|k[p]| - 1] != after
      modifies this, kids.Keys
      ensures Valid(loose) && rank == old(rank) && forall n :: n in unlinked <==> n in old(unlinked) && n != x
      ensures kids == k[p := InsertedAfter(k[p], after, x)]
    {
      InsertChildPreamble(x, loose);
      PutAfter(p, after, x, loose);
    }

    /**
     Inserts `x` behind `after`. If `x` is the only child behind `after`, the source would follow
     a null pointer; every other case, moving a node within its own parent included, works.
     */
    method InsertAfterChild(p: Node, after: Node, x: Node, ghost loose: set<Node>) returns (inserted: bool)
      requires Valid(loose) && p in kids && after in kids && x in kids && x !in loose
      requires after.parent == p ==> !LeavesNoNext(View(), after, x)
      modifies this, kids.Keys
      ensures Valid(loose) && inserted == (old(after.parent) == p)
      ensures !inserted || after == x ==> kids == old(kids) && unlinked == old(unlinked) && rank == old(rank)
      ensures old(IsForest()) && !IsBelow(old(kids), x, p) ==> IsForest()
      ensures inserted && after != x ==>
        && (forall n :: n in unlinked <==> n in old(unlinked) && n != x)
        && var k := Detached(old(kids), old(x.parent), x);
           after in k[p] && kids == k[p := InsertedAfter(k[p], after, x)]
    {
      if after.parent != p { return false; }
      if after == x { return true; }
      ghost var k := PlaceAfter(View(), kids, p, after, x);
      if after.next == null {
        InsertEndChild(p, x, loose);
        return true;
      }
      ghost var r := RanksAfterMove(View(), kids, rank, p, x, IndexIn(k[p], after) + 1);
      MoveAfter(p, after, x, k, loose);
      SetRank(r, loose);
      return true;
    }

    /** Returns the memory of a node that has neither parent nor children left. */
    ghost method Free(x: Node, loose: set<Node>)
      requires Valid(loose) && x in loose && kids[x] == []
      modifies this`kids
      ensures Valid(loose - {x}) && kids == Minus(old(kids), {x}) && View() == old(View()) - {x}
    {
      FreedLinked(View(), kids, x);
      FreedRoster(View(), unlinked, loose, x);
      kids := Minus(kids, {x});
      assert View() == old(View()) - {x};
      BecomesValid(old(View()) - {x}, kids, loose - {x});
    }

    /** Deletes a child and everything below it. */
    method DeleteChild(p: Node, x: Node, ghost loose: set<Node>) returns (ghost gone: set<Node>)
      requires Valid(loose) && IsForest() && p in kids && x in kids && x in kids[p]
      modifies this, kids.Keys
      ensures Valid(loose) && unlinked == old(unlinked)
      ensures IsSubtree(old(kids), x, gone) && p !in gone
      ensures kids == Minus(old(kids)[p := Without(old(kids)[p], x)], gone)
      ensures Children(View()) < old(Children(View()))
      ensures IsForest() && rank == old(rank) && forall n :: n in gone ==> rank[n] <= rank[x]
      decreases |Children(View())|, 0
    {
      OnParentsList(View(), kids, p, x);
      assert loose + {x} - {x} == loose;
      Unlink(p, x, loose);
      CutChildren(old(View()), old(kids), p, x);
      CutRanked(old(View()), old(kids), p, x, rank);
      gone := DeleteNode(x, loose + {x});
      SubtreeOfCut(old(kids), p, x, gone, rank);
    }

    method DeleteChildren(x: Node, ghost loose: set<Node>) returns (ghost gone: set<Node>)
      requires Valid(loose) && IsForest() && x in kids
      modifies this, kids.Keys
      ensures Valid(loose) && unlinked == old(unlinked) && x in kids && kids[x] == []
      ensures IsSubtree(old(kids), x, gone + {x}) && x !in gone
      ensures kids == Minus(old(kids)[x := []], gone)
      ensures Children(View()) <= old(Children(View()))
      ensures IsForest() && rank == old(rank) && forall n :: n in gone ==> rank[n] < rank[x]
      decreases |Children(View())|, 1
    {
      gone := {};
      ghost var k, j := kids, 0;
      while x.first != null
        invariant Valid(loose) && unlinked == old(unlinked) && rank == old(rank) && x in kids
        invariant 0 <= j <= |k[x]| && Partly(k, x, j, gone, rank) && kids == Left(k, x, j, gone)
        invariant Children(View()) <= old(Children(View()))
        decreases |Children(View())|
      {
        FirstOfLeft(View(), k, x, j, gone, rank);
        SubsetSize(Children(View()), old(Children(View())));
        ghost var children := Children(View());
        ghost var below := DeleteChild(x, x.first, loose);
        SubsetSize(Children(View()), children);
        PartlyStep(k, x, j, gone, below, rank);
        gone, j := gone + below, j + 1;
      }
      PartlyAll(View(), k, x, j, gone, rank);
      RankedMinus(k, x, gone, rank);
    }

    /** Destroys a node that is on no list: its children first, then itself. */
    method Destroy(x: Node, ghost loose: set<Node>) returns (ghost gone: set<Node>)
      requires Valid(loose) && IsForest() && x in loose
      modifies this, kids.Keys
      ensures Valid(loose - {x}) && unlinked == old(unlinked)
      ensures IsSubtree(old(kids), x, gone) && kids == Minus(old(kids), gone)
      ensures Children(View()) <= old(Children(View()))
      ensures IsForest() && rank == old(rank) && forall n :: n in gone ==> rank[n] <= rank[x]
      decreases |Children(View())|, 2
    {
      gone := DeleteChildren(x, loose);
      Free(x, loose);
      MinusTwice(old(kids), x, gone, rank);
      gone := gone + {x};
    }

    method DeleteNode(x: Node, ghost loose: set<Node>) returns (ghost gone: set<Node>)
      requires Valid(loose) && IsForest() && x in kids && x.parent == null
      modifies this, kids.Keys
      ensures Valid(loose - {x})
      ensures forall n :: n in unlinked <==> n in old(unlinked) && n != x
      ensures x !in old(unlinked) ==> unlinked == old(unlinked)
      ensures IsSubtree(old(kids), x, gone) && kids == Minus(old(kids), gone)
      ensures Children(View()) <= old(Children(View()))
      ensures IsForest() && rank == old(rank) && forall n :: n in gone ==> rank[n] <= rank[x]
      decreases |Children(View())|, 3
    {
      assert loose + {x} - {x} == loose - {x};
      MarkInUse(x, loose);
      gone := Destroy(x, loose + {x});
    }

    /** Deletes every node but the document itself. */
    method Clear(root: Node)
      requires Valid({root}) && root in kids && IsForest()
      modifies this, kids.Keys
      ensures Valid({root}) && IsForest() && unlinked == [] && kids == map[root := []]
    {
      ghost var gone := DeleteChildren(root, {root});
      while |unlinked| > 0
        invariant Valid({root}) && root in kids && kids[root] == [] && IsForest() && rank == old(rank)
        invariant kids.Keys <= old(kids.Keys)
        decreases kids.Keys
      {
        ghost var before := kids;
        FirstIsNotRoot(View(), unlinked, root);
        RootIsOnNoList(View(), kids, root);
        gone := DeleteNode(unlinked[0], {root});
        RootSurvives(before, root, gone, rank);
      }
      OnlyRootIsLeft(View(), kids, root, rank);
    }
  }

  lemma SplicedAfter(h: Pointers, kids: Lists, p: Node, a: Node, x: Node, unlinked: seq<Node>, loose: set<Node>)
    returns (g: Pointers, k: Lists)
    requires Linked(h, kids) && Roster(h, unlinked, loose + {x}) && p in h && x in h && x !in loose
    requires a in kids[p] && a in h && h[a].next != null
    ensures Linked(g, k) && Roster(g, unlinked, loose)
    ensures g == Splice(h, p, x, a, h[a].next) && k == kids[p := InsertedAfter(kids[p], a, x)]
    ensures a != x && h[a].next in h && h[a].next != x && h[a].next != a
  {
    var i := IndexIn(kids[p], a);
    assert InPlace(h, p, kids[p], i);
    g, k := Spliced(h, kids, p, i + 1, x, unlinked, loose);
  }

  /** Where a child stands in its parent's list, with and without another node. */
  lemma NextInList(h: Pointers, kids: Lists, p: Node, a: Node)
    requires Linked(h, kids) && p in h && a in kids[p]
    ensures a in h && (h[a].next == null <==> kids[p][|kids[p]| - 1] == a)
    ensures h[a].next != null ==> a in kids[p][..|kids[p]| - 1] && h[a].next in kids[p]
    ensures |kids[p]| >= 2 && kids[p][|kids[p]| - 2] == a ==> h[a].next == kids[p][|kids[p]| - 1]
  {
    var i := IndexIn(kids[p], a);
    assert InPlace(h, p, kids[p], i);
  }

  lemma NextWithout(h: Pointers, kids: Lists, p: Node, a: Node, x: Node)
    requires Linked(h, kids) && a in h && x in h && a != x && p in h && h[a].parent == p
    ensures a in kids[p]
    ensures
      var k := Detached(kids, h[x].parent, x);
      && k.Keys == kids.Keys && a in k[p]
      && (k[p][|k[p]| - 1] == a <==> h[a].next == null || LeavesNoNext(h, a, x))
  {
    OnExactlyOneList(h, kids, a);
    DetachedIs(h, kids, p, x);
    BehindWithout(h, kids, p, a, x);
  }

  lemma DetachedIs(h: Pointers, kids: Lists, p: Node, x: Node)
    requires Linked(h, kids) && x in h && p in h
    ensures var k := Detached(kids, h[x].parent, x); k.Keys == kids.Keys && k[p] == Without(kids[p], x)
  {
    OnExactlyOneList(h, kids, x);
  }

  lemma BehindWithout(h: Pointers, kids: Lists, p: Node, a: Node, x: Node)
    requires Linked(h, kids) && p in h && a in kids[p] && a in h && x in h && a != x
    ensures
      var r := Without(kids[p], x);
      a in r && (r[|r| - 1] == a <==> h[a].next == null || LeavesNoNext(h, a, x))
  {
    assert NoRepeats(kids[p]);
    LastWithout(kids[p], a, x);
    NextInList(h, kids, p, a);
    if x in kids[p] { OnlyBehind(h, kids, p, a, x); }
  }

  /** `x` is all there is behind `a` exactly if the two end the list. */
  lemma OnlyBehind(h: Pointers, kids: Lists, p: Node, a: Node, x: Node)
    requires Linked(h, kids) && p in h && a in kids[p] && x in kids[p] && a != x
    ensures
      var s := kids[p];
      a in h && x in h && (LeavesNoNext(h, a, x) <==> |s| >= 2 && s[|s| - 2] == a && s[|s| - 1] == x)
  {
    NextInList(h, kids, p, x);
    NextInList(h, kids, p, a);
    assert InPlace(h, p, kids[p], IndexIn(kids[p], a));
  }

  lemma Neighbours(h: Pointers, kids: Lists, a: Node, x: Node)
    requires Linked(h, kids) && a in h && x in h
    ensures h[x].prev == a <==> h[a].next == x
  {
    if h[x].parent != null { NeighboursOf(h, kids, h[x].parent, IndexIn(kids[h[x].parent], x)); }
    if h[a].parent != null { NeighboursOf(h, kids, h[a].parent, IndexIn(kids[h[a].parent], a)); }
  }

  /** The two children beside the one at `i` point back at it. */
  lemma NeighboursOf(h: Pointers, kids: Lists, p: Node, i: nat)
    requires Linked(h, kids) && p in h && i < |kids[p]|
    ensures var x := kids[p][i];
      && x in h
      && (h[x].prev != null ==> h[x].prev in h && h[h[x].prev].next == x)
      && (h[x].next != null ==> h[x].next in h && h[h[x].next].prev == x)
  {
    assert InPlace(h, p, kids[p], i);
    if i > 0 { assert InPlace(h, p, kids[p], i - 1); }
    if i + 1 < |kids[p]| { assert InPlace(h, p, kids[p], i + 1); }
  }

  /** The pointers once `x` left the list of its parent, if it had one. */
  function DetachedPointers(h: Pointers, x: Node): Pointers
    requires x in h
  {
    if h[x].parent != null then Cut(h, h[x].parent, x) else h
  }

  /**
   The pointer InsertAfterChild follows after it unlinked `x`: it was not null before, and is null
   then exactly if `x` was all that followed `after`.
   */
  lemma NextAfterUnlink(h: Pointers, kids: Lists, after: Node, x: Node)
    requires Linked(h, kids) && after in h && x in h && after != x && h[after].next != null
    ensures DetachedPointers(h, x)[after].next == null <==> LeavesNoNext(h, after, x)
  {
    Neighbours(h, kids, after, x);
  }

  lemma WithoutNoRepeats(h: Pointers, kids: Lists, p: Node, x: Node)
    requires Linked(h, kids) && p in h && x in h
    ensures var k := Detached(kids, h[x].parent, x); p in k && NoRepeats(k[p])
  {
    WithoutKeeps(kids[p], x);
  }

  lemma AfterLast(s: seq<Node>, a: Node, x: Node)
    requires NoRepeats(s) && a in s
    ensures s[|s| - 1] == a ==> InsertedAfter(s, a, x) == s + [x]
  {
  }

  /** The list an insertion behind `a` starts from, and when it is an insertion at the end. */
  lemma PlaceAfter(h: Pointers, kids: Lists, p: Node, a: Node, x: Node) returns (k: Lists)
    requires Linked(h, kids) && a in h && x in h && a != x && p in h && h[a].parent == p
    ensures k == Detached(kids, h[x].parent, x) && p in k && a in k[p]
    ensures h[a].next == null ==> InsertedAfter(k[p], a, x) == k[p] + [x]
    ensures h[a].next != null && !LeavesNoNext(h, a, x) ==> k[p][|k[p]| - 1] != a
  {
    NextWithout(h, kids, p, a, x);
    WithoutNoRepeats(h, kids, p, x);
    k := Detached(kids, h[x].parent, x);
    AfterLast(k[p], a, x);
  }

  lemma MinusTwice(kids: Lists, x: Node, gone: set<Node>, rank: map<Node, int>)
    requires x in kids && Ranked(kids, rank) && forall n :: n in gone ==> n in rank && rank[n] < rank[x]
    ensures Minus(Minus(kids[x := []], gone), {x}) == Minus(kids, gone + {x})
    ensures Ranked(Minus(kids, gone + {x}), rank) && forall n :: n in gone + {x} ==> n in rank && rank[n] <= rank[x]
  {
  }

  lemma HasNext(h: Pointers, kids: Lists, p: Node, a: Node)
    requires Linked(h, kids) && p in h && a in kids[p] && kids[p][|kids[p]| - 1] != a
    ensures a in h && h[a].next != null
  {
    assert InPlace(h, p, kids[p], IndexIn(kids[p], a));
  }

  lemma Spliced(h: Pointers, kids: Lists, p: Node, i: nat, x: Node, unlinked: seq<Node>, loose: set<Node>)
    returns (g: Pointers, k: Lists)
    requires Linked(h, kids) && Roster(h, unlinked, loose + {x}) && p in h && x in h && x !in loose && i <= |kids[p]|
    ensures Linked(g, k) && Roster(g, unlinked, loose)
    ensures k == kids[p := Inserted(kids[p], i, x)]
    ensures g == Splice(h, p, x, At(kids[p], i - 1, null), At(kids[p], i, null))
    ensures h[p].first == At(kids[p], 0, null) && h[p].last == At(kids[p], |kids[p]| - 1, null)
    ensures var before := At(kids[p], i - 1, null); before != null ==> before in h && before != x
    ensures var after := At(kids[p], i, null); after != null ==> after in h && after != x
  {
    SpliceLinked(h, kids, p, i, x);
    WritesForSplice(h, kids, p, i, x);
    SpliceRoster(h, p, x, At(kids[p], i - 1, null), At(kids[p], i, null), unlinked, loose);
    g, k := Splice(h, p, x, At(kids[p], i - 1, null), At(kids[p], i, null)), kids[p := Inserted(kids[p], i, x)];
  }

  lemma Unlinked(h: Pointers, kids: Lists, p: Node, x: Node, unlinked: seq<Node>, loose: set<Node>)
    returns (g: Pointers, k: Lists)
    requires Linked(h, kids) && Roster(h, unlinked, loose) && p in h && x in h && x in kids[p]
    ensures Linked(g, k) && Roster(g, unlinked, loose + {x})
    ensures g == Cut(h, p, x) && k == kids[p := Without(kids[p], x)]
    ensures x != h[x].prev && x != h[x].next
    ensures h[x].prev != null ==> h[x].prev in h && h[x].prev != h[x].next
    ensures h[x].next != null ==> h[x].next in h
  {
    CutLinked(h, kids, p, x);
    WritesForCut(h, kids, p, x);
    OnParentsList(h, kids, p, x);
    CutRoster(h, p, x, unlinked, loose);
    g, k := Cut(h, p, x), kids[p := Without(kids[p], x)];
  }

  lemma SplicedLast(h: Pointers, kids: Lists, p: Node, x: Node, unlinked: seq<Node>, loose: set<Node>)
    returns (g: Pointers, k: Lists)
    requires Linked(h, kids) && Roster(h, unlinked, loose + {x}) && p in h && x in h && x !in loose
    ensures Linked(g, k) && Roster(g, unlinked, loose)
    ensures g == Splice(h, p, x, h[p].last, null) && k == kids[p := kids[p] + [x]]
    ensures if h[p].last != null then h[p].last in h && h[p].last != x else h[p].first == null
  {
    AtTheEnds(kids[p], x);
    g, k := Spliced(h, kids, p, |kids[p]|, x, unlinked, loose);
  }

  lemma SplicedFirst(h: Pointers, kids: Lists, p: Node, x: Node, unlinked: seq<Node>, loose: set<Node>)
    returns (g: Pointers, k: Lists)
    requires Linked(h, kids) && Roster(h, unlinked, loose + {x}) && p in h && x in h && x !in loose
    ensures Linked(g, k) && Roster(g, unlinked, loose)
    ensures g == Splice(h, p, x, null, h[p].first) && k == kids[p := [x] + kids[p]]
    ensures if h[p].first != null then h[p].first in h && h[p].first != x else h[p].last == null
  {
    AtTheEnds(kids[p], x);
    g, k := Spliced(h, kids, p, 0, x, unlinked, loose);
  }

  lemma FreedLinked(h: Pointers, kids: Lists, x: Node)
    requires Linked(h, kids) && x in h && h[x].parent == null && kids[x] == []
    ensures Linked(h - {x}, Minus(kids, {x}))
  {
    OnExactlyOneList(h, kids, x);
    forall n | n in h && n != x ensures Spells(h - {x}, n, kids[n]) {
      StillSpells(h, h - {x}, n, kids[n]);
    }
  }

  lemma CutChildren(h: Pointers, kids: Lists, p: Node, x: Node)
    requires Linked(h, kids) && p in h && x in h && x in kids[p]
    ensures Children(Cut(h, p, x)) == Children(h) - {x} && x in Children(h)
    ensures |Children(Cut(h, p, x))| < |Children(h)|
  {
    OnParentsList(h, kids, p, x);
  }

  lemma CutRanked(h: Pointers, kids: Lists, p: Node, x: Node, rank: map<Node, int>)
    requires Linked(h, kids) && p in h && x in kids[p] && Ranked(kids, rank)
    ensures Ranked(kids[p := Without(kids[p], x)], rank)
  {
    WithoutKeeps(kids[p], x);
  }

  lemma SubtreeOfCut(kids: Lists, p: Node, x: Node, gone: set<Node>, rank: map<Node, int>)
    requires p in kids && x in kids && x in kids[p] && Ranked(kids, rank)
    requires IsSubtree(kids[p := Without(kids[p], x)], x, gone) && forall n :: n in gone ==> n in rank && rank[n] <= rank[x]
    ensures p !in gone && IsSubtree(kids, x, gone)
  {
    forall c | c in gone && c != x ensures exists n :: n in gone && c in kids[n] {
      var n: Node :| n in gone && c in kids[p := Without(kids[p], x)][n];
      assert c in kids[n];
    }
  }

  lemma SubsetSize(a: set<Node>, b: set<Node>)
    requires a <= b
    ensures |a| <= |b| && (a != b ==> |a| < |b|)
  {
    assert |b - a| == |b| - |a|;
  }

  lemma FirstOfLeft(h: Pointers, kids: Lists, x: Node, j: nat, gone: set<Node>, rank: map<Node, int>)
    requires x in kids && j <= |kids[x]| && Partly(kids, x, j, gone, rank)
    requires Linked(h, Left(kids, x, j, gone)) && x in h && h[x].first != null
    ensures j < |kids[x]| && h[x].first == kids[x][j] && kids[x][j] in h && Ranked(Left(kids, x, j, gone), rank)
  {
    var left := Left(kids, x, j, gone);
    assert left[x] == kids[x][j..];
    assert InPlace(h, x, left[x], 0);
  }

  lemma PartlyStep(kids: Lists, x: Node, j: nat, gone: set<Node>, below: set<Node>, rank: map<Node, int>)
    requires x in kids && j < |kids[x]| && Partly(kids, x, j, gone, rank)
    requires var left := Left(kids, x, j, gone); IsSubtree(left, kids[x][j], below)
    requires x !in gone && x !in below && kids[x][j] in kids && forall n :: n in below ==> rank[n] <= rank[kids[x][j]]
    ensures Partly(kids, x, j + 1, gone + below, rank)
    ensures var left := Left(kids, x, j, gone);
      Minus(left[x := Without(left[x], kids[x][j])], below) == Left(kids, x, j + 1, gone + below)
  {
    var left, c := Left(kids, x, j, gone), kids[x][j];
    assert left[x] == kids[x][j..] && Without(left[x], c) == kids[x][j + 1..];
    assert kids[x][..j + 1] == kids[x][..j] + [c];
    forall y | y in below && y != c ensures exists n :: n in gone + below && y in kids[n] {
      var n: Node :| n in below && y in left[n];
      assert y in kids[n];
    }
  }

  lemma PartlyAll(h: Pointers, kids: Lists, x: Node, j: nat, gone: set<Node>, rank: map<Node, int>)
    requires x in kids && j <= |kids[x]| && Partly(kids, x, j, gone, rank)
    requires Linked(h, Left(kids, x, j, gone)) && x in h && h[x].first == null
    ensures IsSubtree(kids, x, gone + {x}) && Left(kids, x, j, gone) == Minus(kids[x := []], gone)
  {
    var left := Left(kids, x, j, gone);
    assert left[x] == kids[x][j..];
    assert j == |kids[x]|;
    assert kids[x][..j] == kids[x];
  }

  lemma RankedMinus(kids: Lists, x: Node, gone: set<Node>, rank: map<Node, int>)
    requires Ranked(kids, rank) && x in kids
    ensures Ranked(Minus(kids[x := []], gone), rank)
  {
  }

  lemma FirstIsNotRoot(h: Pointers, unlinked: seq<Node>, root: Node)
    requires Roster(h, unlinked, {root}) && unlinked != []
    ensures {root} - {unlinked[0]} == {root} && unlinked[0] in h && h[unlinked[0]].parent == null
  {
  }

  lemma RootIsOnNoList(h: Pointers, kids: Lists, root: Node)
    requires Linked(h, kids) && root in h && h[root].parent == null
    ensures forall n :: n in kids ==> root !in kids[n]
  {
    OnExactlyOneList(h, kids, root);
  }

  lemma RootSurvives(kids: Lists, root: Node, gone: set<Node>, rank: map<Node, int>)
    requires Ranked(kids, rank) && root in kids && kids[root] == [] && (forall n :: n in kids ==> root !in kids[n])
    requires gone <= kids.Keys && exists x :: x != root && IsSubtree(kids, x, gone)
    ensures root !in gone && Minus(kids, gone).Keys < kids.Keys
    ensures Ranked(Minus(kids, gone), rank) && root in Minus(kids, gone) && Minus(kids, gone)[root] == []
  {
    var x :| x != root && IsSubtree(kids, x, gone);
    assert x in kids && x !in Minus(kids, gone);
  }

  lemma {:induction false} HighestOf(s: set<Node>, rank: map<Node, int>) returns (m: Node)
    requires s != {} && s <= rank.Keys
    ensures m in s && forall n :: n in s ==> rank[n] <= rank[m]
  {
    var x :| x in s;
    if s == {x} { return x; }
    m := HighestOf(s - {x}, rank);
    if rank[m] < rank[x] { m := x; }
  }

  lemma ParentIsHigher(h: Pointers, kids: Lists, root: Node, rank: map<Node, int>, n: Node)
    requires Linked(h, kids) && Roster(h, [], {root}) && root in kids && kids[root] == [] && Ranked(kids, rank)
    requires n in kids && n != root
    ensures exists m :: m in kids && m != root && rank[m] > rank[n]
  {
    assert n in kids[h[n].parent];
  }

  /** With nothing unlinked and nothing below the root, there is nothing but the root. */
  lemma OnlyRootIsLeft(h: Pointers, kids: Lists, root: Node, rank: map<Node, int>)
    requires Linked(h, kids) && Roster(h, [], {root}) && root in kids && kids[root] == [] && Ranked(kids, rank)
    ensures kids == map[root := []]
  {
    if kids.Keys != {root} {
      var m := HighestOf(kids.Keys - {root}, rank);
      ParentIsHigher(h, kids, root, rank, m);
    }
  }

  /** Every live node but the root has exactly one place: one entry of one child list, or of the unlinked list. */
  lemma ExactlyOnePlace(h: Pointers, kids: Lists, unlinked: seq<Node>, root: Node, x: Node)
    requires Linked(h, kids) && Roster(h, unlinked, {root}) && x in h && x != root
    ensures x in unlinked <==> forall n :: n in kids ==> x !in kids[n]
    ensures forall i, j :: 0 <= i < |unlinked| && 0 <= j < |unlinked| && unlinked[i] == unlinked[j] == x ==> i == j
    ensures forall n, m :: n in kids && m in kids && x in kids[n] && x in kids[m] ==> n == m
    ensures forall n, i, j :: n in kids && 0 <= i < |kids[n]| && 0 <= j < |kids[n]| && kids[n][i] == kids[n][j] == x ==> i == j
  {
    OnExactlyOneList(h, kids, x);
  }

  /** A node may be moved under any node that is not below it, and still no node is below itself. */
  lemma MoveKeepsRanks(h: Pointers, kids: Lists, rank: map<Node, int>, p: Node, x: Node, below: set<Node>, i: nat)
    returns (r: map<Node, int>)
    requires Linked(h, kids) && Ranked(kids, rank) && x in h && IsSubtree(kids, x, below) && p in kids && p !in below
    requires i <= |Detached(kids, h[x].parent, x)[p]|
    ensures var k := Detached(kids, h[x].parent, x); Ranked(k[p := Inserted(k[p], i, x)], r)
  {
    var k := Detached(kids, h[x].parent, x);
    var drop := if rank[x] < rank[p] then 0 else rank[x] - rank[p] + 1;
    r := Lowered(kids, rank, below, drop);
    LoweredRanked(h, kids, rank, x, below, drop);
    InsertRanked(k, r, p, x, i);
  }

  /** Everything below a node, whatever the lists. */
  lemma HasSubtree(h: Pointers, kids: Lists, x: Node) returns (below: set<Node>)
    requires Linked(h, kids) && x in kids
    ensures IsSubtree(kids, x, below)
  {
    forall n, c | n in kids && c in kids[n] ensures c in kids { OnParentsList(h, kids, n, c); }
    below := set n | n in kids && forall c: set<Node> :: c <= kids.Keys && IsClosed(kids, x, c) ==> n in c;
    forall c | c in below && c != x ensures exists n :: n in below && c in kids[n] {
      if forall n :: n in below ==> c !in kids[n] { assert IsClosed(kids, x, below - {c}); }
    }
  }

  ghost predicate IsClosed(kids: Lists, x: Node, s: set<Node>) {
    x in s && s <= kids.Keys && forall n, c :: n in s && c in kids[n] ==> c in s
  }

  lemma DetachedLists(h: Pointers, kids: Lists, p: Node, x: Node) returns (k: Lists)
    requires Linked(h, kids) && p in h && x in h
    ensures k == Detached(kids, h[x].parent, x) && p in k
  {
    k := Detached(kids, h[x].parent, x);
    DetachedIs(h, kids, p, x);
  }

  lemma AtTheEnds(s: seq<Node>, x: Node)
    ensures Inserted(s, 0, x) == [x] + s && Inserted(s, |s|, x) == s + [x]
  {
  }

  /** Ranks for the lists after `x` moved to place `i` of `p`, if `p` is not below it. */
  lemma RanksAfterMove(h: Pointers, kids: Lists, rank: map<Node, int>, p: Node, x: Node, i: nat) returns (r: map<Node, int>)
    requires Linked(h, kids) && x in h && p in kids && p in Detached(kids, h[x].parent, x)
    requires i <= |Detached(kids, h[x].parent, x)[p]|
    ensures Ranked(kids, rank) && !IsBelow(kids, x, p) ==>
      var k := Detached(kids, h[x].parent, x); Ranked(k[p := Inserted(k[p], i, x)], r)
  {
    var below := HasSubtree(h, kids, x);
    if Ranked(kids, rank) && !IsBelow(kids, x, p) { r := MoveKeepsRanks(h, kids, rank, p, x, below, i); }
    else { r := rank; }
  }

  lemma CreatedRanked(h: Pointers, kids: Lists, rank: map<Node, int>, x: Node)
    requires Linked(h, kids) && x !in kids
    ensures Ranked(kids, rank) ==> Ranked(kids[x := []], rank[x := 0])
  {
    forall n, c | n in kids && c in kids[n] ensures c in kids { OnParentsList(h, kids, n, c); }
  }

  function Lowered(kids: Lists, rank: map<Node, int>, below: set<Node>, drop: int): map<Node, int>
    requires kids.Keys <= rank.Keys
  {
    map n | n in kids :: if n in below then rank[n] - drop else rank[n]
  }

  lemma LoweredRanked(h: Pointers, kids: Lists, rank: map<Node, int>, x: Node, below: set<Node>, drop: int)
    requires Linked(h, kids) && Ranked(kids, rank) && x in h && IsSubtree(kids, x, below)
    ensures Ranked(Detached(kids, h[x].parent, x), Lowered(kids, rank, below, drop))
  {
    var k, r := Detached(kids, h[x].parent, x), Lowered(kids, rank, below, drop);
    forall n, c | n in k && c in k[n] && c in k ensures r[c] < r[n] {
      StaysBelow(h, kids, x, below, n, c);
    }
  }

  lemma InsertRanked(k: Lists, r: map<Node, int>, p: Node, x: Node, i: nat)
    requires Ranked(k, r) && p in k && x in k && r[x] < r[p] && i <= |k[p]|
    ensures Ranked(k[p := Inserted(k[p], i, x)], r)
  {
    forall c | c in Inserted(k[p], i, x) && c != x ensures c in k[p] {}
  }

  lemma StaysBelow(h: Pointers, kids: Lists, x: Node, below: set<Node>, n: Node, c: Node)
    requires Linked(h, kids) && x in h && IsSubtree(kids, x, below)
    requires n in kids && c in kids && c in Detached(kids, h[x].parent, x)[n]
    ensures c in kids[n] && (c in below <==> n in below)
  {
    OnExactlyOneList(h, kids, x);
    OnExactlyOneList(h, kids, c);
    WithoutKeeps(kids[n], x);
  }

  lemma IsListed(h: Pointers, kids: Lists, unlinked: seq<Node>, loose: set<Node>, x: Node)
    requires Linked(h, kids) && Roster(h, unlinked, loose) && x in h && h[x].parent != null
    ensures h[x].parent in kids && x in kids[h[x].parent] && x !in unlinked
  {
  }

  lemma CutRoster(h: Pointers, p: Node, x: Node, unlinked: seq<Node>, loose: set<Node>)
    requires Roster(h, unlinked, loose) && x in h && h[x].parent != null
    ensures Roster(Cut(h, p, x), unlinked, loose + {x})
  {
  }

  lemma SpliceRoster(h: Pointers, p: Node, x: Node, before: Node?, after: Node?, unlinked: seq<Node>, loose: set<Node>)
    requires Roster(h, unlinked, loose + {x}) && x in h && x !in loose
    ensures Roster(Splice(h, p, x, before, after), unlinked, loose)
  {
  }

  lemma CreatedRoster(h: Pointers, unlinked: seq<Node>, loose: set<Node>, x: Node)
    requires Roster(h, unlinked, loose) && x !in h
    ensures Roster(h[x := Links(null, null, null, null, null)], unlinked + [x], loose)
  {
  }

  lemma FreedRoster(h: Pointers, unlinked: seq<Node>, loose: set<Node>, x: Node)
    requires Roster(h, unlinked, loose) && x in loose
    ensures Roster(h - {x}, unlinked, loose - {x})
  {
  }

  lemma CreatedLinked(h: Pointers, kids: Lists, x: Node)
    requires Linked(h, kids) && x !in h
    ensures Linked(h[x := Links(null, null, null, null, null)], kids[x := []])
  {
    var g := h[x := Links(null, null, null, null, null)];
    forall n | n in h ensures Spells(g, n, kids[n]) {
      forall y | y in kids[n] ensures y in h { OnParentsList(h, kids, n, y); }
      StillSpells(h, g, n, kids[n]);
    }
  }

  /** The nodes an unlink reads and writes are all live. */
  lemma WritesForCut(h: Pointers, kids: Lists, p: Node, x: Node)
    requires Linked(h, kids) && p in h && x in kids[p]
    ensures x in h && x != h[x].prev && x != h[x].next
    ensures h[x].prev != null ==> h[x].prev in h && h[x].prev != h[x].next
    ensures h[x].next != null ==> h[x].next in h
  {
    var i: nat :| i < |kids[p]| && kids[p][i] == x;
    assert InPlace(h, p, kids[p], i);
    Neighbour(h, kids, p, i - 1);
    Neighbour(h, kids, p, i + 1);
  }

  lemma WritesForSplice(h: Pointers, kids: Lists, p: Node, i: nat, x: Node)
    requires Linked(h, kids) && p in h && i <= |kids[p]| && x in h && h[x].parent == null
    ensures var before := At(kids[p], i - 1, null); before != null ==> before in h && before != x
    ensures var after := At(kids[p], i, null); after != null ==> after in h && after != x
  {
    Neighbour(h, kids, p, i - 1);
    Neighbour(h, kids, p, i);
  }
}
