/**
 The free-list allocator behind the XML nodes (MemPoolT in compat/tinyxml2-v34/tinyxml2.h).
 */
module MemPool {
  import opened Common

  const BLOCK_BYTES := 4 * 1024

  class Item {
    var next: Item?

    constructor () {
      next := null;
    }
  }

  class Block {
    const items: seq<Item>

    constructor (items: seq<Item>)
      ensures this.items == items
    {
      this.items := items;
    }
  }

  ghost predicate PointsOn(s: seq<Item>, i: nat)
    requires i < |s|
    reads s[i]
  {
    s[i].next == At(s, i + 1, null)
  }

  /** Following `next` from the first item of `s` visits exactly `s`. */
  ghost predicate Chained(s: seq<Item>)
    reads s
  {
    NoRepeats(s) && forall i: nat {:trigger PointsOn(s, i)} :: i < |s| ==> PointsOn(s, i)
  }

  function Items(s: seq<Item>): set<Item> {
    set x | x in s
  }

  lemma NoRepeatsSize(s: seq<Item>)
    requires NoRepeats(s)
    ensures |Items(s)| == |s|
  {
    if s != [] {
      var rest := s[..|s| - 1];
      NoRepeatsSize(rest);
      assert Items(s) == Items(rest) + {s[|s| - 1]};
    }
  }

  /** `all` is the set of the items of all blocks. */
  ghost predicate AreItemsOf(all: set<Item>, blocks: seq<Block>) {
    && (forall b, x {:trigger b in blocks, x in b.items} :: b in blocks && x in b.items ==> x in all)
    && (forall x {:trigger x in all} :: x in all ==> exists b :: b in blocks && x in b.items)
  }

  /** Every item of every block is either spare or handed out, never both. */
  ghost predicate Accounted(blocks: seq<Block>, perBlock: nat, all: set<Item>, spare: set<Item>, live: set<Item>) {
    && AreItemsOf(all, blocks) && |all| == |blocks| * perBlock
    && spare <= all && live <= all
    && (forall x :: x in all ==> (x in live <==> x !in spare))
  }

  /** The free list starts at `root` and holds exactly the spare items. */
  ghost predicate IsFreeList(root: Item?, free: seq<Item>, spare: set<Item>)
    reads free
  {
    root == At(free, 0, null) && Chained(free) && Items(free) == spare
  }

  class Pool {
    const itemsPerBlock: nat
    var blocks: seq<Block>
    var root: Item?
    var currentAllocs: nat
    var allocs: nat
    var maxAllocs: nat
    // The free list, the items of all blocks, those on the free list, and those handed out and
    // not yet returned.
    ghost var free: seq<Item>
    ghost var all: set<Item>
    ghost var spare: set<Item>
    ghost var live: set<Item>

    ghost predicate Valid()
      reads this, free
    {
      && itemsPerBlock > 0
      && IsFreeList(root, free, spare)
      && Accounted(blocks, itemsPerBlock, all, spare, live)
      && currentAllocs == |live| && currentAllocs <= maxAllocs <= allocs
    }

    constructor (itemSize: nat)
      requires 0 < itemSize <= BLOCK_BYTES
      ensures Valid() && live == {} && blocks == [] && itemsPerBlock == BLOCK_BYTES / itemSize
    {
      itemsPerBlock := BLOCK_BYTES / itemSize;
      blocks, root, free, all, spare, live := [], null, [], {}, {}, {};
      currentAllocs, allocs, maxAllocs := 0, 0, 0;
    }

    /** Free and handed-out items add up to the items of the blocks: none is lost or counted twice. */
    lemma NothingIsLost()
      requires Valid()
      ensures |free| + currentAllocs == |blocks| * itemsPerBlock
    {
      NoRepeatsSize(free);
      assert all - live == spare;
    }

    /** A block of new items, each pointing to the one behind it. */
    method NewBlock() returns (block: Block)
      requires itemsPerBlock > 0
      ensures |block.items| == itemsPerBlock && Chained(block.items) && forall x :: x in block.items ==> fresh(x)
    {
      var items := [];
      while |items| < itemsPerBlock
        invariant |items| <= itemsPerBlock && NoRepeats(items)
        invariant forall x :: x in items ==> fresh(x)
      {
        var item := new Item();
        assert item !in items;
        items := items + [item];
      }
      var i := 0;
      while i < itemsPerBlock - 1
        invariant 0 <= i <= itemsPerBlock - 1
        invariant forall k: nat {:trigger PointsOn(items, k)} :: k < i ==> PointsOn(items, k)
      {
        assert items[i] in items;
        items[i].next := items[i + 1];
        assert PointsOn(items, i);
        i := i + 1;
      }
      assert items[i] in items;
      items[itemsPerBlock - 1].next := null;
      assert PointsOn(items, itemsPerBlock - 1);
      block := new Block(items);
    }

    method Grow()
      requires Valid() && root == null
      modifies this`blocks, this`root, this`free, this`all, this`spare
      ensures Valid() && root != null && |blocks| == |old(blocks)| + 1
      ensures forall x :: x in free ==> fresh(x)
    {
      var block := NewBlock();
      NothingSpare(root, free, spare);
      AddBlock(blocks, itemsPerBlock, all, live, block);
      Install(blocks + [block], block.items, all + Items(block.items), Items(block.items));
    }

    method Install(newBlocks: seq<Block>, items: seq<Item>, ghost newAll: set<Item>, ghost newSpare: set<Item>)
      requires items != [] && itemsPerBlock > 0 && IsFreeList(items[0], items, newSpare)
      requires currentAllocs == |live| && currentAllocs <= maxAllocs <= allocs
      modifies this`blocks, this`root, this`free, this`all, this`spare
      ensures blocks == newBlocks && root == items[0] && free == items && all == newAll && spare == newSpare
      ensures Accounted(newBlocks, itemsPerBlock, newAll, newSpare, live) ==> Valid()
    {
      blocks, root, free := newBlocks, items[0], items;
      all, spare := newAll, newSpare;
    }

    method TakeRoot() returns (item: Item)
      requires IsFreeList(root, free, spare) && root != null
      modifies this`root, this`free, this`spare
      ensures old(free) != [] && item == old(free)[0] && free == old(free)[1..]
      ensures IsFreeList(root, free, spare) && item in old(spare) && spare == old(spare) - {item}
    {
      PopFree(free);
      item := root;
      root := root.next;
      free, spare := free[1..], spare - {item};
    }

    method HandOut() returns (item: Item)
      requires Valid() && root != null
      modifies this`root, this`free, this`spare, this`live, this`currentAllocs, this`maxAllocs, this`allocs
      ensures Valid() && item !in old(live) && live == old(live) + {item} && item == old(root)
      ensures old(free) != [] && item == old(free)[0] && free == old(free)[1..]
      ensures allocs == old(allocs) + 1 && maxAllocs == Max(old(maxAllocs), currentAllocs)
    {
      item := TakeRoot();
      HandedOut(blocks, itemsPerBlock, all, old(spare), live, item);
      live := live + {item};
      currentAllocs := currentAllocs + 1;
      if currentAllocs > maxAllocs { maxAllocs := currentAllocs; }
      allocs := allocs + 1;
    }

    /** Hands out an item that was not handed out. */
    method Alloc() returns (item: Item)
      requires Valid()
      modifies this
      ensures Valid() && item !in old(live) && live == old(live) + {item}
      ensures old(root) != null ==> item == old(root) && free == old(free)[1..] && blocks == old(blocks)
      ensures old(root) == null ==> fresh(item) && |blocks| == |old(blocks)| + 1
      ensures allocs == old(allocs) + 1 && maxAllocs == Max(old(maxAllocs), currentAllocs)
    {
      if root == null { Grow(); }
      item := HandOut();
    }

    method PutRoot(item: Item)
      requires item !in spare && IsFreeList(root, free, spare)
      modifies this`root, this`free, this`spare, item
      ensures IsFreeList(root, free, spare)
      ensures root == item && free == [item] + old(free) && spare == old(spare) + {item}
    {
      assert item !in free by { assert item !in Items(free); }
      item.next := root;
      root := item;
      PushFree(item, free);
      free, spare := [item] + free, spare + {item};
    }

    /** Takes an item back; a null pointer is ignored. */
    method Free(item: Item?)
      requires Valid() && (item != null ==> item in live)
      modifies this, item
      ensures Valid() && blocks == old(blocks)
      ensures item == null ==> live == old(live) && free == old(free)
      ensures item != null ==> live == old(live) - {item} && free == [item] + old(free)
      ensures allocs == old(allocs) && maxAllocs == old(maxAllocs)
    {
      if item == null { return; }
      TakenBack(blocks, itemsPerBlock, all, spare, live, item);
      currentAllocs := currentAllocs - 1;
      PutRoot(item);
      live := live - {item};
    }

    /** Drops all blocks, and with them every item. */
    method Clear()
      requires Valid()
      modifies this
      ensures Valid() && live == {} && free == [] && blocks == [] && currentAllocs == allocs == maxAllocs == 0
    {
      while blocks != []
        decreases |blocks|
        modifies this`blocks
      {
        blocks := blocks[..|blocks| - 1];
      }
      root, free, all, spare, live := null, [], {}, {}, {};
      currentAllocs, allocs, maxAllocs := 0, 0, 0;
    }
  }

  lemma NothingSpare(root: Item?, free: seq<Item>, spare: set<Item>)
    requires IsFreeList(root, free, spare) && root == null
    ensures free == [] && spare == {}
  {
  }

  lemma AddBlock(blocks: seq<Block>, perBlock: nat, all: set<Item>, live: set<Item>, block: Block)
    requires Accounted(blocks, perBlock, all, {}, live)
    requires NoRepeats(block.items) && |block.items| == perBlock && all !! Items(block.items)
    ensures Accounted(blocks + [block], perBlock, all + Items(block.items), Items(block.items), live)
  {
    MoreItems(all, blocks, block);
    MoreCounted(|blocks|, perBlock, all, block.items);
  }

  lemma HandedOut(blocks: seq<Block>, perBlock: nat, all: set<Item>, spare: set<Item>, live: set<Item>, item: Item)
    requires Accounted(blocks, perBlock, all, spare, live) && item in spare
    ensures item !in live && Accounted(blocks, perBlock, all, spare - {item}, live + {item})
    ensures |live + {item}| == |live| + 1
  {
  }

  lemma TakenBack(blocks: seq<Block>, perBlock: nat, all: set<Item>, spare: set<Item>, live: set<Item>, item: Item)
    requires Accounted(blocks, perBlock, all, spare, live) && item in live
    ensures item !in spare && Accounted(blocks, perBlock, all, spare + {item}, live - {item})
    ensures |live - {item}| == |live| - 1
  {
  }

  lemma MoreItems(all: set<Item>, blocks: seq<Block>, block: Block)
    requires AreItemsOf(all, blocks)
    ensures AreItemsOf(all + Items(block.items), blocks + [block])
  {
    var more := blocks + [block];
    assert block in more && forall b :: b in blocks ==> b in more;
  }

  lemma MoreCounted(blocks: nat, perBlock: nat, all: set<Item>, items: seq<Item>)
    requires |all| == blocks * perBlock && NoRepeats(items) && |items| == perBlock && all !! Items(items)
    ensures |all + Items(items)| == (blocks + 1) * perBlock
  {
    NoRepeatsSize(items);
  }

  lemma PopFree(s: seq<Item>)
    requires s != [] && Chained(s)
    ensures s[0].next == At(s[1..], 0, null) && Chained(s[1..]) && s[0] in Items(s) && Items(s[1..]) == Items(s) - {s[0]}
  {
    assert PointsOn(s, 0);
    forall i: nat | i < |s[1..]| ensures PointsOn(s[1..], i) { assert PointsOn(s, i + 1); }
  }

  lemma PushFree(x: Item, s: seq<Item>)
    requires x !in s && Chained(s) && x.next == At(s, 0, null)
    ensures Chained([x] + s) && Items([x] + s) == Items(s) + {x}
  {
    var t := [x] + s;
    forall i: nat | i < |t| ensures PointsOn(t, i) {
      if i > 0 { assert PointsOn(s, i - 1); }
    }
  }
}
