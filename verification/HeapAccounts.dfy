/**
 What one kmalloc costs and what its kfree gives back (kern/mm/kmalloc.c), in bytes, units
 and pages.
 */
module HeapAccounts {
  import opened Wrappers
  import opened BlockList
  import opened SlobSpec
  import opened KmallocSpec

  /** The units handed out from one state to the next, if pages have been added meanwhile. */
  ghost function Spent(h: Heap, g: Heap): int {
    Total(h.blocks) + 256 * (|g.pages| - |h.pages|) - Total(g.blocks)
  }

  lemma SpentOn(h: Heap, g: Heap, b: Block)
    requires Inv(h) && Inv(g) && Live(g) == Live(h) + {b} && b !in Live(h)
    ensures Spent(h, g) == b.size
  {
    hide Tiled, Separated, BigsOk, SizeOf, Total, Live;
    Conservation(h);
    Conservation(g);
    LiveApart(g);
    SizeOfMore(Live(h), b);
  }

  lemma LiveApart(h: Heap)
    requires Inv(h)
    ensures NoOverlap(Live(h))
  {
  }

  lemma SizeOfMore(live: set<Block>, b: Block)
    requires NoOverlap(live + {b}) && b !in live
    ensures SizeOf(live + {b}) == SizeOf(live) + b.size
  {
    hide SizeOf, Range;
    var more := live + {b};
    assert more - {b} == live;
    NoOverlapLess(more, b);
    SizeIsCount(live);
    SizeIsCount(more);
    CellsOfAdd(live, b);
    CellsOfRemove(more, b);
    RangeCount(b.base, b.size);
    hide CellsOf;
    assert |CellsOf(live) + Range(b.base, b.size)| == |CellsOf(live)| + |Range(b.base, b.size)|;
  }

  /** An object has the least number of units that hold its header and its bytes. */
  lemma UnitsLeast(size: nat)
    ensures 16 + size <= 16 * ObjectUnits(size) < 16 + size + 16
  {
  }

  /**
   A small request gets a new object: the payload lies behind the header unit and inside the
   block, the block is the smallest with room, and its units are all that is spent.
   */
  lemma SmallObject(h: Heap, size: nat, offer: Option<int>, g: Heap, p: int) returns (b: Block)
    requires Inv(h) && !GetsArena(h, size) && SmallStep(h, size, offer, g, Got(p)) && p != NULL
    requires offer.Some? ==> FreshPage(h, offer.value)
    ensures g.objs == h.objs + {b} && g.bigs == h.bigs && b !in Live(h)
    ensures g.pages == h.pages || (offer.Some? && g.pages == h.pages + {offer.value})
    ensures p == b.base + 1 && 16 * p + size <= 16 * (b.base + b.size) < 16 * p + size + 16
    ensures Spent(h, g) == b.size
  {
    hide Inv, Allocated, Between, FreshPage, NoFit, Spent;
    UnitsLeast(size);
    SmallInv(h, size, offer, g, Got(p));
    var units := ObjectUnits(size);
    var m, a :| Allocated(h, units, offer, m, a) && g == m.(objs := m.objs + {Block(a, units)}) && p == a + 1;
    b := Block(a, units);
    SmallSkips(h, size);
    AllocatedBetween(h, units, offer, m, a);
    NewObject(h, m, b, g);
    SpentOn(h, g, b);
  }

  lemma SmallSkips(h: Heap, size: nat)
    requires !GetsArena(h, size)
    ensures SkipsArena(h.blocks, h.rover, ObjectUnits(size))
  {
  }

  lemma NewObject(h: Heap, m: Heap, b: Block, g: Heap)
    requires Between(h, m, b) && g == m.(objs := m.objs + {b})
    ensures g.objs == h.objs + {b} && g.bigs == h.bigs && Live(g) == Live(h) + {b} && b !in Live(h)
  {
  }

  /** A big request gets its page run, and spends the two units that hold a record of 24 bytes. */
  lemma BigObject(h: Heap, size: nat, offer: Option<int>, q: int, g: Heap, p: int) returns (node: int)
    requires Inv(h) && BigStep(h, size, offer, Some(q), g, Got(p)) && p != NULL && FairOffers(h, size, offer, Some(q))
    ensures 16 * p == 4096 * q
    ensures g.objs == h.objs && g.bigs == [Big(node, OrderOf(ToInt(size)), q)] + h.bigs
    ensures g.pages == h.pages || (offer.Some? && g.pages == h.pages + {offer.value})
    ensures Spent(h, g) == 2
  {
    hide Inv, Allocated, Between, FairOffers, NoFit, Spent, OrderOf;
    BigInv(h, size, offer, Some(q), g, Got(p));
    var m, a :| && Allocated(h, 2, offer, m, a)
                && g == m.(bigs := [Big(a, OrderOf(ToInt(size)), q)] + m.bigs);
    node := a;
    FairPage(h, size, offer, Some(q));
    AllocatedBetween(h, 2, offer, m, a);
    NewNode(h, m, Big(a, OrderOf(ToInt(size)), q), g);
    SpentOn(h, g, Block(a, 2));
  }

  lemma FairPage(h: Heap, size: nat, offer: Option<int>, run: Option<int>)
    requires FairOffers(h, size, offer, run)
    ensures offer.Some? ==> FreshPage(h, offer.value)
  {
  }

  lemma NewNode(h: Heap, m: Heap, big: Big, g: Heap)
    requires Between(h, m, Block(big.node, 2)) && g == m.(bigs := [big] + m.bigs)
    ensures g.objs == h.objs && g.bigs == [big] + h.bigs && Block(big.node, 2) !in Live(h)
    ensures Live(g) == Live(h) + {Block(big.node, 2)}
  {
    NodesAdd(big, h.bigs);
  }

  /**
   kfree right after a big kmalloc hands back the pages that the run was requested with, from
   its first page on, and the node with them.
   */
  lemma RunGivenBack(h: Heap, size: nat, offer: Option<int>, q: int, g: Heap, p: int, f: Heap, run: Option<Block>)
    requires Inv(h) && BigStep(h, size, offer, Some(q), g, Got(p)) && p != NULL && FairOffers(h, size, offer, Some(q))
    requires FreeStep(g, p, f, run)
    ensures run == Some(Block(q, Pow2(OrderOf(ToInt(size)))))
    ensures f.objs == h.objs && f.bigs == h.bigs && f.pages == g.pages && Spent(h, f) == 0
  {
    var node := BigObject(h, size, offer, q, g, p);
    BigInv(h, size, offer, Some(q), g, Got(p));
    FreeKeepsInv(g, p, f, run);
    hide Returned, Tiled;
    assert g.bigs[0].page == q;
    PagesDiffer(g);
    var i :| && 0 <= i < |g.bigs| && p == PAGE_UNITS * g.bigs[i].page
             && Returned(g.(bigs := Without(g.bigs, i)), g.bigs[i].node, 2, f) && run == Some(Run(g.bigs[i]));
    assert i == 0;
    assert Without(g.bigs, 0) == h.bigs;
    ReturnedFrame(g.(bigs := Without(g.bigs, i)), g.bigs[i].node, 2, f);
    SameLive(h, f);
  }

  lemma SameLive(h: Heap, f: Heap)
    requires Inv(h) && Inv(f) && f.objs == h.objs && f.bigs == h.bigs
    ensures Spent(h, f) == 0
  {
    Conservation(h);
    Conservation(f);
  }
}
