/**
 The SLOB heap as a state machine over plain values (kern/mm/kmalloc.c).

 Addresses count 16-byte units, so a heap page is 256 units.  The free ring is
 the address-ordered list of its blocks, starting with the static `arena` block,
 plus the index of the block `slobfree` points to.
 */
module SlobSpec {
  import opened Wrappers
  import opened BlockList

  const NULL := 0
  const ARENA := 1
  const UNIT := 16
  const PAGE_SIZE := 4096
  const PAGE_UNITS := 256

  /** A big-block record: its two-unit node in the heap and the page run it describes. */
  datatype Big = Big(node: int, order: nat, page: int)

  datatype Heap = Heap(
    blocks: seq<Block>,  // the free ring in address order
    rover: int,          // index of the block slobfree points to
    pages: set<int>,     // page numbers handed to the heap so far
    objs: set<Block>,    // units of the small objects handed out
    bigs: seq<Big>)      // the big-block list, newest first

  function Pow2(k: nat): int {
    if k == 0 then 1 else 2 * Pow2(k - 1)
  }

  // ---- The invariant of the heap ----

  function PageBlock(p: int): Block {
    Block(PAGE_UNITS * p, PAGE_UNITS)
  }

  ghost function PageBlocks(pages: set<int>): set<Block> {
    set p | p in pages :: PageBlock(p)
  }

  ghost function Nodes(bigs: seq<Big>): set<Block> {
    set i | 0 <= i < |bigs| :: Block(bigs[i].node, 2)
  }

  /** Everything handed out: small objects and big-block nodes. */
  ghost function Live(h: Heap): set<Block> {
    h.objs + Nodes(h.bigs)
  }

  ghost predicate RingOk(blocks: seq<Block>, rover: int) {
    && 0 <= rover < |blocks|
    && blocks[0] == Block(ARENA, 1)
    && Separated(blocks)
  }

  /** Free ring and live blocks tile exactly the arena and the heap pages. */
  ghost predicate Tiled(blocks: seq<Block>, live: set<Block>, pages: set<int>) {
    && (forall p :: p in pages ==> p > 0)
    && NoOverlap(live)
    && Cells(blocks) !! CellsOf(live)
    && Cells(blocks) + CellsOf(live) == {ARENA} + CellsOf(PageBlocks(pages))
  }

  function Run(b: Big): Block {
    Block(b.page, Pow2(b.order))
  }

  /** Big-block nodes are distinct, and their page runs clash with nothing. */
  ghost predicate BigsOk(objs: set<Block>, bigs: seq<Big>, pages: set<int>) {
    && objs !! Nodes(bigs)
    && (forall i :: 0 <= i < |bigs| ==> bigs[i].page > 0)
    && (forall i, j :: 0 <= i < j < |bigs| ==> bigs[i].node != bigs[j].node && !Overlap(Run(bigs[i]), Run(bigs[j])))
    && (forall i, p :: 0 <= i < |bigs| && p in pages ==> !Covers(Run(bigs[i]), p))
  }

  ghost predicate Inv(h: Heap) {
    && RingOk(h.blocks, h.rover)
    && (forall b :: b in h.objs ==> b.size >= 1)
    && Tiled(h.blocks, Live(h), h.pages)
    && BigsOk(h.objs, h.bigs, h.pages)
  }

  const START := Heap([Block(ARENA, 1)], 0, {}, {}, [])

  lemma StartOk()
    ensures Inv(START)
  {
    Singleton(Block(ARENA, 1));
    assert Live(START) == {};
    assert Range(ARENA, 1) == {ARENA};
    assert PageBlocks({}) == {};
  }

  // ---- First fit on the ring ----

  /** How many steps along a ring of n blocks lead from block i to block j: between 1 and n. */
  function Dist(n: int, i: int, j: int): int {
    if j > i then j - i else j - i + n
  }

  /** Block i is the first of at least `units` units met after the rover. */
  ghost predicate FirstFit(blocks: seq<Block>, rover: int, units: int, i: int) {
    && 0 <= i < |blocks| && 0 <= rover < |blocks|
    && blocks[i].size >= units
    && forall j :: 0 <= j < |blocks| && Dist(|blocks|, rover, j) < Dist(|blocks|, rover, i) ==> blocks[j].size < units
  }

  ghost predicate NoFit(blocks: seq<Block>, units: int) {
    forall j :: 0 <= j < |blocks| ==> blocks[j].size < units
  }

  lemma FirstFitUnique(blocks: seq<Block>, rover: int, units: int, i: int, j: int)
    requires FirstFit(blocks, rover, units, i) && FirstFit(blocks, rover, units, j)
    ensures i == j
  {
  }

  /**
   With no size there is always a fit, and the block right after the rover is it.  So a
   one-unit request is served from the static arena exactly when the rover is on the last block.
   */
  lemma OneUnitTakesArena(blocks: seq<Block>, rover: int, i: int)
    requires RingOk(blocks, rover) && FirstFit(blocks, rover, 1, i)
    ensures blocks[i].base == ARENA <==> rover == |blocks| - 1
  {
    var next := if rover == |blocks| - 1 then 0 else rover + 1;
    assert blocks[next].size >= 1 && Dist(|blocks|, rover, next) == 1;
  }

  /** The ring has a block at s, below b, and none between the two. */
  ghost predicate JustBelow(blocks: seq<Block>, s: int, b: int) {
    && s < b && (exists i :: 0 <= i < |blocks| && blocks[i].base == s)
    && forall j :: 0 <= j < |blocks| ==> !(s < blocks[j].base < b)
  }

  /**
   Of the blocks with room for `units`, a is the lowest at or above the pivot, or the lowest of
   all if there is none there.
   */
  ghost predicate NextFrom(blocks: seq<Block>, pivot: int, units: int, a: int) {
    && (exists i :: 0 <= i < |blocks| && blocks[i].base == a && blocks[i].size >= units)
    && forall j :: 0 <= j < |blocks| && blocks[j].size >= units ==>
         if a >= pivot then blocks[j].base < pivot || a <= blocks[j].base
         else a <= blocks[j].base < pivot
  }

  /** Requests that the arena does not serve: two units or more, or one when slobfree is not on the last block. */
  predicate SkipsArena(blocks: seq<Block>, rover: int, units: int) {
    units >= 2 || (units == 1 && rover != |blocks| - 1)
  }

  lemma FitSkipsArena(blocks: seq<Block>, rover: int, units: int, i: int)
    requires RingOk(blocks, rover) && FirstFit(blocks, rover, units, i) && units >= 1
    ensures i >= 1 <==> SkipsArena(blocks, rover, units)
    ensures i >= 1 ==> blocks[i].base > ARENA + 1
    ensures i == 0 ==> units == 1 == blocks[i].size
  {
    if units == 1 {
      OneUnitTakesArena(blocks, rover, i);
    }
  }

  /** First fit on the ring, in terms of addresses: next fit from just behind the rover. */
  lemma FitByAddress(blocks: seq<Block>, rover: int, units: int, i: int)
    requires RingOk(blocks, rover) && FirstFit(blocks, rover, units, i)
    ensures NextFrom(blocks, blocks[rover].base + 1, units, blocks[i].base)
  {
    forall j | 0 <= j < |blocks| && blocks[j].size >= units
      ensures Dist(|blocks|, rover, i) <= Dist(|blocks|, rover, j) {
    }
    AddressOrder(blocks, rover, i);
    AddressOrder(blocks, i, rover);
    forall j | 0 <= j < |blocks| && blocks[j].size >= units
      ensures if i > rover then j <= rover || i <= j else i <= j <= rover {
    }
    assert forall j :: 0 <= j < |blocks| ==> (blocks[j].base <= blocks[rover].base <==> j <= rover);
    assert forall j :: 0 <= j < |blocks| ==> (blocks[i].base <= blocks[j].base <==> i <= j);
  }

  lemma AddressOrder(blocks: seq<Block>, i: int, j: int)
    requires Separated(blocks) && 0 <= i < |blocks| && 0 <= j < |blocks|
    ensures blocks[i].base < blocks[j].base <==> i < j
  {
  }

  /** After carving, or releasing behind block k - 1, that block is the one just below. */
  lemma CarvedAbove(blocks: seq<Block>, i: int, units: int)
    requires Separated(blocks) && 1 <= i < |blocks| && 0 < units <= blocks[i].size
    ensures JustBelow(Carve(blocks, i, units), blocks[i - 1].base, blocks[i].base)
  {
    var cs := Carve(blocks, i, units);
    assert cs[i - 1] == blocks[i - 1];
    forall j | 0 <= j < |cs| ensures !(blocks[i - 1].base < cs[j].base < blocks[i].base) {
      if j < i || (j == i && units < blocks[i].size) {
      } else {
        assert cs[j] == blocks[if units < blocks[i].size then j else j + 1];
      }
    }
  }

  lemma ReleasedAbove(blocks: seq<Block>, k: int, b: int, n: int)
    requires Separated(blocks) && 1 <= k && Fits(blocks, k, b, n)
    ensures JustBelow(Release(blocks, k, b, n), blocks[k - 1].base, b)
  {
    var l, r, x := JoinsLeft(blocks, k, b), JoinsRight(blocks, k, b + n), Joined(blocks, k, b, n);
    var cs := Release(blocks, k, b, n);
    SplicedAt(blocks, k - l, k + r, x, k - 1);
    assert cs[k - 1].base == blocks[k - 1].base;
    forall j | 0 <= j < |cs| ensures !(blocks[k - 1].base < cs[j].base < b) {
      SplicedAt(blocks, k - l, k + r, x, j);
    }
  }

  // ---- Steps ----

  /** The ring without n units of block i; a block that is the whole ring stays linked to itself. */
  function Detached(blocks: seq<Block>, i: int, n: int): seq<Block>
    requires 0 <= i < |blocks| && 0 < n <= blocks[i].size
  {
    if |blocks| == 1 && n == blocks[i].size then blocks else Carve(blocks, i, n)
  }

  /** slob_alloc takes the first fit, and leaves the rover on the block before it. */
  ghost predicate Taken(h: Heap, units: int, g: Heap, a: int) {
    exists i ::
      && FirstFit(h.blocks, h.rover, units, i)
      && 0 < units
      && a == h.blocks[i].base
      && g == TakenAt(h, i, units)
  }

  function TakenAt(h: Heap, i: int, units: int): Heap
    requires 0 <= i < |h.blocks| && 0 < units <= h.blocks[i].size
  {
    var rest := Detached(h.blocks, i, units);
    h.(blocks := rest, rover := if i == 0 then |rest| - 1 else i - 1)
  }

  /** The block [b, b + n) goes back between its neighbours, and the rover to the one below. */
  ghost predicate Returned(h: Heap, b: int, n: int, g: Heap) {
    exists k ::
      && 1 <= k && Fits(h.blocks, k, b, n)
      && g == h.(blocks := Release(h.blocks, k, b, n), rover := k - 1)
  }

  /**
   slob_alloc as a whole: the first fit of the ring or, when no block is large enough, the
   first fit of the ring grown by the page on offer.
   */
  ghost predicate Allocated(h: Heap, units: int, offer: Option<int>, g: Heap, a: int) {
    || Taken(h, units, g, a)
    || (&& NoFit(h.blocks, units) && offer.Some?
        && exists m :: Returned(h, PAGE_UNITS * offer.value, PAGE_UNITS, m)
                       && Taken(m.(pages := m.pages + {offer.value}), units, g, a))
  }

  lemma TakenTiles(h: Heap, units: int, g: Heap, a: int, live: set<Block>)
    requires RingOk(h.blocks, h.rover) && Tiled(h.blocks, live, h.pages) && SkipsArena(h.blocks, h.rover, units)
    requires Taken(h, units, g, a)
    ensures RingOk(g.blocks, g.rover) && Tiled(g.blocks, live + {Block(a, units)}, g.pages)
    ensures Block(a, units) !in live && a > ARENA + 1
  {
    var i :| FirstFit(h.blocks, h.rover, units, i) && a == h.blocks[i].base && g == TakenAt(h, i, units);
    FitSkipsArena(h.blocks, h.rover, units, i);
    CarveTiles(h.blocks, i, units, live, h.pages);
  }

  lemma CarveTiles(blocks: seq<Block>, i: int, units: int, live: set<Block>, pages: set<int>)
    requires RingOk(blocks, 0) && Tiled(blocks, live, pages) && 1 <= i < |blocks| && 0 < units <= blocks[i].size
    ensures var b := Block(blocks[i].base, units);
            RingOk(Carve(blocks, i, units), i - 1) && Tiled(Carve(blocks, i, units), live + {b}, pages) && b !in live
  {
    hide Cells, CellsOf, NoOverlap, Range;
    SeparatedIsOrdered(blocks);
    CarveSeparated(blocks, i, units);
    CarveCells(blocks, i, units);
    NoOverlapAdd(live, Block(blocks[i].base, units));
    CellsOfAdd(live, Block(blocks[i].base, units));
  }

  /**
   A one-unit request keeps ring and tiling if and only if slobfree is not on the last block;
   otherwise the arena is handed out, and lost to the ring or still on it.
   */
  lemma OneUnitKeepsRing(h: Heap, g: Heap, a: int, live: set<Block>)
    requires RingOk(h.blocks, h.rover) && Tiled(h.blocks, live, h.pages) && Taken(h, 1, g, a)
    ensures RingOk(g.blocks, g.rover) && Tiled(g.blocks, live + {Block(a, 1)}, g.pages) <==> h.rover != |h.blocks| - 1
  {
    var i :| FirstFit(h.blocks, h.rover, 1, i) && a == h.blocks[i].base && g == TakenAt(h, i, 1);
    FitSkipsArena(h.blocks, h.rover, 1, i);
    if i >= 1 {
      TakenTiles(h, 1, g, a, live);
    } else {
      ArenaLost(h.blocks, live, h.pages);
    }
  }

  lemma ArenaLost(blocks: seq<Block>, live: set<Block>, pages: set<int>)
    requires RingOk(blocks, 0)
    ensures |blocks| == 1 ==> !Tiled(blocks, live + {Block(ARENA, 1)}, pages)
    ensures |blocks| > 1 ==> Carve(blocks, 0, 1) == blocks[1..] && Carve(blocks, 0, 1)[0] != Block(ARENA, 1)
  {
    assert Covers(blocks[0], ARENA) && Covers(Block(ARENA, 1), ARENA);
    CellsBy(blocks, ARENA);
    assert Block(ARENA, 1) in live + {Block(ARENA, 1)};
    assert ARENA in CellsOf(live + {Block(ARENA, 1)});
  }

  /** Giving back a live block. */
  lemma ReturnedTiles(h: Heap, b: Block, g: Heap, live: set<Block>)
    requires RingOk(h.blocks, h.rover) && Tiled(h.blocks, live, h.pages) && b in live
    requires Returned(h, b.base, b.size, g)
    ensures RingOk(g.blocks, g.rover) && Tiled(g.blocks, live - {b}, g.pages)
  {
    hide RingOk, Tiled, Release;
    var k :| 1 <= k && Fits(h.blocks, k, b.base, b.size)
             && g == h.(blocks := Release(h.blocks, k, b.base, b.size), rover := k - 1);
    RingFrom(h.blocks, h.rover, 0);
    LiveInPages(h.blocks, live, h.pages, b, b.base);
    RingRelease(h.blocks, k, b.base, b.size);
    ReleaseTiles(h.blocks, k, b, live, h.pages);
  }

  lemma RingFrom(blocks: seq<Block>, rover: int, other: int)
    requires RingOk(blocks, rover) && 0 <= other < |blocks|
    ensures RingOk(blocks, other)
  {
  }

  lemma ReleaseTiles(blocks: seq<Block>, k: int, b: Block, live: set<Block>, pages: set<int>)
    requires RingOk(blocks, 0) && Tiled(blocks, live, pages) && b in live && Fits(blocks, k, b.base, b.size)
    ensures Tiled(Release(blocks, k, b.base, b.size), live - {b}, pages)
  {
    hide Separated, Cells, CellsOf, NoOverlap, Range;
    CellsOfRemove(live, b);
    NoOverlapLess(live, b);
    SeparatedIsOrdered(blocks);
    ReleaseCells(blocks, k, b.base, b.size);
  }

  /** Every unit of a live block lies in a heap page, none in the arena. */
  lemma LiveInPages(blocks: seq<Block>, live: set<Block>, pages: set<int>, b: Block, u: int)
    requires RingOk(blocks, 0) && Tiled(blocks, live, pages) && b in live && Covers(b, u)
    ensures u >= PAGE_UNITS && u / PAGE_UNITS in pages
  {
    RangeInCellsOf(live, b);
    assert u in Range(b.base, b.size);
    assert Covers(blocks[0], ARENA);
    CellsBy(blocks, ARENA);
    var c :| c in PageBlocks(pages) && Covers(c, u);
  }

  /** Giving a fresh page to the ring. */
  lemma GrownTiles(h: Heap, p: int, g: Heap, live: set<Block>)
    requires RingOk(h.blocks, h.rover) && Tiled(h.blocks, live, h.pages) && p !in h.pages && p > 0
    requires Returned(h, PAGE_UNITS * p, PAGE_UNITS, g)
    ensures RingOk(g.blocks, g.rover) && Tiled(g.blocks, live, h.pages + {p})
  {
    hide Separated, Cells, CellsOf, NoOverlap;
    var k :| 1 <= k && Fits(h.blocks, k, PAGE_UNITS * p, PAGE_UNITS)
             && g == h.(blocks := Release(h.blocks, k, PAGE_UNITS * p, PAGE_UNITS), rover := k - 1);
    SeparatedIsOrdered(h.blocks);
    RingRelease(h.blocks, k, PAGE_UNITS * p, PAGE_UNITS);
    ReleaseCells(h.blocks, k, PAGE_UNITS * p, PAGE_UNITS);
    assert PageBlocks(h.pages + {p}) == PageBlocks(h.pages) + {PageBlock(p)};
    CellsOfAdd(PageBlocks(h.pages), PageBlock(p));
    FreshPageDisjoint(h.pages, p);
  }

  lemma FreshPageDisjoint(pages: set<int>, p: int)
    requires p !in pages && p > 0
    ensures {ARENA} + CellsOf(PageBlocks(pages)) !! Range(PAGE_UNITS * p, PAGE_UNITS)
  {
    forall u | u in CellsOf(PageBlocks(pages)) ensures u !in Range(PAGE_UNITS * p, PAGE_UNITS) {
      var b :| b in PageBlocks(pages) && Covers(b, u);
    }
  }

  lemma RingRelease(blocks: seq<Block>, k: int, b: int, n: int)
    requires RingOk(blocks, 0) && 1 <= k && Fits(blocks, k, b, n) && b > ARENA + 1
    ensures RingOk(Release(blocks, k, b, n), k - 1)
    ensures Release(blocks, k, b, n)[k - 1].base == blocks[k - 1].base
  {
    ReleaseSeparated(blocks, k, b, n);
  }
}
