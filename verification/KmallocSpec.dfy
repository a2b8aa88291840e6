/**
 kmalloc and kfree as steps of the SLOB heap (kern/mm/kmalloc.c), and what every run of them keeps.
 */
module KmallocSpec {
  import opened Wrappers
  import opened BlockList
  import opened SlobSpec

  // ---- Sizes ----

  /** The value of a 64-bit size passed as a 32-bit int parameter. */
  function ToInt(size: nat): int {
    var low := size % 0x1_0000_0000;
    if low < 0x8000_0000 then low else low - 0x1_0000_0000
  }

  /** find_order: halves the size until it is at most a page. */
  function OrderOf(size: int): nat
    decreases size
  {
    if size <= PAGE_SIZE then 0 else 1 + OrderOf(size / 2)
  }

  lemma Pow2Pos(k: nat)
    ensures Pow2(k) >= 1
  {
  }

  /** find_order returns the least k with size >> k at most a page. */
  lemma {:induction false} OrderIsLeast(size: int, k: nat)
    requires size >= 0
    ensures Pow2(k) >= 1
    ensures size / Pow2(k) <= PAGE_SIZE <==> k >= OrderOf(size)
    decreases k
  {
    Pow2Pos(k);
    if size <= PAGE_SIZE {
      QuotientAtMost(size, Pow2(k));
    } else if k > 0 {
      OrderIsLeast(size / 2, k - 1);
      HalveFirst(size, Pow2(k - 1));
    }
  }

  lemma QuotientAtMost(x: int, d: int)
    requires x >= 0 && d >= 1
    ensures 0 <= x / d <= x
  {
  }

  lemma HalveFirst(x: int, d: int)
    requires x >= 0 && d >= 1
    ensures x / (2 * d) == x / 2 / d
  {
    var q := x / 2 / d;
    var r := x / 2 - q * d;
    assert 0 <= r < d;
    var s := x - 2 * (x / 2);
    assert x == q * (2 * d) + (2 * r + s);
    QuotientIs(x, 2 * d, q, 2 * r + s);
  }

  lemma QuotientIs(x: int, d: int, q: int, r: int)
    requires d >= 1 && x == q * d + r && 0 <= r < d
    ensures x / d == q
  {
    var p := x / d;
    assert x == p * d + x % d;
    if p > q {
      MulMonotone(q + 1, p, d);
    } else if p < q {
      MulMonotone(p + 1, q, d);
    }
  }

  lemma MulMonotone(a: int, b: int, d: int)
    requires a <= b && d >= 0
    ensures a * d <= b * d
  {
  }

  /**
   find_order rounds down: the page run is too small exactly for the sizes strictly between
   4096 * 2^k and 4097 * 2^k, and then by less than 2^k bytes.
   */
  lemma OrderShortfall(size: int)
    requires size >= 0
    ensures var k := OrderOf(size);
            && size < (PAGE_SIZE + 1) * Pow2(k)
            && size - PAGE_SIZE * Pow2(k) <= Pow2(k) - 1
            && (PAGE_SIZE * Pow2(k) < size <==> exists j: nat :: PAGE_SIZE * Pow2(j) < size < (PAGE_SIZE + 1) * Pow2(j))
  {
    var k := OrderOf(size);
    OrderIsLeast(size, k);
    BelowNext(size, Pow2(k), PAGE_SIZE);
    forall j: nat | PAGE_SIZE * Pow2(j) < size < (PAGE_SIZE + 1) * Pow2(j) ensures PAGE_SIZE * Pow2(k) < size {
      OrderIsLeast(size, j);
      BelowNext(size, Pow2(j), PAGE_SIZE);
      Pow2Monotone(k, j);
    }
  }

  /**
   The page run of a big request covers it exactly when the size is below 2^31 and not in
   one of the gaps left by rounding down.  From 2^31 on, passing the size as an int loses it.
   */
  lemma RunCovers(size: nat)
    ensures PAGE_SIZE * Pow2(OrderOf(ToInt(size))) >= size
            <==> size < 0x8000_0000 && !exists j: nat :: PAGE_SIZE * Pow2(j) < size < (PAGE_SIZE + 1) * Pow2(j)
  {
    if size < 0x8000_0000 {
      OrderShortfall(size);
    } else {
      RunAtMost(ToInt(size));
    }
  }

  /** 8193 bytes get two pages. */
  lemma RunTooSmall()
    ensures PAGE_SIZE * Pow2(OrderOf(ToInt(8193))) == 8192
  {
    hide OrderOf, Pow2;
    OrderStep(8193);
    OrderStep(4096);
    OneIsTwo();
  }

  lemma OrderStep(size: int)
    ensures OrderOf(size) == if size <= PAGE_SIZE then 0 else 1 + OrderOf(size / 2)
  {
  }

  lemma OneIsTwo()
    ensures Pow2(1) == 2
  {
  }

  lemma RunAtMost(x: int)
    requires -0x8000_0000 <= x < 0x8000_0000
    ensures PAGE_SIZE * Pow2(OrderOf(x)) <= 0x8000_0000
    ensures x < 0 ==> OrderOf(x) == 0
  {
    if x >= 0 {
      Pow2Is19();
      OrderIsLeast(x, 19);
      Pow2Monotone(OrderOf(x), 19);
    }
  }

  lemma Pow2Is19()
    ensures Pow2(19) == 0x8_0000
  {
    assert Pow2(10) == 1024;
  }

  lemma BelowNext(x: int, d: int, m: int)
    requires x >= 0 && d >= 1
    ensures x / d <= m <==> x < (m + 1) * d
  {
    var q, r := x / d, x % d;
    assert x == q * d + r;
    if q <= m {
      assert q * d <= m * d;
    } else {
      assert q * d >= (m + 1) * d;
    }
  }

  lemma {:induction false} Pow2Monotone(k: nat, j: nat)
    requires k <= j
    ensures Pow2(k) <= Pow2(j)
    decreases j
  {
    Pow2Pos(j);
    if k < j {
      Pow2Monotone(k, j - 1);
      Pow2Pos(j - 1);
    }
  }

  // ---- Steps ----

  /** What kmalloc answers: a failed assertion stops the kernel; a pointer counts units. */
  datatype Outcome = Panic | Got(ptr: int)

  predicate IsSmall(size: nat) {
    size < PAGE_SIZE - UNIT
  }

  /** Sizes for which kmalloc does not run into the assertion in slob_alloc. */
  predicate Accepted(size: nat) {
    IsSmall(size) ==> size + UNIT + UNIT < PAGE_SIZE
  }

  /** The sizes that pass the test in kmalloc and then fail the assertion in slob_alloc. */
  lemma RejectedSizes(size: nat)
    ensures !Accepted(size) <==> 4064 <= size <= 4079
  {
  }

  function ObjectUnits(size: nat): int {
    (size + UNIT + UNIT - 1) / UNIT
  }

  /** A page that neither the heap nor a big block holds. */
  ghost predicate FreshPage(h: Heap, p: int) {
    p > 0 && p !in h.pages && forall i :: 0 <= i < |h.bigs| ==> !Covers(Run(h.bigs[i]), p)
  }

  ghost predicate FreshRun(h: Heap, run: Block) {
    && run.base > 0
    && (forall p :: p in h.pages ==> !Covers(run, p))
    && (forall i :: 0 <= i < |h.bigs| ==> !Overlap(Run(h.bigs[i]), run))
  }

  /** The page allocator's answers clash neither with what the heap holds nor with each other. */
  ghost predicate FairOffers(h: Heap, size: nat, offer: Option<int>, run: Option<int>) {
    && (offer.Some? ==> FreshPage(h, offer.value))
    && (run.Some? ==> FreshRun(h, Block(run.value, Pow2(OrderOf(ToInt(size)))))
                      && (offer.Some? ==> !Covers(Block(run.value, Pow2(OrderOf(ToInt(size)))), offer.value)))
  }

  ghost predicate SmallStep(h: Heap, size: nat, offer: Option<int>, g: Heap, o: Outcome) {
    var units := ObjectUnits(size);
    if NoFit(h.blocks, units) && offer.None? then g == h && o == Got(NULL)
    else exists m, a :: && Allocated(h, units, offer, m, a)
                        && g == m.(objs := m.objs + {Block(a, units)}) && o == Got(a + 1)
  }

  ghost predicate BigStep(h: Heap, size: nat, offer: Option<int>, run: Option<int>, g: Heap, o: Outcome) {
    if NoFit(h.blocks, 2) && offer.None? then g == h && o == Got(NULL)
    else exists m, a :: && Allocated(h, 2, offer, m, a)
                        && match run
                           case Some(q) => && g == m.(bigs := [Big(a, OrderOf(ToInt(size)), q)] + m.bigs)
                                           && o == Got(PAGE_UNITS * q)
                           case None => Returned(m, a, 2, g) && o == Got(NULL)
  }

  ghost predicate MallocStep(h: Heap, size: nat, offer: Option<int>, run: Option<int>, g: Heap, o: Outcome) {
    if !Accepted(size) then g == h && o == Panic
    else if IsSmall(size) then SmallStep(h, size, offer, g, o)
    else BigStep(h, size, offer, run, g, o)
  }

  /** The pointers kfree may be given. */
  ghost predicate IsPointer(h: Heap, ptr: int) {
    || ptr == NULL
    || (exists b :: b in h.objs && ptr == b.base + 1)
    || (exists i :: 0 <= i < |h.bigs| && ptr == PAGE_UNITS * h.bigs[i].page)
  }

  function Without(bigs: seq<Big>, i: int): seq<Big>
    requires 0 <= i < |bigs|
  {
    bigs[..i] + bigs[i + 1..]
  }

  /** kfree releases exactly the object it is given; a page run is handed back in `run`. */
  ghost predicate FreeStep(h: Heap, ptr: int, g: Heap, run: Option<Block>) {
    if ptr == NULL then g == h && run == None
    else if exists i :: 0 <= i < |h.bigs| && ptr == PAGE_UNITS * h.bigs[i].page then
      exists i :: && 0 <= i < |h.bigs| && ptr == PAGE_UNITS * h.bigs[i].page
                  && Returned(h.(bigs := Without(h.bigs, i)), h.bigs[i].node, 2, g)
                  && run == Some(Run(h.bigs[i]))
    else
      run == None &&
      exists b :: && b in h.objs && ptr == b.base + 1
                  && Returned(h.(objs := h.objs - {b}), b.base, b.size, g)
  }

  // ---- Every step keeps the invariant ----

  /** slob_alloc hands out units that were free, growing the heap by at most the page on offer. */
  lemma AllocatedTiles(h: Heap, units: int, offer: Option<int>, m: Heap, a: int, live: set<Block>)
    requires RingOk(h.blocks, h.rover) && Tiled(h.blocks, live, h.pages)
    requires SkipsArena(h.blocks, h.rover, units) && Allocated(h, units, offer, m, a)
    requires offer.Some? ==> offer.value > 0 && offer.value !in h.pages
    ensures RingOk(m.blocks, m.rover) && Tiled(m.blocks, live + {Block(a, units)}, m.pages)
    ensures Block(a, units) !in live
  {
    if Taken(h, units, m, a) {
      TakenTiles(h, units, m, a, live);
    } else {
      var g :| Returned(h, PAGE_UNITS * offer.value, PAGE_UNITS, g)
               && Taken(g.(pages := g.pages + {offer.value}), units, m, a);
      assert h.blocks[0].size < units;
      ReturnedFrame(h, PAGE_UNITS * offer.value, PAGE_UNITS, g);
      GrownTiles(h, offer.value, g, live);
      TakenTiles(g.(pages := g.pages + {offer.value}), units, m, a, live);
    }
  }

  lemma ReturnedFrame(h: Heap, b: int, n: int, g: Heap)
    requires Returned(h, b, n, g)
    ensures g.pages == h.pages && g.objs == h.objs && g.bigs == h.bigs
  {
  }

  lemma TakenFrame(h: Heap, units: int, g: Heap, a: int)
    requires Taken(h, units, g, a)
    ensures g.pages == h.pages && g.objs == h.objs && g.bigs == h.bigs
  {
  }

  lemma AllocatedFrame(h: Heap, units: int, offer: Option<int>, m: Heap, a: int)
    requires Allocated(h, units, offer, m, a)
    ensures m.objs == h.objs && m.bigs == h.bigs
    ensures m.pages == h.pages || (offer.Some? && m.pages == h.pages + {offer.value})
  {
    if Taken(h, units, m, a) {
      TakenFrame(h, units, m, a);
    } else {
      var g :| Returned(h, PAGE_UNITS * offer.value, PAGE_UNITS, g)
               && Taken(g.(pages := g.pages + {offer.value}), units, m, a);
      ReturnedFrame(h, PAGE_UNITS * offer.value, PAGE_UNITS, g);
      TakenFrame(g.(pages := g.pages + {offer.value}), units, m, a);
    }
  }

  lemma NodesAdd(b: Big, bigs: seq<Big>)
    ensures Nodes([b] + bigs) == Nodes(bigs) + {Block(b.node, 2)}
  {
    var all := [b] + bigs;
    assert Block(all[0].node, 2) in Nodes(all);
    forall i | 0 <= i < |bigs| ensures Block(bigs[i].node, 2) in Nodes(all) {
      assert all[i + 1] == bigs[i];
    }
  }

  lemma NodesWithout(bigs: seq<Big>, i: int)
    requires 0 <= i < |bigs|
    requires forall i, j :: 0 <= i < j < |bigs| ==> bigs[i].node != bigs[j].node
    ensures Nodes(Without(bigs, i)) == Nodes(bigs) - {Block(bigs[i].node, 2)}
  {
    var rest := Without(bigs, i);
    forall x | x in Nodes(bigs) && x != Block(bigs[i].node, 2) ensures x in Nodes(rest) {
      var j :| 0 <= j < |bigs| && x == Block(bigs[j].node, 2);
      assert rest[if j < i then j else j - 1] == bigs[j];
    }
  }

  /** The state m in which a block has been taken from h but not yet recorded. */
  ghost predicate Between(h: Heap, m: Heap, b: Block) {
    && RingOk(m.blocks, m.rover) && Tiled(m.blocks, Live(h) + {b}, m.pages)
    && m.objs == h.objs && m.bigs == h.bigs && BigsOk(m.objs, m.bigs, m.pages)
    && b !in Live(h)
  }

  lemma AllocatedBetween(h: Heap, units: int, offer: Option<int>, m: Heap, a: int)
    requires Inv(h) && SkipsArena(h.blocks, h.rover, units) && Allocated(h, units, offer, m, a)
    requires offer.Some? ==> FreshPage(h, offer.value)
    ensures Between(h, m, Block(a, units))
    ensures m.pages == h.pages || (offer.Some? && m.pages == h.pages + {offer.value})
  {
    AllocatedTiles(h, units, offer, m, a, Live(h));
    AllocatedFrame(h, units, offer, m, a);
  }

  lemma SmallInv(h: Heap, size: nat, offer: Option<int>, g: Heap, o: Outcome)
    requires Inv(h) && !GetsArena(h, size) && SmallStep(h, size, offer, g, o)
    requires offer.Some? ==> FreshPage(h, offer.value)
    ensures Inv(g)
  {
    var units := ObjectUnits(size);
    if !(NoFit(h.blocks, units) && offer.None?) {
      var m, a :| Allocated(h, units, offer, m, a) && g == m.(objs := m.objs + {Block(a, units)});
      AllocatedBetween(h, units, offer, m, a);
      SmallDone(h, m, Block(a, units));
    }
  }

  lemma SmallDone(h: Heap, m: Heap, b: Block)
    requires Inv(h) && Between(h, m, b) && b.size >= 1
    ensures Inv(m.(objs := m.objs + {b}))
  {
    assert Live(m.(objs := m.objs + {b})) == Live(h) + {b};
  }

  lemma BigInv(h: Heap, size: nat, offer: Option<int>, run: Option<int>, g: Heap, o: Outcome)
    requires Inv(h) && BigStep(h, size, offer, run, g, o) && FairOffers(h, size, offer, run)
    ensures Inv(g)
  {
    if !(NoFit(h.blocks, 2) && offer.None?) {
      var m, a :| && Allocated(h, 2, offer, m, a)
                  && match run
                     case Some(q) => g == m.(bigs := [Big(a, OrderOf(ToInt(size)), q)] + m.bigs)
                     case None => Returned(m, a, 2, g);
      AllocatedBetween(h, 2, offer, m, a);
      if run.None? {
        BigUndone(h, m, a, g);
      } else {
        BigDone(h, m, Big(a, OrderOf(ToInt(size)), run.value));
      }
    }
  }

  lemma BigUndone(h: Heap, m: Heap, a: int, g: Heap)
    requires Inv(h) && Between(h, m, Block(a, 2)) && Returned(m, a, 2, g)
    ensures Inv(g)
  {
    ReturnedFrame(m, a, 2, g);
    ReturnedTiles(m, Block(a, 2), g, Live(h) + {Block(a, 2)});
    assert Live(h) + {Block(a, 2)} - {Block(a, 2)} == Live(g);
  }

  lemma BigDone(h: Heap, m: Heap, big: Big)
    requires Inv(h) && Between(h, m, Block(big.node, 2)) && FreshRun(h, Run(big))
    requires forall p :: p in m.pages ==> !Covers(Run(big), p)
    ensures Inv(m.(bigs := [big] + m.bigs))
  {
    NodesAdd(big, h.bigs);
    assert Live(m.(bigs := [big] + m.bigs)) == Live(h) + {Block(big.node, 2)};
    BigsAdd(h, big, m.pages);
  }

  lemma BigsAdd(h: Heap, big: Big, pages: set<int>)
    requires Inv(h) && Block(big.node, 2) !in Live(h) && FreshRun(h, Run(big)) && BigsOk(h.objs, h.bigs, pages)
    requires forall p :: p in pages ==> !Covers(Run(big), p)
    ensures BigsOk(h.objs, [big] + h.bigs, pages)
  {
    var all := [big] + h.bigs;
    NodesAdd(big, h.bigs);
    assert forall i :: 1 <= i < |all| ==> all[i] == h.bigs[i - 1];
    forall i | 0 <= i < |h.bigs| ensures h.bigs[i].node != big.node {
      assert Block(h.bigs[i].node, 2) in Nodes(h.bigs);
    }
  }

  /** The requests for which kmalloc hands out the static arena. */
  predicate GetsArena(h: Heap, size: nat) {
    size == 0 && h.rover == |h.blocks| - 1
  }

  /**
   Whatever the size and whatever the page allocator answers, kmalloc keeps the invariant, with
   one exception: a request of no bytes when slobfree is on the last block of the ring.
   */
  lemma MallocKeepsInv(h: Heap, size: nat, offer: Option<int>, run: Option<int>, g: Heap, o: Outcome)
    requires Inv(h) && FairOffers(h, size, offer, run) && MallocStep(h, size, offer, run, g, o)
    ensures Inv(g) <==> !GetsArena(h, size)
    ensures GetsArena(h, size) ==> o == Got(ARENA + 1)
  {
    if Accepted(size) {
      if GetsArena(h, size) {
        ArenaBreaksInv(h, offer, g, o);
      } else if IsSmall(size) {
        SmallInv(h, size, offer, g, o);
      } else {
        BigInv(h, size, offer, run, g, o);
      }
    }
  }

  lemma ArenaBreaksInv(h: Heap, offer: Option<int>, g: Heap, o: Outcome)
    requires Inv(h) && GetsArena(h, 0) && SmallStep(h, 0, offer, g, o)
    ensures !Inv(g) && o == Got(ARENA + 1)
  {
    hide Tiled, BigsOk, Separated;
    assert h.blocks[0].size >= 1;
    var m, a :| Allocated(h, 1, offer, m, a) && g == m.(objs := m.objs + {Block(a, 1)}) && o == Got(a + 1);
    TakenFrame(h, 1, m, a);
    OneUnitKeepsRing(h, m, a, Live(h));
    OneUnitIsArena(h, m, a);
    assert Live(g) == Live(h) + {Block(a, 1)};
  }

  lemma OneUnitIsArena(h: Heap, m: Heap, a: int)
    requires RingOk(h.blocks, h.rover) && GetsArena(h, 0) && Taken(h, 1, m, a)
    ensures a == ARENA
  {
    var i :| FirstFit(h.blocks, h.rover, 1, i) && a == h.blocks[i].base && m == TakenAt(h, i, 1);
    OneUnitTakesArena(h.blocks, h.rover, i);
  }

  lemma FreeKeepsInv(h: Heap, ptr: int, g: Heap, run: Option<Block>)
    requires Inv(h) && FreeStep(h, ptr, g, run)
    ensures Inv(g)
  {
    if ptr == NULL {
    } else if exists i :: 0 <= i < |h.bigs| && ptr == PAGE_UNITS * h.bigs[i].page {
      var i :| && 0 <= i < |h.bigs| && ptr == PAGE_UNITS * h.bigs[i].page
               && Returned(h.(bigs := Without(h.bigs, i)), h.bigs[i].node, 2, g);
      FreeBigKeepsInv(h, i, g);
    } else {
      var b :| && b in h.objs && ptr == b.base + 1
               && Returned(h.(objs := h.objs - {b}), b.base, b.size, g);
      FreeSmallKeepsInv(h, b, g);
    }
  }

  lemma FreeSmallKeepsInv(h: Heap, b: Block, g: Heap)
    requires Inv(h) && b in h.objs && Returned(h.(objs := h.objs - {b}), b.base, b.size, g)
    ensures Inv(g)
  {
    ReturnedFrame(h.(objs := h.objs - {b}), b.base, b.size, g);
    ReturnedTiles(h.(objs := h.objs - {b}), b, g, Live(h));
    assert Live(g) == Live(h) - {b};
  }

  lemma FreeBigKeepsInv(h: Heap, i: int, g: Heap)
    requires Inv(h) && 0 <= i < |h.bigs| && Returned(h.(bigs := Without(h.bigs, i)), h.bigs[i].node, 2, g)
    ensures Inv(g)
  {
    var node := Block(h.bigs[i].node, 2);
    assert node in Nodes(h.bigs);
    NodesWithout(h.bigs, i);
    ReturnedFrame(h.(bigs := Without(h.bigs, i)), node.base, 2, g);
    ReturnedTiles(h.(bigs := Without(h.bigs, i)), node, g, Live(h));
    assert Live(g) == Live(h) - {node};
  }

  // ---- Runs ----

  datatype Op = Malloc(size: nat, offer: Option<int>, run: Option<int>) | Free(ptr: int)

  ghost predicate Step(h: Heap, op: Op, g: Heap) {
    match op
    case Malloc(size, offer, run) =>
      !GetsArena(h, size) && Accepted(size) && FairOffers(h, size, offer, run)
      && exists o :: MallocStep(h, size, offer, run, g, o)
    case Free(ptr) =>
      IsPointer(h, ptr) && exists run :: FreeStep(h, ptr, g, run)
  }

  ghost predicate IsRun(hs: seq<Heap>, ops: seq<Op>) {
    && |hs| == |ops| + 1 && hs[0] == START
    && forall i :: 0 <= i < |ops| ==> Step(hs[i], ops[i], hs[i + 1])
  }

  /** Every state of every run of kmalloc and kfree satisfies the invariant. */
  lemma {:induction false} RunKeepsInv(hs: seq<Heap>, ops: seq<Op>, i: int)
    requires IsRun(hs, ops) && 0 <= i < |hs|
    ensures Inv(hs[i])
    decreases i
  {
    if i == 0 {
      StartOk();
    } else {
      RunKeepsInv(hs, ops, i - 1);
      assert Step(hs[i - 1], ops[i - 1], hs[i]);
      match ops[i - 1]
      case Malloc(size, offer, run) =>
        var o :| MallocStep(hs[i - 1], size, offer, run, hs[i], o);
        MallocKeepsInv(hs[i - 1], size, offer, run, hs[i], o);
      case Free(ptr) =>
        var run :| FreeStep(hs[i - 1], ptr, hs[i], run);
        FreeKeepsInv(hs[i - 1], ptr, hs[i], run);
    }
  }

  lemma PageDisjoint(pages: set<int>, p: int)
    requires p !in pages
    ensures CellsOf(PageBlocks(pages)) !! Range(PAGE_UNITS * p, PAGE_UNITS)
  {
    forall u | u in CellsOf(PageBlocks(pages)) ensures u !in Range(PAGE_UNITS * p, PAGE_UNITS) {
      var b :| b in PageBlocks(pages) && Covers(b, u);
    }
  }

  lemma {:induction false} PageUnits(pages: set<int>)
    ensures |CellsOf(PageBlocks(pages))| == PAGE_UNITS * |pages|
    decreases pages
  {
    if pages == {} {
      assert PageBlocks(pages) == {};
      assert CellsOf({}) == {};
    } else {
      assert exists p :: p in pages by {
        assert (forall p :: p !in pages) ==> pages == {};
      }
      var p :| p in pages;
      var rest := pages - {p};
      PageUnits(rest);
      assert PageBlocks(pages) == PageBlocks(rest) + {PageBlock(p)};
      PageDisjoint(rest, p);
      hide CellsOf, Range;
      CellsOfAdd(PageBlocks(rest), PageBlock(p));
      RangeCount(PAGE_UNITS * p, PAGE_UNITS);
    }
  }

  /** Conservation: free units plus live units are 256 for each page obtained. */
  lemma Conservation(h: Heap)
    requires Inv(h)
    ensures (Total(h.blocks) - 1) + SizeOf(Live(h)) == PAGE_UNITS * |h.pages|
  {
    SeparatedIsOrdered(h.blocks);
    TotalIsCount(h.blocks);
    SizeIsCount(Live(h));
    PageUnits(h.pages);
    var pages := CellsOf(PageBlocks(h.pages));
    assert ARENA !in pages;
    assert |Cells(h.blocks) + CellsOf(Live(h))| == |Cells(h.blocks)| + |CellsOf(Live(h))|;
    assert |{ARENA} + pages| == 1 + |pages|;
  }

  /** In every run: live blocks overlap neither each other nor the ring, and no unit is lost. */
  lemma RunSafety(hs: seq<Heap>, ops: seq<Op>, i: int)
    requires IsRun(hs, ops) && 0 <= i < |hs|
    ensures var h := hs[i];
            && (forall b, c :: b in Live(h) && c in Live(h) && b != c ==> !Overlap(b, c))
            && (forall b, k :: b in Live(h) && 0 <= k < |h.blocks| ==> !Overlap(b, h.blocks[k]))
            && RingOk(h.blocks, h.rover)
            && (Total(h.blocks) - 1) + SizeOf(Live(h)) == PAGE_UNITS * |h.pages|
  {
    var h := hs[i];
    RunKeepsInv(hs, ops, i);
    Conservation(h);
    forall b, k | b in Live(h) && 0 <= k < |h.blocks| ensures !Overlap(b, h.blocks[k]) {
      RangeInCellsOf(Live(h), b);
      forall u | u in Range(h.blocks[k].base, h.blocks[k].size) ensures u in Cells(h.blocks) {
        assert Covers(h.blocks[k], u);
        CellsBy(h.blocks, u);
      }
      RangesOverlap(b, h.blocks[k]);
    }
  }

  // ---- Single calls ----

  /** A small object with a byte in it never carries the address of a page run, page-aligned or not. */
  lemma PointersDiffer(h: Heap, b: Block, i: int)
    requires Inv(h) && b in h.objs && 0 <= i < |h.bigs|
    ensures b.size >= 2 ==> b.base + 1 != PAGE_UNITS * h.bigs[i].page
  {
    if b.size >= 2 {
      LiveInPages(h.blocks, Live(h), h.pages, b, b.base + 1);
      Pow2Pos(h.bigs[i].order);
      assert Covers(Run(h.bigs[i]), h.bigs[i].page);
    }
  }

  /** An object with a byte in it, or at least one whose pointer is not that of a page run. */
  ghost predicate NamesNoRun(h: Heap, b: Block) {
    b.size >= 2 || forall i :: 0 <= i < |h.bigs| ==> b.base + 1 != PAGE_UNITS * h.bigs[i].page
  }

  /**
   kfree of a small object releases that object, and nothing else, if and only if the object
   has a byte in it or its pointer is not that of a page run; otherwise it frees the run.
   */
  lemma PointerNamesOne(h: Heap, ptr: int, b: Block, g: Heap, run: Option<Block>)
    requires Inv(h) && b in h.objs && ptr == b.base + 1 && FreeStep(h, ptr, g, run)
    ensures run == None <==> NamesNoRun(h, b)
    ensures b !in g.objs <==> NamesNoRun(h, b)
    ensures NamesNoRun(h, b) ==> Returned(h.(objs := h.objs - {b}), b.base, b.size, g)
  {
    hide Returned;
    LiveInPages(h.blocks, Live(h), h.pages, b, b.base);
    if NamesNoRun(h, b) {
      SmallReleased(h, ptr, b, g, run);
    } else {
      RunReleased(h, ptr, g, run);
    }
  }

  lemma SmallReleased(h: Heap, ptr: int, b: Block, g: Heap, run: Option<Block>)
    requires Inv(h) && b in h.objs && ptr == b.base + 1 != NULL && FreeStep(h, ptr, g, run) && NamesNoRun(h, b)
    ensures Returned(h.(objs := h.objs - {b}), b.base, b.size, g) && run == None && b !in g.objs
  {
    hide Returned;
    forall i | 0 <= i < |h.bigs| ensures ptr != PAGE_UNITS * h.bigs[i].page {
      PointersDiffer(h, b, i);
    }
    var c :| c in h.objs && ptr == c.base + 1 && Returned(h.(objs := h.objs - {c}), c.base, c.size, g);
    assert Overlap(b, c);
    ReturnedFrame(h.(objs := h.objs - {c}), c.base, c.size, g);
  }

  lemma RunReleased(h: Heap, ptr: int, g: Heap, run: Option<Block>)
    requires FreeStep(h, ptr, g, run) && ptr != NULL
    requires exists i :: 0 <= i < |h.bigs| && ptr == PAGE_UNITS * h.bigs[i].page
    ensures run.Some? && run.value.base * PAGE_UNITS == ptr && g.objs == h.objs
  {
    hide Returned;
    var i :| && 0 <= i < |h.bigs| && ptr == PAGE_UNITS * h.bigs[i].page
             && Returned(h.(bigs := Without(h.bigs, i)), h.bigs[i].node, 2, g) && run == Some(Run(h.bigs[i]));
    ReturnedFrame(h.(bigs := Without(h.bigs, i)), h.bigs[i].node, 2, g);
  }

  lemma PagesDiffer(h: Heap)
    requires Inv(h)
    ensures forall i, j :: 0 <= i < j < |h.bigs| ==> h.bigs[i].page != h.bigs[j].page
  {
    forall i, j | 0 <= i < j < |h.bigs| ensures h.bigs[i].page != h.bigs[j].page {
      Pow2Pos(h.bigs[i].order);
      Pow2Pos(h.bigs[j].order);
    }
  }

  // ---- Requests of no bytes ----

  // kmalloc(4020) on page 1, kmalloc(4096) on page 2, kmalloc(0), and kfree of the first.
  const ONE := Heap([Block(ARENA, 1), Block(509, 3)], 0, {1}, {Block(256, 253)}, [])
  const TWO := Heap([Block(ARENA, 1), Block(511, 1)], 0, {1}, {Block(256, 253)}, [Big(509, 0, 2)])
  const THREE := Heap([Block(ARENA, 1)], 0, {1}, {Block(256, 253), Block(511, 1)}, [Big(509, 0, 2)])
  const CLASH := Heap([Block(ARENA, 1), Block(256, 253)], 0, {1}, {Block(511, 1)}, [Big(509, 0, 2)])

  /**
   An object of no bytes at the very end of page 1, a page run behind it, and one pointer for
   both: a run leads there, and kfree then frees the run.
   */
  lemma EmptyObjectClash(g: Heap, run: Option<Block>)
    requires FreeStep(CLASH, 512, g, run)
    ensures IsRun([START, ONE, TWO, THREE, CLASH],
                  [Malloc(4020, Some(1), None), Malloc(4096, None, Some(2)), Malloc(0, None, None), Free(257)])
    ensures Block(511, 1) in CLASH.objs && 512 == 511 + 1
    ensures run == Some(Block(2, 1)) && Block(511, 1) in g.objs
  {
    ClashReached();
    hide Returned;
    assert CLASH.bigs[0].page * PAGE_UNITS == 512;
    RunReleased(CLASH, 512, g, run);
  }

  lemma ClashReached()
    ensures IsRun([START, ONE, TWO, THREE, CLASH],
                  [Malloc(4020, Some(1), None), Malloc(4096, None, Some(2)), Malloc(0, None, None), Free(257)])
  {
    FirstObject();
    PageRun();
    EmptyObject();
    FirstFreed();
    hide Step;
  }

  /** Taking the block behind the rover, which is large enough. */
  lemma TakesNext(h: Heap, units: int, g: Heap)
    requires h.rover == 0 && |h.blocks| == 2 && 0 < units <= h.blocks[1].size && g == TakenAt(h, 1, units)
    ensures Taken(h, units, g, h.blocks[1].base)
  {
    assert Dist(2, 0, 0) == 2 && Dist(2, 0, 1) == 1;
    assert FirstFit(h.blocks, 0, units, 1);
  }

  lemma FirstObject()
    ensures Step(START, Malloc(4020, Some(1), None), ONE)
  {
    var grown := START.(blocks := [Block(ARENA, 1), Block(256, 256)]);
    assert Release(START.blocks, 1, 256, 256) == grown.blocks;
    assert Returned(START, 256, 256, grown);
    var paged := grown.(pages := grown.pages + {1});
    var taken := TakenAt(paged, 1, 253);
    TakesNext(paged, 253, taken);
    assert ONE == taken.(objs := taken.objs + {Block(256, 253)});
    hide Returned, Taken;
    assert Allocated(START, 253, Some(1), taken, 256);
    assert SmallStep(START, 4020, Some(1), ONE, Got(257));
    hide SmallStep;
    assert MallocStep(START, 4020, Some(1), None, ONE, Got(257));
  }

  lemma PageRun()
    ensures Step(ONE, Malloc(4096, None, Some(2)), TWO)
  {
    var taken := TakenAt(ONE, 1, 2);
    TakesNext(ONE, 2, taken);
    assert OrderOf(ToInt(4096)) == 0 && Pow2(0) == 1;
    assert TWO == taken.(bigs := [Big(509, 0, 2)] + taken.bigs);
    hide Taken;
    assert Allocated(ONE, 2, None, taken, 509);
    assert BigStep(ONE, 4096, None, Some(2), TWO, Got(512));
    hide BigStep;
    assert MallocStep(ONE, 4096, None, Some(2), TWO, Got(512));
  }

  lemma EmptyObject()
    ensures Step(TWO, Malloc(0, None, None), THREE)
  {
    var taken := TakenAt(TWO, 1, 1);
    TakesNext(TWO, 1, taken);
    assert THREE == taken.(objs := taken.objs + {Block(511, 1)});
    hide Taken;
    assert Allocated(TWO, 1, None, taken, 511);
    assert SmallStep(TWO, 0, None, THREE, Got(512));
    hide SmallStep;
    assert MallocStep(TWO, 0, None, None, THREE, Got(512));
  }

  lemma FirstFreed()
    ensures Step(THREE, Free(257), CLASH)
  {
    var b, without := Block(256, 253), THREE.(objs := {Block(511, 1)});
    assert b in THREE.objs && THREE.objs - {b} == {Block(511, 1)};
    assert Release(THREE.blocks, 1, 256, 253) == CLASH.blocks;
    assert Returned(without, 256, 253, CLASH);
    hide Returned;
    assert FreeStep(THREE, 257, CLASH, None);
  }

  /** kmalloc(0) twice from the start: the arena both times, at the same pointer. */
  lemma SamePointerTwice(offer: Option<int>, run: Option<int>, g: Heap, o: Outcome,
                         offer': Option<int>, run': Option<int>, g': Heap, o': Outcome)
    requires MallocStep(START, 0, offer, run, g, o) && MallocStep(g, 0, offer', run', g', o')
    ensures o == o' == Got(ARENA + 1) && g.blocks == START.blocks && g.objs == {Block(ARENA, 1)}
  {
    AloneTaken(START, offer, g, o);
    AloneTaken(g, offer', g', o');
  }

  /** A ring of the arena alone gives it to a request of no bytes, and keeps it. */
  lemma AloneTaken(h: Heap, offer: Option<int>, g: Heap, o: Outcome)
    requires h.blocks == [Block(ARENA, 1)] && h.rover == 0 && SmallStep(h, 0, offer, g, o)
    ensures o == Got(ARENA + 1) && g == h.(objs := h.objs + {Block(ARENA, 1)})
  {
    assert !NoFit(h.blocks, 1);
    var m, a :| Allocated(h, 1, offer, m, a) && g == m.(objs := m.objs + {Block(a, 1)}) && o == Got(a + 1);
    assert Taken(h, 1, m, a);
  }

  /** A small object holds at least the bytes asked for, behind its header unit. */
  lemma ObjectIsLargeEnough(size: nat)
    ensures UNIT * (ObjectUnits(size) - 1) >= size
  {
  }

  /**
   kfree undoes kmalloc: when no page was needed, freeing the new object restores the very
   same list of free blocks, whatever was split and joined.
   */
  lemma FreeUndoesMalloc(h: Heap, size: nat, m: Heap, a: int, g: Heap, run: Option<Block>)
    requires Inv(h) && !GetsArena(h, size) && Taken(h, ObjectUnits(size), m, a)
    requires size == 0 ==> NamesNoRun(h, Block(a, 1))
    requires FreeStep(m.(objs := m.objs + {Block(a, ObjectUnits(size))}), a + 1, g, run)
    ensures g.blocks == h.blocks && g.objs == h.objs && g.bigs == h.bigs && g.pages == h.pages
  {
    hide Tiled, BigsOk, Separated, Taken, Returned, FreeStep;
    var b := Block(a, ObjectUnits(size));
    var f := m.(objs := m.objs + {b});
    AllocatedBetween(h, b.size, None, m, a);
    SmallDone(h, m, b);
    PointerNamesOne(f, a + 1, b, g, run);
    assert f.(objs := f.objs - {b}) == m;
    ReturnedFrame(m, a, b.size, g);
    TakenFrame(h, b.size, m, a);
    ReturnedTiles(m, b, g, Live(h) + {b});
    SameCells(h, b.size, m, a, g);
    Canonical(g.blocks, h.blocks);
  }

  lemma SameCells(h: Heap, units: int, m: Heap, a: int, g: Heap)
    requires RingOk(h.blocks, h.rover) && SkipsArena(h.blocks, h.rover, units) && Taken(h, units, m, a)
        && RingOk(m.blocks, m.rover)
    requires Returned(m, a, units, g)
    ensures Cells(g.blocks) == Cells(h.blocks)
  {
    TakenCells(h, units, m, a);
    ReturnedCells(m, a, units, g);
  }

  lemma TakenCells(h: Heap, units: int, g: Heap, a: int)
    requires RingOk(h.blocks, h.rover) && SkipsArena(h.blocks, h.rover, units) && Taken(h, units, g, a)
    ensures Cells(g.blocks) == Cells(h.blocks) - Range(a, units) && Range(a, units) <= Cells(h.blocks)
  {
    var i :| FirstFit(h.blocks, h.rover, units, i) && a == h.blocks[i].base && g == TakenAt(h, i, units);
    FitSkipsArena(h.blocks, h.rover, units, i);
    SeparatedIsOrdered(h.blocks);
    CarveCells(h.blocks, i, units);
  }

  lemma ReturnedCells(h: Heap, b: int, n: int, g: Heap)
    requires RingOk(h.blocks, h.rover) && Returned(h, b, n, g)
    ensures Cells(g.blocks) == Cells(h.blocks) + Range(b, n)
  {
    var k :| 1 <= k && Fits(h.blocks, k, b, n)
             && g == h.(blocks := Release(h.blocks, k, b, n), rover := k - 1);
    SeparatedIsOrdered(h.blocks);
    ReleaseCells(h.blocks, k, b, n);
  }
}
