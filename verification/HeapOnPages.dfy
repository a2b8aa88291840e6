/**
 kmalloc and kfree on top of the first-fit page allocator (kern/mm/kmalloc.c on
 kern/mm/default_pmm.c), beside other users of pages: the answers that kmalloc relies on are
 derived here, not assumed.
 */
module HeapOnPages {
  import opened Wrappers
  import opened BlockList
  import opened SlobSpec
  import opened KmallocSpec
  import P = FirstFitSpec

  datatype Memory = Memory(h: Heap, a: P.Area)

  ghost function Runs(bigs: seq<Big>): set<Block> {
    set i | 0 <= i < |bigs| :: Run(bigs[i])
  }

  /** The pages in use by the heap, for small objects and for page runs. */
  ghost function HeapPages(h: Heap): set<int> {
    h.pages + CellsOf(Runs(h.bigs))
  }

  /** Heap and page allocator agree: what the heap uses is held. */
  ghost predicate Agree(m: Memory, managed: set<int>) {
    && Inv(m.h) && P.AreaOk(m.a, managed)
    && HeapPages(m.h) <= m.a.held
    && forall p :: p in managed ==> p > 0
  }

  // ---- Steps ----

  /** alloc_pages(n) and its answer. */
  ghost predicate Request(a: P.Area, n: int, answer: Option<int>, b: P.Area) {
    && P.AllocStep(a, n, b)
    && match answer
       case None => b == a
       case Some(p) => Range(p, n) <= Cells(a.blocks) && b.held == a.held + Range(p, n)
  }

  /** The block kmalloc takes from the ring: an object with its header, or a node. */
  function RingUnits(size: nat): int {
    if IsSmall(size) then ObjectUnits(size) else 2
  }

  function RunSize(size: nat): int {
    Pow2(OrderOf(ToInt(size)))
  }

  /** kmalloc with its requests: a page if nothing fits, then a run for a big block. */
  ghost predicate Malloc(m: Memory, size: nat, mid: P.Area, offer: Option<int>, run: Option<int>, g: Memory,
                         o: Outcome) {
    && Accepted(size)
    && (if NoFit(m.h.blocks, RingUnits(size)) then Request(m.a, 1, offer, mid) else offer == None && mid == m.a)
    && (if IsSmall(size) || (NoFit(m.h.blocks, 2) && offer.None?) then run == None && g.a == mid
        else Request(mid, RunSize(size), run, g.a))
    && MallocStep(m.h, size, offer, run, g.h, o)
  }

  /** kfree, which hands a page run back. */
  ghost predicate Free(m: Memory, ptr: int, run: Option<Block>, g: Memory) {
    && IsPointer(m.h, ptr) && FreeStep(m.h, ptr, g.h, run)
    && match run
       case None => g.a == m.a
       case Some(x) => P.FreeStep(m.a, x.base, x.size, g.a)
  }

  // ---- The answers are fair ----

  lemma HeldByHeap(h: Heap, held: set<int>, p: int)
    requires HeapPages(h) <= held && p !in held
    ensures p !in h.pages && forall i :: 0 <= i < |h.bigs| ==> !Covers(Run(h.bigs[i]), p)
  {
    forall i | 0 <= i < |h.bigs| ensures !Covers(Run(h.bigs[i]), p) {
      assert Run(h.bigs[i]) in Runs(h.bigs);
    }
  }

  lemma FreeIsFresh(m: Memory, managed: set<int>, p: int)
    requires Agree(m, managed) && p in Cells(m.a.blocks)
    ensures FreshPage(m.h, p)
  {
    hide Inv;
    HeldByHeap(m.h, m.a.held, p);
  }

  /** A run of free pages overlaps nothing that the heap uses. */
  lemma FreeRunIsFresh(m: Memory, managed: set<int>, free: set<int>, x: Block)
    requires Agree(m, managed) && free <= Cells(m.a.blocks) && x.size > 0 && Range(x.base, x.size) <= free
    ensures FreshRun(m.h, x)
  {
    hide Inv;
    assert x.base in Range(x.base, x.size);
    forall p | Covers(x, p) ensures p !in m.h.pages {
      assert p in Range(x.base, x.size);
      HeldByHeap(m.h, m.a.held, p);
    }
    forall i | 0 <= i < |m.h.bigs| ensures !Overlap(Run(m.h.bigs[i]), x) {
      var y := Run(m.h.bigs[i]);
      Pow2Pos(m.h.bigs[i].order);
      var p := if x.base < y.base then y.base else x.base;
      if Overlap(y, x) {
        assert p in Range(x.base, x.size) && Covers(y, p);
        HeldByHeap(m.h, m.a.held, p);
      }
    }
  }

  /** Whatever the page allocator answers clashes with nothing: what kmalloc relies on holds. */
  lemma AnswersAreFair(m: Memory, managed: set<int>, size: nat, mid: P.Area, offer: Option<int>, run: Option<int>,
                       g: Memory, o: Outcome)
    requires Agree(m, managed) && Malloc(m, size, mid, offer, run, g, o)
    ensures FairOffers(m.h, size, offer, run)
  {
    hide Inv, MallocStep, NoFit, FreshPage, FreshRun, P.AllocStep;
    if offer.Some? {
      assert offer.value in Range(offer.value, 1);
      FreeIsFresh(m, managed, offer.value);
    }
    if run.Some? {
      var x := Block(run.value, RunSize(size));
      Pow2Pos(OrderOf(ToInt(size)));
      RequestTakes(m.a, 1, offer, mid, managed);
      FreeRunIsFresh(m, managed, Cells(mid.blocks), x);
      assert offer.Some? ==> offer.value in mid.held && offer.value !in Range(x.base, x.size);
    }
  }

  /** A request, made or not, leaves fewer free pages and more held, the answer among them. */
  lemma RequestTakes(a: P.Area, n: int, answer: Option<int>, b: P.Area, managed: set<int>)
    requires P.AreaOk(a, managed) && (if answer.None? then b == a || Request(a, n, answer, b)
        else Request(a, n, answer, b))
    ensures P.AreaOk(b, managed) && Cells(b.blocks) <= Cells(a.blocks) && a.held <= b.held
    ensures answer.Some? ==> Range(answer.value, n) <= b.held
  {
    if b != a {
      P.AllocKeepsArea(a, n, b, managed);
    }
  }

  // ---- Every step keeps the agreement ----

  lemma RunsAdd(big: Big, bigs: seq<Big>)
    ensures CellsOf(Runs([big] + bigs)) == CellsOf(Runs(bigs)) + Range(Run(big).base, Run(big).size)
  {
    var all := [big] + bigs;
    assert Runs(all) == Runs(bigs) + {Run(big)} by {
      forall i | 0 <= i < |bigs| ensures Run(bigs[i]) in Runs(all) {
        assert all[i + 1] == bigs[i];
      }
      assert Run(all[0]) in Runs(all);
    }
    CellsOfAdd(Runs(bigs), Run(big));
  }

  /** The big-block list is as before, or has a node for the run in front. */
  ghost predicate BigsGrow(bigs: seq<Big>, size: nat, run: Option<int>, bigs': seq<Big>) {
    || bigs' == bigs
    || (run.Some? && bigs' != [] && bigs' == [Big(bigs'[0].node, OrderOf(ToInt(size)), run.value)] + bigs)
  }

  /** The pages the heap uses after kmalloc are those from before and what it was given. */
  lemma MallocUses(h: Heap, size: nat, offer: Option<int>, run: Option<int>, g: Heap, o: Outcome)
    requires MallocStep(h, size, offer, run, g, o)
    ensures g.pages <= h.pages + (if offer.Some? then {offer.value} else {})
    ensures BigsGrow(h.bigs, size, run, g.bigs)
  {
    hide Allocated, Returned, NoFit;
    if Accepted(size) {
      if IsSmall(size) {
        SmallUses(h, size, offer, g, o);
      } else {
        BigUses(h, size, offer, run, g, o);
      }
    }
  }

  lemma SmallUses(h: Heap, size: nat, offer: Option<int>, g: Heap, o: Outcome)
    requires SmallStep(h, size, offer, g, o)
    ensures g.pages <= h.pages + (if offer.Some? then {offer.value} else {}) && g.bigs == h.bigs
  {
    hide Allocated;
    var units := ObjectUnits(size);
    if !(NoFit(h.blocks, units) && offer.None?) {
      var m, a :| Allocated(h, units, offer, m, a) && g == m.(objs := m.objs + {Block(a, units)});
      AllocatedFrame(h, units, offer, m, a);
    }
  }

  lemma BigUses(h: Heap, size: nat, offer: Option<int>, run: Option<int>, g: Heap, o: Outcome)
    requires BigStep(h, size, offer, run, g, o)
    ensures g.pages <= h.pages + (if offer.Some? then {offer.value} else {})
    ensures BigsGrow(h.bigs, size, run, g.bigs)
  {
    hide Allocated, Returned;
    if !(NoFit(h.blocks, 2) && offer.None?) {
      var m, a :| && Allocated(h, 2, offer, m, a)
                  && match run
                     case Some(q) => g == m.(bigs := [Big(a, OrderOf(ToInt(size)), q)] + m.bigs)
                     case None => Returned(m, a, 2, g);
      AllocatedFrame(h, 2, offer, m, a);
      if run.None? {
        ReturnedFrame(m, a, 2, g);
      }
    }
  }

  lemma MallocAgrees(m: Memory, managed: set<int>, size: nat, mid: P.Area, offer: Option<int>, run: Option<int>,
                     g: Memory, o: Outcome)
    requires Agree(m, managed) && Malloc(m, size, mid, offer, run, g, o) && !GetsArena(m.h, size)
    ensures Agree(g, managed)
  {
    AnswersAreFair(m, managed, size, mid, offer, run, g, o);
    MallocKeepsInv(m.h, size, offer, run, g.h, o);
    MallocUses(m.h, size, offer, run, g.h, o);
    hide Inv, MallocStep, FairOffers, NoFit, P.AllocStep, P.AreaOk, HeapPages, Request, GetsArena, Range;
    RequestTakes(m.a, 1, offer, mid, managed);
    RequestTakes(mid, RunSize(size), run, g.a, managed);
    UsesWithin(m.h, size, offer, run, g.h, m.a.held, mid.held, g.a.held);
  }

  lemma UsesWithin(h: Heap, size: nat, offer: Option<int>, run: Option<int>, g: Heap, a: set<int>, mid: set<int>,
                   b: set<int>)
    requires HeapPages(h) <= a && a <= mid && mid <= b
    requires offer.Some? ==> Range(offer.value, 1) <= mid
    requires run.Some? ==> Range(run.value, RunSize(size)) <= b
    requires g.pages <= h.pages + (if offer.Some? then {offer.value} else {})
    requires BigsGrow(h.bigs, size, run, g.bigs)
    ensures HeapPages(g) <= b
  {
    assert offer.Some? ==> offer.value in Range(offer.value, 1);
    hide Range;
    if g.bigs != h.bigs {
      RunsAdd(g.bigs[0], h.bigs);
    }
  }

  lemma FreeAgrees(m: Memory, managed: set<int>, ptr: int, run: Option<Block>, g: Memory)
    requires Agree(m, managed) && Free(m, ptr, run, g)
    ensures Agree(g, managed)
  {
    FreeKeepsInv(m.h, ptr, g.h, run);
    FreeUses(m.h, ptr, run, g.h);
    if run.Some? {
      P.FreeKeepsArea(m.a, run.value.base, run.value.size, g.a, managed);
    }
  }

  /** kfree gives up exactly the pages of the run. */
  lemma FreeUses(h: Heap, ptr: int, run: Option<Block>, g: Heap)
    requires Inv(h) && FreeStep(h, ptr, g, run)
    ensures HeapPages(g) == HeapPages(h) - (if run.Some? then Range(run.value.base, run.value.size) else {})
  {
    hide Returned, Tiled, RingOk;
    if ptr == NULL {
    } else if exists i :: 0 <= i < |h.bigs| && ptr == PAGE_UNITS * h.bigs[i].page {
      var i :| && 0 <= i < |h.bigs| && ptr == PAGE_UNITS * h.bigs[i].page
               && Returned(h.(bigs := Without(h.bigs, i)), h.bigs[i].node, 2, g) && run == Some(Run(h.bigs[i]));
      ReturnedFrame(h.(bigs := Without(h.bigs, i)), h.bigs[i].node, 2, g);
      RunsWithout(h, i);
    } else {
      var b :| b in h.objs && ptr == b.base + 1 && Returned(h.(objs := h.objs - {b}), b.base, b.size, g);
      ReturnedFrame(h.(objs := h.objs - {b}), b.base, b.size, g);
    }
  }

  lemma RunsWithout(h: Heap, i: int)
    requires BigsOk(h.objs, h.bigs, h.pages) && 0 <= i < |h.bigs|
    ensures HeapPages(h.(bigs := Without(h.bigs, i))) == HeapPages(h) - Range(Run(h.bigs[i]).base, Run(h.bigs[i]).size)
  {
    var x, rest := Run(h.bigs[i]), Without(h.bigs, i);
    RunsApart(h);
    assert x in Runs(h.bigs) && CellsOf(Runs(h.bigs)) >= Range(x.base, x.size) by { RangeInCellsOf(Runs(h.bigs), x); }
    assert Runs(rest) == Runs(h.bigs) - {x} by {
      forall y | y in Runs(h.bigs) && y != x ensures y in Runs(rest) {
        var j :| 0 <= j < |h.bigs| && y == Run(h.bigs[j]);
        assert rest[if j < i then j else j - 1] == h.bigs[j];
      }
      forall j | 0 <= j < |rest| ensures Run(rest[j]) in Runs(h.bigs) && Run(rest[j]) != x {
        assert rest[j] == h.bigs[if j < i then j else j + 1];
      }
    }
    CellsOfRemove(Runs(h.bigs), x);
    assert h.pages !! Range(x.base, x.size);
  }

  /** Page runs are not empty and do not overlap. */
  lemma RunsApart(h: Heap)
    requires BigsOk(h.objs, h.bigs, h.pages)
    ensures NoOverlap(Runs(h.bigs))
    ensures forall i, j :: 0 <= i < |h.bigs| && 0 <= j < |h.bigs| && i != j ==> Run(h.bigs[i]) != Run(h.bigs[j])
  {
    forall i | 0 <= i < |h.bigs| ensures Run(h.bigs[i]).size >= 1 {
      Pow2Pos(h.bigs[i].order);
    }
  }

  // ---- Runs ----

  /** One step of the heap, or of another user of pages, who frees only what the heap does not use. */
  ghost predicate Step(m: Memory, g: Memory) {
    || (exists size, mid, offer, run, o :: Malloc(m, size, mid, offer, run, g, o) && !GetsArena(m.h, size))
    || (exists ptr, run :: Free(m, ptr, run, g))
    || (g.h == m.h && exists n :: P.AllocStep(m.a, n, g.a))
    || (g.h == m.h && exists p, n :: Range(p, n) !! HeapPages(m.h) && P.FreeStep(m.a, p, n, g.a))
  }

  /** A run from an empty heap and a coalesced list of pages, none of them page 0 and none held. */
  ghost predicate IsRun(ms: seq<Memory>) {
    && ms != [] && ms[0].h == START && P.Whole(ms[0].a) && ms[0].a.held == {}
    && (forall p :: p in Cells(ms[0].a.blocks) ==> p > 0)
    && forall i :: 0 <= i < |ms| - 1 ==> Step(ms[i], ms[i + 1])
  }

  lemma StepAgrees(m: Memory, g: Memory, managed: set<int>)
    requires Agree(m, managed) && Step(m, g)
    ensures Agree(g, managed)
  {
    hide Malloc, Free, Inv, P.AreaOk, HeapPages, GetsArena;
    if size, mid, offer, run, o :| Malloc(m, size, mid, offer, run, g, o) && !GetsArena(m.h, size) {
      MallocAgrees(m, managed, size, mid, offer, run, g, o);
    } else if ptr, run :| Free(m, ptr, run, g) {
      FreeAgrees(m, managed, ptr, run, g);
    } else if g.h == m.h && exists n :: P.AllocStep(m.a, n, g.a) {
      var n :| P.AllocStep(m.a, n, g.a);
      OtherAllocates(m, n, g, managed);
    } else {
      var p, n :| Range(p, n) !! HeapPages(m.h) && P.FreeStep(m.a, p, n, g.a);
      P.FreeKeepsArea(m.a, p, n, g.a, managed);
    }
  }

  lemma OtherAllocates(m: Memory, n: int, g: Memory, managed: set<int>)
    requires Agree(m, managed) && g.h == m.h && P.AllocStep(m.a, n, g.a)
    ensures Agree(g, managed)
  {
    P.AllocKeepsArea(m.a, n, g.a, managed);
  }

  /**
   In every run of kmalloc, kfree and other users of pages: the heap invariant holds, every
   page is free or held, never both, and the heap's pages are held.
   */
  lemma {:induction false} RunAgrees(ms: seq<Memory>, i: int)
    requires IsRun(ms) && 0 <= i < |ms|
    ensures Agree(ms[i], Cells(ms[0].a.blocks))
    decreases i
  {
    if i == 0 {
      StartOk();
      SeparatedIsOrdered(ms[0].a.blocks);
      assert HeapPages(START) == {};
    } else {
      RunAgrees(ms, i - 1);
      StepAgrees(ms[i - 1], ms[i], Cells(ms[0].a.blocks));
    }
  }
}
