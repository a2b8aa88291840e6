/**
 First-fit page allocation as a state machine over values (kern/mm/default_pmm.c): the free
 list is the list of its blocks in address order, counted in page frames.
 */
module FirstFitSpec {
  import opened BlockList

  ghost predicate NoneFits(blocks: seq<Block>, n: int) {
    forall i :: 0 <= i < |blocks| ==> blocks[i].size < n
  }

  /** Block i is the lowest one of at least n pages. */
  ghost predicate LowestFit(blocks: seq<Block>, n: int, i: int) {
    && 0 <= i < |blocks| && blocks[i].size >= n
    && forall j :: 0 <= j < i ==> blocks[j].size < n
  }

  /** An insertion at base goes into an empty list or below some listed block. */
  predicate NotTail(blocks: seq<Block>, base: int) {
    blocks == [] || base < blocks[|blocks| - 1].base
  }

  // ---- What the allocator returns, in terms of the plain set of free pages ----

  /** n consecutive free pages start at p. */
  ghost predicate FreeRun(free: set<int>, p: int, n: int) {
    Range(p, n) <= free
  }

  /**
   On a coalesced list, first fit returns the lowest page at which n consecutive pages are
   free, and nothing exactly when there is no such page.
   */
  lemma FirstFitIsLowestRun(blocks: seq<Block>, n: int, i: int)
    requires Separated(blocks) && n > 0 && LowestFit(blocks, n, i)
    ensures FreeRun(Cells(blocks), blocks[i].base, n)
    ensures forall p :: FreeRun(Cells(blocks), p, n) ==> blocks[i].base <= p
  {
    SeparatedIsOrdered(blocks);
    CarveCells(blocks, i, n);
    forall p | FreeRun(Cells(blocks), p, n) ensures blocks[i].base <= p {
      var j := RunInsideBlock(blocks, p, n);
      assert i <= j;
    }
  }

  lemma NoFitIsNoRun(blocks: seq<Block>, n: int)
    requires Separated(blocks) && n > 0
    ensures NoneFits(blocks, n) <==> forall p :: !FreeRun(Cells(blocks), p, n)
  {
    if NoneFits(blocks, n) {
      forall p ensures !FreeRun(Cells(blocks), p, n) {
        if FreeRun(Cells(blocks), p, n) {
          var j := RunInsideBlock(blocks, p, n);
          assert false;
        }
      }
    } else {
      var i :| 0 <= i < |blocks| && blocks[i].size >= n;
      SeparatedIsOrdered(blocks);
      CarveCells(blocks, i, n);
      assert FreeRun(Cells(blocks), blocks[i].base, n);
    }
  }

  /** The early exit on nr_free loses nothing. */
  lemma {:induction false} LargestAtMostTotal(blocks: seq<Block>, i: int, n: int)
    requires forall j :: 0 <= j < |blocks| ==> blocks[j].size > 0
    requires 0 <= i < n <= |blocks|
    ensures blocks[i].size <= TotalTo(blocks, n)
    decreases n
  {
    TotalNotNegative(blocks, n - 1);
    if i < n - 1 {
      LargestAtMostTotal(blocks, i, n - 1);
    }
  }

  lemma {:induction false} TotalNotNegative(blocks: seq<Block>, n: int)
    requires forall j :: 0 <= j < |blocks| ==> blocks[j].size > 0
    requires 0 <= n <= |blocks|
    ensures TotalTo(blocks, n) >= 0
    decreases n
  {
    if n > 0 {
      TotalNotNegative(blocks, n - 1);
    }
  }

  // ---- Steps and runs ----

  /**
   The free list, the bases of its torn blocks, and the pages handed out.  A torn block is
   one that was appended at the tail: its `prev` link leads to itself.
   */
  datatype Area = Area(blocks: seq<Block>, torn: set<int>, held: set<int>)

  function BaseAt(blocks: seq<Block>, i: int): set<int> {
    if 0 <= i < |blocks| then {blocks[i].base} else {}
  }

  /** Taking n pages from block i, which mends the block behind it. */
  ghost function Taken(a: Area, i: int, n: int): Area
    requires 0 <= i < |a.blocks| && 0 < n <= a.blocks[i].size
  {
    Area(Carve(a.blocks, i, n), a.torn - BaseAt(a.blocks, i + 1), a.held + Range(a.blocks[i].base, n))
  }

  /** Giving n pages from p on back at position k: at the tail they are listed unjoined, and torn. */
  ghost function Freed(a: Area, k: int, p: int, n: int): Area
    requires Fits(a.blocks, k, p, n)
  {
    if NotTail(a.blocks, p) then
      Area(Release(a.blocks, k, p, n),
           if JoinsRight(a.blocks, k, p + n) == 1 then a.torn - BaseAt(a.blocks, k + 1) else a.torn,
           a.held - Range(p, n))
    else Area(a.blocks + [Block(p, n)], a.torn + {p}, a.held - Range(p, n))
  }

  /** Allocating n pages; a run ends before the first fit is a torn block. */
  ghost predicate AllocStep(a: Area, n: int, b: Area) {
    n > 0 &&
    if NoneFits(a.blocks, n) then b == a
    else exists i :: LowestFit(a.blocks, n, i) && a.blocks[i].base !in a.torn && b == Taken(a, i, n)
  }

  /** Freeing any range of held pages; a run ends before it goes directly below a torn block. */
  ghost predicate FreeStep(a: Area, p: int, n: int, b: Area) {
    n > 0 && Range(p, n) <= a.held
    && exists k :: Fits(a.blocks, k, p, n) && BaseAt(a.blocks, k) !! a.torn && b == Freed(a, k, p, n)
  }

  /** The list is sorted and disjoint, and together with what is held it covers the managed pages exactly. */
  ghost predicate AreaOk(a: Area, managed: set<int>) {
    && Ordered(a.blocks)
    && Cells(a.blocks) !! a.held
    && Cells(a.blocks) + a.held == managed
  }

  /** The list is coalesced, and linked both ways throughout. */
  ghost predicate Whole(a: Area) {
    Separated(a.blocks) && a.torn == {}
  }

  lemma AllocKeepsArea(a: Area, n: int, b: Area, managed: set<int>)
    requires AreaOk(a, managed) && AllocStep(a, n, b)
    ensures AreaOk(b, managed)
    ensures Whole(a) ==> Whole(b)
    ensures |b.held| == |a.held| + if NoneFits(a.blocks, n) then 0 else n
  {
    if !NoneFits(a.blocks, n) {
      var i :| LowestFit(a.blocks, n, i) && a.blocks[i].base !in a.torn && b == Taken(a, i, n);
      TakenKeepsArea(a, i, n, managed);
    }
  }

  lemma TakenKeepsArea(a: Area, i: int, n: int, managed: set<int>)
    requires AreaOk(a, managed) && LowestFit(a.blocks, n, i) && n > 0
    ensures var b := Taken(a, i, n); AreaOk(b, managed) && |b.held| == |a.held| + n && (Whole(a) ==> Whole(b))
  {
    hide Separated, Ordered, Cells, Range, Carve;
    CarveOrdered(a.blocks, i, n);
    CarveCells(a.blocks, i, n);
    RangeCount(a.blocks[i].base, n);
    if Separated(a.blocks) {
      CarveSeparated(a.blocks, i, n);
    }
  }

  lemma FreeKeepsArea(a: Area, p: int, n: int, b: Area, managed: set<int>)
    requires AreaOk(a, managed) && FreeStep(a, p, n, b)
    ensures AreaOk(b, managed)
    ensures Whole(a) ==> (Whole(b) <==> NotTail(a.blocks, p))
  {
    var k :| Fits(a.blocks, k, p, n) && BaseAt(a.blocks, k) !! a.torn && b == Freed(a, k, p, n);
    FreedKeepsArea(a, k, p, n, managed);
  }

  lemma FreedKeepsArea(a: Area, k: int, p: int, n: int, managed: set<int>)
    requires AreaOk(a, managed) && Fits(a.blocks, k, p, n) && Range(p, n) <= a.held
    ensures var b := Freed(a, k, p, n); AreaOk(b, managed) && (Whole(a) ==> (Whole(b) <==> NotTail(a.blocks, p)))
  {
    if NotTail(a.blocks, p) {
      hide Separated, Ordered, Cells, Range, Release;
      ReleaseOrdered(a.blocks, k, p, n);
      ReleaseCells(a.blocks, k, p, n);
      if Separated(a.blocks) {
        ReleaseSeparated(a.blocks, k, p, n);
      }
    } else {
      Appended(a.blocks, k, p, n);
      hide Separated, Ordered, Cells, Range;
      assert p in a.torn + {p};
    }
  }

  /** Page 1 freed next to the free page 0: listed behind it, unjoined and torn. */
  lemma TailExample()
    ensures var a := Area([Block(0, 1)], {}, {1});
            && AreaOk(a, {0, 1}) && Whole(a) && Fits(a.blocks, 1, 1, 1)
            && Freed(a, 1, 1, 1) == Area([Block(0, 1), Block(1, 1)], {1}, {})
            && !Whole(Freed(a, 1, 1, 1))
  {
    Singleton(Block(0, 1));
    assert Range(0, 1) == {0} && Range(1, 1) == {1};
  }

  lemma Appended(blocks: seq<Block>, k: int, p: int, n: int)
    requires Ordered(blocks) && Fits(blocks, k, p, n) && !NotTail(blocks, p)
    ensures k == |blocks| && Ordered(blocks + [Block(p, n)])
    ensures Cells(blocks + [Block(p, n)]) == Cells(blocks) + Range(p, n)
  {
    Append(blocks, [Block(p, n)]);
    Singleton(Block(p, n));
  }

  datatype Op = Alloc(n: int) | Free(p: int, n: int)

  ghost predicate Step(a: Area, op: Op, b: Area) {
    match op
    case Alloc(n) => AllocStep(a, n, b)
    case Free(p, n) => FreeStep(a, p, n, b)
  }

  /** A run from a coalesced list with nothing handed out. */
  ghost predicate IsRun(areas: seq<Area>, ops: seq<Op>) {
    && |areas| == |ops| + 1 && Whole(areas[0]) && areas[0].held == {}
    && forall i :: 0 <= i < |ops| ==> Step(areas[i], ops[i], areas[i + 1])
  }

  /** No free among the first i steps appends at the tail. */
  ghost predicate NoTails(areas: seq<Area>, ops: seq<Op>, i: int)
    requires 0 <= i <= |ops| < |areas|
  {
    forall j :: 0 <= j < i && ops[j].Free? ==> NotTail(areas[j].blocks, ops[j].p)
  }

  /**
   In every run the list stays sorted and disjoint, no page is handed out twice, and free plus
   held pages are always the same pages.  Until a tail append the list also stays coalesced
   and linked both ways.
   */
  lemma {:induction false} RunKeepsArea(areas: seq<Area>, ops: seq<Op>, i: int)
    requires IsRun(areas, ops) && 0 <= i < |areas|
    ensures AreaOk(areas[i], Cells(areas[0].blocks))
    ensures Total(areas[i].blocks) + |areas[i].held| == Total(areas[0].blocks)
    ensures NoTails(areas, ops, i) ==> Whole(areas[i])
    decreases i
  {
    var managed := Cells(areas[0].blocks);
    hide Cells, Separated, Ordered;
    SeparatedIsOrdered(areas[0].blocks);
    if i > 0 {
      RunKeepsArea(areas, ops, i - 1);
      assert Step(areas[i - 1], ops[i - 1], areas[i]);
      match ops[i - 1]
      case Alloc(n) => AllocKeepsArea(areas[i - 1], n, areas[i], managed);
      case Free(p, n) => FreeKeepsArea(areas[i - 1], p, n, areas[i], managed);
    }
    AreaCount(areas[i], managed);
    AreaCount(areas[0], managed);
  }

  lemma AreaCount(a: Area, managed: set<int>)
    requires AreaOk(a, managed)
    ensures Total(a.blocks) + |a.held| == |managed|
  {
    TotalIsCount(a.blocks);
    assert |Cells(a.blocks) + a.held| == |Cells(a.blocks)| + |a.held|;
  }

  /** Freeing what was just allocated restores the very same list, if the free is not a tail append. */
  lemma FreeUndoesAlloc(a: Area, n: int, i: int, c: Area, managed: set<int>)
    requires AreaOk(a, managed) && Whole(a) && n > 0 && LowestFit(a.blocks, n, i)
    requires var p := a.blocks[i].base;
             FreeStep(Taken(a, i, n), p, n, c) && NotTail(Carve(a.blocks, i, n), p)
    ensures c == a
  {
    hide Separated, Ordered, Cells, Range, Carve, Release;
    var b, p := Taken(a, i, n), a.blocks[i].base;
    CarveSeparated(a.blocks, i, n);
    CarveCells(a.blocks, i, n);
    var k :| Fits(b.blocks, k, p, n) && BaseAt(b.blocks, k) !! b.torn && c == Freed(b, k, p, n);
    ReleaseSeparated(b.blocks, k, p, n);
    SeparatedIsOrdered(b.blocks);
    ReleaseCells(b.blocks, k, p, n);
    assert a.held + Range(p, n) - Range(p, n) == a.held;
    Canonical(c.blocks, a.blocks);
  }

  /** That insertion is not at the tail exactly when there is a remainder, a higher block, or nothing else. */
  lemma UndoNotTail(blocks: seq<Block>, n: int, i: int)
    requires Separated(blocks) && n > 0 && LowestFit(blocks, n, i)
    ensures NotTail(Carve(blocks, i, n), blocks[i].base)
            <==> n < blocks[i].size || i < |blocks| - 1 || |blocks| == 1
  {
  }
}
