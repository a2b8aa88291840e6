/**
 Where the heap goes on (kern/mm/kmalloc.c): what the position left in slobfree by one call
 means for the next request.
 */
module NextFit {
  import opened Wrappers
  import opened BlockList
  import opened SlobSpec
  import opened KmallocSpec
  import opened SlobHeap

  /** Between the block just below b and b itself a search may start anywhere. */
  lemma PivotMoves(blocks: seq<Block>, s: int, b: int, units: int, a: int)
    requires JustBelow(blocks, s, b) && NextFrom(blocks, s + 1, units, a)
    ensures NextFrom(blocks, b, units, a)
  {
  }

  /** A block at the pivot that has room is the next fit. */
  lemma PivotServes(blocks: seq<Block>, b: int, units: int, a: int, i: int)
    requires NextFrom(blocks, b, units, a)
    requires 0 <= i < |blocks| && blocks[i].base == b && blocks[i].size >= units
    ensures a == b
  {
  }

  /** The next request after a block b has been put back: the lowest fit from b on, else the lowest. */
  lemma AfterFree(h: Heap, b: int, n: int, g: Heap, units: int, f: Heap, a: int)
    requires RingOk(h.blocks, h.rover) && b > ARENA + 1 && Returned(h, b, n, g) && Taken(g, units, f, a)
    ensures NextFrom(g.blocks, b, units, a)
  {
    var k :| 1 <= k && Fits(h.blocks, k, b, n)
             && g == h.(blocks := Release(h.blocks, k, b, n), rover := k - 1);
    ReleasedAbove(h.blocks, k, b, n);
    RingRelease(h.blocks, k, b, n);
    NextTaken(g, h.blocks[k - 1].base, b, units, f, a);
  }

  lemma NextTaken(g: Heap, s: int, b: int, units: int, f: Heap, a: int)
    requires RingOk(g.blocks, g.rover) && g.blocks[g.rover].base == s
    requires JustBelow(g.blocks, s, b) && Taken(g, units, f, a)
    ensures NextFrom(g.blocks, b, units, a)
  {
    var i :| FirstFit(g.blocks, g.rover, units, i) && a == g.blocks[i].base && f == TakenAt(g, i, units);
    FitByAddress(g.blocks, g.rover, units, i);
    PivotMoves(g.blocks, s, b, units, a);
  }

  /**
   After a free that joins nothing below, the next request that the freed block can serve, by
   itself or with the free block that followed it, gets the address just freed.
   */
  lemma FreedIsNext(h: Heap, b: int, n: int, g: Heap, units: int, f: Heap, a: int)
    requires RingOk(h.blocks, h.rover) && b > ARENA + 1 && Returned(h, b, n, g) && Taken(g, units, f, a)
    requires forall i :: 0 <= i < |h.blocks| ==> h.blocks[i].base + h.blocks[i].size != b
    requires units <= n || exists i :: 0 <= i < |h.blocks| && h.blocks[i].base == b + n && units <= n + h.blocks[i].size
    ensures a == b
  {
    AfterFree(h, b, n, g, units, f, a);
    var k :| 1 <= k && Fits(h.blocks, k, b, n)
             && g == h.(blocks := Release(h.blocks, k, b, n), rover := k - 1);
    FollowedBy(h.blocks, k, b, n);
    ReleasedAt(h.blocks, k, b, n);
    hide NextFrom, Separated, Taken, Returned, Release, Joined;
    PivotServes(g.blocks, b, units, a, k);
  }

  lemma ReleasedAt(blocks: seq<Block>, k: int, b: int, n: int)
    requires Fits(blocks, k, b, n) && JoinsLeft(blocks, k, b) == 0
    ensures k < |Release(blocks, k, b, n)|
    ensures Release(blocks, k, b, n)[k]
            == Block(b, n + if k < |blocks| && blocks[k].base == b + n then blocks[k].size else 0)
  {
    SplicedAt(blocks, k, k + JoinsRight(blocks, k, b + n), Joined(blocks, k, b, n), k);
  }

  /** A free block that starts at the end of the released one is the one it is joined with. */
  lemma FollowedBy(blocks: seq<Block>, k: int, b: int, n: int)
    requires Separated(blocks) && Fits(blocks, k, b, n)
    ensures forall i :: 0 <= i < |blocks| && blocks[i].base == b + n ==> i == k
  {
  }

  /** The next request after one that got a: the lowest fit above a, else the lowest. */
  lemma AfterTake(h: Heap, units: int, g: Heap, a: int, more: int, f: Heap, c: int)
    requires RingOk(h.blocks, h.rover) && SkipsArena(h.blocks, h.rover, units) && Taken(h, units, g, a)
    requires Taken(g, more, f, c)
    ensures NextFrom(g.blocks, a, more, c)
  {
    var i :| FirstFit(h.blocks, h.rover, units, i) && a == h.blocks[i].base && g == TakenAt(h, i, units);
    FitSkipsArena(h.blocks, h.rover, units, i);
    CarveSeparated(h.blocks, i, units);
    CarvedAbove(h.blocks, i, units);
    NextTaken(g, h.blocks[i - 1].base, a, more, f, c);
  }

  /** After a split, the next request that the remainder can serve gets it. */
  lemma RemainderIsNext(h: Heap, units: int, g: Heap, a: int, more: int, f: Heap, c: int)
    requires RingOk(h.blocks, h.rover) && SkipsArena(h.blocks, h.rover, units) && Taken(h, units, g, a)
    requires Taken(g, more, f, c)
    requires exists i :: 0 <= i < |h.blocks| && h.blocks[i].base == a && units + more <= h.blocks[i].size
    ensures c == a + units
  {
    var i :| FirstFit(h.blocks, h.rover, units, i) && a == h.blocks[i].base && g == TakenAt(h, i, units);
    FitSkipsArena(h.blocks, h.rover, units, i);
    AfterTake(h, units, g, a, more, f, c);
    assert more > 0;
    SameBase(h.blocks, i, i);
    var j :| 0 <= j < |h.blocks| && h.blocks[j].base == a && units + more <= h.blocks[j].size;
    SameBase(h.blocks, i, j);
    assert g.blocks[i] == Block(a + units, h.blocks[i].size - units);
    RemainderServes(h.blocks, i, units, more, c);
  }

  lemma RemainderServes(blocks: seq<Block>, i: int, units: int, more: int, c: int)
    requires Separated(blocks) && 1 <= i < |blocks| && 0 < units && 0 < more && units + more <= blocks[i].size
    requires NextFrom(Carve(blocks, i, units), blocks[i].base, more, c)
    ensures c == blocks[i].base + units
  {
    var cs, x := Carve(blocks, i, units), blocks[i].base + units;
    assert cs[i] == Block(x, blocks[i].size - units);
    CarveSeparated(blocks, i, units);
    forall j | 0 <= j < |cs| && cs[j].base != x ensures cs[j].base < blocks[i].base || x < cs[j].base {
      AddressOrder(cs, i, j);
      AddressOrder(cs, j, i);
    }
  }

  /**
   kfree and then kmalloc of a size that the freed object has room for: if no free block ends
   where the object starts, the pointer just freed comes back, with no page asked for.
   */
  method FreedComesBack(s: Slob, ptr: int, size: nat, ghost b: Block) returns (o: Outcome)
    requires s.Valid() && b in s.h.objs && ptr == b.base + 1 && NamesNoRun(s.h, b)
    requires forall i :: 0 <= i < |s.h.blocks| ==> s.h.blocks[i].base + s.h.blocks[i].size != b.base
    requires size >= 1 && size + UNIT <= UNIT * b.size && size + UNIT + UNIT < PAGE_SIZE
    modifies s
    ensures o == Got(ptr)
  {
    hide Inv, RingOk, Linked, MemOk, JustBelow, NextFrom, FreeStep, SmallStep, Untouched, Returned, NoFit, NamesNoRun;
    ghost var h := s.h;
    var run := s.Kfree(ptr);
    ghost var g := s.h;
    ReleasedHere(h, b, g, run, ObjectUnits(size));
    o := s.Kmalloc(size, None, None);
    ServedWhereFreed(h, b, g, size, s.h, o);
  }

  /** What kfree of a small object leaves: the block is released and has room, so the next request needs no page. */
  lemma ReleasedHere(h: Heap, b: Block, g: Heap, run: Option<Block>, units: int)
    requires Inv(h) && b in h.objs && NamesNoRun(h, b) && FreeStep(h, b.base + 1, g, run) && units <= b.size
    ensures RingOk(h.blocks, h.rover) && b.base > ARENA + 1
    ensures Returned(h.(objs := h.objs - {b}), b.base, b.size, g) && !NoFit(g.blocks, units)
  {
    hide Tiled, BigsOk, Returned, FreeStep, NoFit, NamesNoRun;
    LiveInPages(h.blocks, Live(h), h.pages, b, b.base);
    PointerNamesOne(h, b.base + 1, b, g, run);
    BlockBack(h, b, g, units);
  }

  /** The block released has room, so the next request needs no page. */
  lemma BlockBack(h: Heap, b: Block, g: Heap, units: int)
    requires RingOk(h.blocks, h.rover) && b.base > ARENA + 1 && units <= b.size
    requires Returned(h.(objs := h.objs - {b}), b.base, b.size, g)
    ensures !NoFit(g.blocks, units)
  {
    GrownFits(h.(objs := h.objs - {b}), b.base, b.size, g);
  }

  lemma ServedWhereFreed(h: Heap, b: Block, g: Heap, size: nat, f: Heap, o: Outcome)
    requires RingOk(h.blocks, h.rover) && b.base > ARENA + 1 && ObjectUnits(size) <= b.size
    requires forall i :: 0 <= i < |h.blocks| ==> h.blocks[i].base + h.blocks[i].size != b.base
    requires Returned(h.(objs := h.objs - {b}), b.base, b.size, g) && !NoFit(g.blocks, ObjectUnits(size))
    requires SmallStep(g, size, None, f, o)
    ensures o == Got(b.base + 1)
  {
    var m, a :| && Allocated(g, ObjectUnits(size), None, m, a)
                && f == m.(objs := m.objs + {Block(a, ObjectUnits(size))}) && o == Got(a + 1);
    FreedIsNext(h.(objs := h.objs - {b}), b.base, b.size, g, ObjectUnits(size), m, a);
  }
}
