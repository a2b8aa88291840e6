/**
 The SLOB allocator over memory (kern/mm/kmalloc.c): the ring of free blocks, and
 kmalloc and kfree on top of it.

 Memory is two words per 16-byte unit.  A free block keeps `units` in word 0 and `next`
 in word 1; a big-block node keeps `order`, `pages` and `next` in word 0, word 1 and
 word 0 of the following unit, so the two record types overlay each other as in C.
 */
module SlobHeap {
  import opened Wrappers
  import opened BlockList
  import opened SlobSpec
  import opened KmallocSpec

  type Words = map<int, int>

  function Succ(n: int, i: int): int {
    if i + 1 == n then 0 else i + 1
  }

  ghost predicate LinkedAt(w0: Words, w1: Words, blocks: seq<Block>, i: int)
    requires 0 <= i < |blocks|
  {
    && blocks[i].base in w0 && w0[blocks[i].base] == blocks[i].size
    && blocks[i].base in w1 && w1[blocks[i].base] == blocks[Succ(|blocks|, i)].base
  }

  /** Memory holds the ring: each block its size and the address of its successor. */
  ghost predicate Linked(w0: Words, w1: Words, blocks: seq<Block>) {
    forall i :: 0 <= i < |blocks| ==> LinkedAt(w0, w1, blocks, i)
  }

  ghost predicate SameOutside(m: Words, m': Words, s: set<int>) {
    forall a :: a !in s && (a in m || a in m') ==> a in m && a in m' && m[a] == m'[a]
  }

  ghost predicate SameOn(m: Words, m': Words, s: set<int>) {
    forall a :: a in s ==> (a in m <==> a in m') && (a in m ==> m[a] == m'[a])
  }

  /** Every word of these objects, header and payload, is as it was. */
  ghost predicate Untouched(objs: set<Block>, w0: Words, w1: Words, v0: Words, v1: Words) {
    SameOn(w0, v0, CellsOf(objs)) && SameOn(w1, v1, CellsOf(objs))
  }

  lemma UntouchedTwice(objs: set<Block>, w0: Words, w1: Words, u0: Words, u1: Words, v0: Words, v1: Words)
    requires Untouched(objs, w0, w1, u0, u1) && Untouched(objs, u0, u1, v0, v1)
    ensures Untouched(objs, w0, w1, v0, v1)
  {
    hide CellsOf;
  }

  ghost predicate Holds(w0: Words, w1: Words, a: int, units: int, next: int) {
    a in w0 && a in w1 && w0[a] == units && w1[a] == next
  }

  /** Unlinking block i. */
  lemma LinkUnlink(w0: Words, w1: Words, blocks: seq<Block>, i: int, w1': Words)
    requires Linked(w0, w1, blocks) && Separated(blocks) && 1 <= i < |blocks|
    requires SameOutside(w1, w1', {blocks[i - 1].base})
    requires Holds(w0, w1', blocks[i - 1].base, blocks[i - 1].size, blocks[Succ(|blocks|, i)].base)
    ensures Linked(w0, w1', blocks[..i] + blocks[i + 1..])
  {
    var cs := blocks[..i] + blocks[i + 1..];
    forall j | 0 <= j < |cs| ensures LinkedAt(w0, w1', cs, j) {
      assert LinkedAt(w0, w1, blocks, if j < i then j else j + 1);
    }
  }

  /** Moving block i up by n units, keeping its end. */
  lemma LinkFragment(w0: Words, w1: Words, blocks: seq<Block>, i: int, x: Block, w0': Words, w1': Words)
    requires Linked(w0, w1, blocks) && Separated(blocks) && 1 <= i < |blocks|
    requires blocks[i].base < x.base < blocks[i].base + blocks[i].size
    requires SameOutside(w0, w0', {blocks[i].base, x.base})
    requires SameOutside(w1, w1', {blocks[i - 1].base, x.base})
    requires Holds(w0', w1', x.base, x.size, blocks[Succ(|blocks|, i)].base)
    requires Holds(w0', w1', blocks[i - 1].base, blocks[i - 1].size, x.base)
    ensures Linked(w0', w1', blocks[i := x])
  {
    var cs := blocks[i := x];
    forall j | 0 <= j < |cs| ensures LinkedAt(w0', w1', cs, j) {
      assert LinkedAt(w0, w1, blocks, j);
    }
  }

  /** Linking a block x behind block k - 1, in place of the r blocks that follow. */
  lemma LinkInsert(w0: Words, w1: Words, blocks: seq<Block>, k: int, r: int, x: Block, w0': Words, w1': Words)
    requires Linked(w0, w1, blocks) && Separated(blocks) && 1 <= k <= k + r <= |blocks| && r >= 0
    requires blocks[k - 1].base < x.base && (k < |blocks| ==> x.base < blocks[k].base)
    requires SameOutside(w0, w0', {x.base, blocks[k - 1].base}) && SameOutside(w1, w1', {x.base, blocks[k - 1].base})
    requires Holds(w0', w1', x.base, x.size, blocks[if k + r == |blocks| then 0 else k + r].base)
    requires Holds(w0', w1', blocks[k - 1].base, blocks[k - 1].size, x.base)
    ensures Linked(w0', w1', blocks[..k] + [x] + blocks[k + r..])
  {
    var cs := blocks[..k] + [x] + blocks[k + r..];
    forall j | 0 <= j < |cs| ensures LinkedAt(w0', w1', cs, j) {
      if j < k - 1 {
        assert LinkedAt(w0, w1, blocks, j);
      } else if j > k {
        assert LinkedAt(w0, w1, blocks, j - 1 + r);
      }
    }
  }

  /** Growing block k - 1 to x in place of the r blocks that follow; word b is scratch inside x. */
  lemma LinkGrow(w0: Words, w1: Words, blocks: seq<Block>, k: int, r: int, x: Block, b: int, w0': Words, w1': Words)
    requires Linked(w0, w1, blocks) && Separated(blocks) && 1 <= k <= k + r <= |blocks| && r >= 0
    requires x.base == blocks[k - 1].base < b && (k < |blocks| ==> b < blocks[k].base)
    requires SameOutside(w0, w0', {b, x.base}) && SameOutside(w1, w1', {b, x.base})
    requires Holds(w0', w1', x.base, x.size, blocks[if k + r == |blocks| then 0 else k + r].base)
    ensures Linked(w0', w1', blocks[..k - 1] + [x] + blocks[k + r..])
  {
    var cs := blocks[..k - 1] + [x] + blocks[k + r..];
    forall j | 0 <= j < |cs| ensures LinkedAt(w0', w1', cs, j) {
      if j < k - 1 {
        assert LinkedAt(w0, w1, blocks, j);
      } else if j >= k {
        assert LinkedAt(w0, w1, blocks, j + r);
      }
    }
  }

  /** What slob_free writes around position k is the ring with the block released there. */
  lemma LinkRelease(w0: Words, w1: Words, blocks: seq<Block>, k: int, b: int, n: int, w0': Words, w1': Words)
    requires Linked(w0, w1, blocks) && Separated(blocks) && 1 <= k && Fits(blocks, k, b, n)
    requires SameOutside(w0, w0', {b, blocks[k - 1].base}) && SameOutside(w1, w1', {b, blocks[k - 1].base})
    requires var r, x := JoinsRight(blocks, k, b + n), Joined(blocks, k, b, n);
             var cur, next := blocks[k - 1], blocks[if k + r == |blocks| then 0 else k + r].base;
             if JoinsLeft(blocks, k, b) == 1 then Holds(w0', w1', cur.base, x.size, next)
             else Holds(w0', w1', cur.base, cur.size, b) && Holds(w0', w1', b, x.size, next)
    ensures Linked(w0', w1', Release(blocks, k, b, n))
  {
    var r, x := JoinsRight(blocks, k, b + n), Joined(blocks, k, b, n);
    if JoinsLeft(blocks, k, b) == 1 {
      LinkGrow(w0, w1, blocks, k, r, x, b, w0', w1');
    } else {
      LinkInsert(w0, w1, blocks, k, r, x, w0', w1');
    }
  }

  /** The position of an address above the arena among the blocks of the ring. */
  lemma {:induction false} Position(blocks: seq<Block>, b: int) returns (k: int)
    requires Separated(blocks) && blocks != [] && blocks[0].base < b
    ensures 1 <= k <= |blocks| && blocks[k - 1].base < b && (k < |blocks| ==> b <= blocks[k].base)
  {
    k := 1;
    while k < |blocks| && blocks[k].base < b
      invariant 1 <= k <= |blocks| && blocks[k - 1].base < b
    {
      k := k + 1;
    }
  }

  function SlobUnits(size: int): int {
    (size + UNIT - 1) / UNIT
  }

  lemma LinkedIs(w0: Words, w1: Words, blocks: seq<Block>, i: int)
    requires Linked(w0, w1, blocks) && 0 <= i < |blocks|
    ensures Holds(w0, w1, blocks[i].base, blocks[i].size, blocks[Succ(|blocks|, i)].base)
  {
    assert LinkedAt(w0, w1, blocks, i);
  }

  lemma SameBase(blocks: seq<Block>, i: int, j: int)
    requires Separated(blocks) && 0 <= i < |blocks| && 0 <= j < |blocks|
    ensures blocks[i].base == blocks[j].base <==> i == j
  {
  }

  ghost function Touched(h: Heap, offer: Option<int>, requests: int): set<int> {
    Cells(h.blocks) + (if requests == 1 && offer.Some? then Range(PAGE_UNITS * offer.value, PAGE_UNITS) else {})
  }

  /** Between laps, either nothing has changed or the page on offer has joined the ring. */
  ghost predicate Progress(h: Heap, w0: Words, w1: Words, offer: Option<int>, units: int, requests: int,
                           g: Heap, m0: Words, m1: Words) {
    if requests == 0 then g == h && m0 == w0 && m1 == w1
    else
      && requests == 1 && offer.Some? && NoFit(h.blocks, units) && !NoFit(g.blocks, units)
      && Cells(g.blocks) == Touched(h, offer, 1)
      && SameOutside(w0, m0, Touched(h, offer, 1)) && SameOutside(w1, m1, Touched(h, offer, 1))
      && exists m :: Returned(h, PAGE_UNITS * offer.value, PAGE_UNITS, m) && g == m.(pages := m.pages + {offer.value})
  }

  lemma ProgressTaken(h: Heap, w0: Words, w1: Words, offer: Option<int>, units: int, requests: int,
                      g: Heap, m0: Words, m1: Words, f: Heap, v0: Words, v1: Words, a: int)
    requires Progress(h, w0, w1, offer, units, requests, g, m0, m1) && Taken(g, units, f, a)
    requires SameOutside(m0, v0, Cells(g.blocks)) && SameOutside(m1, v1, Cells(g.blocks))
    ensures Allocated(h, units, offer, f, a)
    ensures SameOutside(w0, v0, Touched(h, offer, requests)) && SameOutside(w1, v1, Touched(h, offer, requests))
  {
  }

  /** Where a search stops, before or after the heap has grown. */
  lemma TakenWhere(h: Heap, g: Heap, units: int, requests: int, c: int)
    requires RingOk(h.blocks, h.rover) && RingOk(g.blocks, g.rover) && FirstFit(g.blocks, g.rover, units, c)
        && units >= 1
    requires if requests == 0 then g == h else NoFit(h.blocks, units)
    ensures SkipsArena(h.blocks, h.rover, units) ==> c >= 1
    ensures 0 <= c < |g.blocks| && g.blocks[c].base != NULL
  {
    assert h.blocks[0].size < units || g == h;
    FitSkipsArena(g.blocks, g.rover, units, c);
  }

  lemma SameItself(m: Words, s: set<int>)
    ensures SameOutside(m, m, s)
  {
  }

  lemma SmallStepFails(h: Heap, size: nat)
    requires NoFit(h.blocks, ObjectUnits(size))
    ensures SmallStep(h, size, None, h, Got(NULL))
  {
  }

  lemma SmallStepTaken(h: Heap, size: nat, offer: Option<int>, m: Heap, a: int)
    requires Allocated(h, ObjectUnits(size), offer, m, a) && !(NoFit(h.blocks, ObjectUnits(size)) && offer.None?)
    ensures SmallStep(h, size, offer, m.(objs := m.objs + {Block(a, ObjectUnits(size))}), Got(a + 1))
  {
  }

  lemma BigStepFails(h: Heap, size: nat, run: Option<int>)
    requires NoFit(h.blocks, 2)
    ensures BigStep(h, size, None, run, h, Got(NULL))
  {
  }

  lemma BigStepTaken(h: Heap, size: nat, offer: Option<int>, run: Option<int>, m: Heap, a: int, g: Heap, o: Outcome)
    requires Allocated(h, 2, offer, m, a) && !(NoFit(h.blocks, 2) && offer.None?)
    requires match run
             case Some(q) => g == m.(bigs := [Big(a, OrderOf(ToInt(size)), q)] + m.bigs) && o == Got(PAGE_UNITS * q)
             case None => Returned(m, a, 2, g) && o == Got(NULL)
    ensures BigStep(h, size, offer, run, g, o)
  {
  }

  class Slob {
    var w0: Words      // first word of each unit
    var w1: Words      // second word of each unit
    var slobfree: int
    var bigblocks: int
    ghost var h: Heap

    ghost predicate RingValid()
      reads this
    {
      RingOk(h.blocks, h.rover) && slobfree == h.blocks[h.rover].base && Linked(w0, w1, h.blocks)
    }

    /** Memory holds the ring of h, whether or not that still has the arena. */
    ghost predicate HoldsRing()
      reads this
    {
      0 <= h.rover < |h.blocks| && slobfree == h.blocks[h.rover].base && Linked(w0, w1, h.blocks)
    }

    /** The search loop of slob_free: walks the ring from slobfree to the block just below b. */
    method FindSlot(b: int, ghost k: int) returns (cur: int)
      requires RingOk(h.blocks, h.rover) && slobfree == h.blocks[h.rover].base && Linked(w0, w1, h.blocks)
      requires 1 <= k <= |h.blocks| && h.blocks[k - 1].base < b && (k < |h.blocks| ==> b < h.blocks[k].base)
      ensures cur == h.blocks[k - 1].base
    {
      cur := slobfree;
      ghost var n, c := |h.blocks|, h.rover;
      assert LinkedAt(w0, w1, h.blocks, c);
      while !(b > cur && b < w1[cur])
        invariant 0 <= c < n && cur == h.blocks[c].base && cur in w1
        invariant w1[cur] == h.blocks[Succ(n, c)].base
        decreases if c <= k - 1 then k - 1 - c else k - 1 - c + n
      {
        if cur >= w1[cur] && (b > cur || b < w1[cur]) {
          break;
        }
        c := Succ(n, c);
        cur := w1[cur];
        assert LinkedAt(w0, w1, h.blocks, c);
      }
      assert c == k - 1;
    }

    /** slob_free: puts a block back; `size` is in bytes, 0 meaning the size in its header. */
    method SlobFree(b: int, size: int)
      requires RingValid() && size >= 0
      requires b != NULL ==> b > ARENA + 1 && (size == 0 ==> b in w0 && w0[b] > 0)
      requires b != NULL ==>
        Cells(h.blocks) !! Range(b, if size == 0 then w0[b] else SlobUnits(size))
      modifies this`w0, this`w1, this`slobfree, this`h
      ensures RingValid()
      ensures b == NULL ==> h == old(h) && w0 == old(w0) && w1 == old(w1)
      ensures b != NULL ==> Returned(old(h), b, if size == 0 then old(w0[b]) else SlobUnits(size), h)
      ensures b != NULL ==> JustBelow(h.blocks, slobfree, b)
      ensures SameOutside(old(w0), w0, Cells(old(h).blocks) + {b})
      ensures SameOutside(old(w1), w1, Cells(old(h).blocks) + {b})
    {
      if b == NULL {
        return;
      }
      Reinsert(b, size);
    }

    /** slob_free of a block that is not null. */
    method Reinsert(b: int, size: int)
      requires RingValid() && b > ARENA + 1 && size >= 0
      requires size == 0 ==> b in w0 && w0[b] > 0
      requires Cells(h.blocks) !! Range(b, if size == 0 then w0[b] else SlobUnits(size))
      modifies this`w0, this`w1, this`slobfree, this`h
      ensures RingValid()
      ensures Returned(old(h), b, if size == 0 then old(w0[b]) else SlobUnits(size), h)
      ensures JustBelow(h.blocks, slobfree, b)
      ensures SameOutside(old(w0), w0, Cells(old(h).blocks) + {b})
      ensures SameOutside(old(w1), w1, Cells(old(h).blocks) + {b})
    {
      hide Release, Cells, Linked;
      ghost var blocks := h.blocks;
      if size != 0 {
        w0 := w0[b := SlobUnits(size)];
      }
      ghost var n := w0[b];
      ghost var k := Position(blocks, b);
      SeparatedIsOrdered(blocks);
      DisjointFits(blocks, k, b, n);
      assert b in Range(b, n);
      LinkedAfterWrite(old(w0), w1, blocks, b, n);
      BaseInCells(blocks, k - 1);

      var cur := FindSlot(b, k);
      Relink(cur, b, k, n);
      slobfree := cur;
      RingRelease(blocks, k, b, n);
      ReleasedAbove(blocks, k, b, n);
      h := h.(blocks := Release(blocks, k, b, n), rover := k - 1);
    }

    /** The writes of slob_free: links b behind cur, joining it with the block above and below. */
    method Relink(cur: int, b: int, ghost k: int, ghost n: int)
      requires Linked(w0, w1, h.blocks) && Separated(h.blocks) && b in w0 && w0[b] == n
      requires 1 <= k && Fits(h.blocks, k, b, n) && h.blocks[0].base < b && cur == h.blocks[k - 1].base
      modifies this`w0, this`w1
      ensures Linked(w0, w1, Release(h.blocks, k, b, n))
      ensures SameOutside(old(w0), w0, {b, cur}) && SameOutside(old(w1), w1, {b, cur})
    {
      hide Linked, Separated, Release;
      LinkedIs(w0, w1, h.blocks, k - 1);
      LinkedIs(w0, w1, h.blocks, Succ(|h.blocks|, k - 1));
      var m0, m1 := w0, w1;
      var next := m1[cur];
      if b + m0[b] == next {
        m0 := m0[b := m0[b] + m0[next]];
        m1 := m1[b := m1[next]];
      } else {
        m1 := m1[b := next];
      }
      if cur + m0[cur] == b {
        m0 := m0[cur := m0[cur] + m0[b]];
        m1 := m1[cur := m1[b]];
      } else {
        m1 := m1[cur := b];
      }
      LinkRelease(w0, w1, h.blocks, k, b, n, m0, m1);
      w0, w1 := m0, m1;
    }

    /** One lap of the search in slob_alloc: from behind slobfree up to slobfree itself. */
    method Lap(units: int) returns (found: bool, prev: int, cur: int, ghost c: int)
      requires RingValid()
      ensures 0 <= c < |h.blocks| && cur == h.blocks[c].base
      ensures prev == h.blocks[if c == 0 then |h.blocks| - 1 else c - 1].base
      ensures found ==> FirstFit(h.blocks, h.rover, units, c)
      ensures !found ==> NoFit(h.blocks, units) && cur == slobfree
    {
      hide Separated, LinkedAt;
      ghost var blocks, n, rover := h.blocks, |h.blocks|, h.rover;
      LinkedIs(w0, w1, blocks, rover);
      prev, cur := slobfree, w1[slobfree];
      c := Succ(n, rover);
      while true
        invariant 0 <= c < n && cur == blocks[c].base
        invariant prev == blocks[if c == 0 then n - 1 else c - 1].base
        invariant forall j :: 0 <= j < n && Dist(n, rover, j) < Dist(n, rover, c) ==> blocks[j].size < units
        decreases n - Dist(n, rover, c)
      {
        LinkedIs(w0, w1, blocks, c);
        if w0[cur] >= units {
          return true, prev, cur, c;
        }
        if cur == slobfree {
          SameBase(blocks, c, rover);
          return false, prev, cur, c;
        }
        prev, cur := cur, w1[cur];
        c := Succ(n, c);
      }
    }

    /**
     slob_alloc with align 0.  `offer` is the page that __slob_get_free_page would return, and
     `requests` counts how often it is asked.
     */
    method SlobAlloc(size: int, offer: Option<int>) returns (r: int, requests: int)
      requires RingValid() && 0 < size && size + UNIT < PAGE_SIZE
      requires offer.Some? ==> offer.value > 0 && Cells(h.blocks) !! Range(PAGE_UNITS * offer.value, PAGE_UNITS)
      modifies this`w0, this`w1, this`slobfree, this`h
      ensures HoldsRing() && (SkipsArena(old(h).blocks, old(h).rover, SlobUnits(size)) ==> RingValid())
      ensures 0 <= requests <= 1
      ensures requests == 0 <==> !NoFit(old(h).blocks, SlobUnits(size))
      ensures r == NULL <==> requests == 1 && offer.None?
      ensures r == NULL ==> h == old(h) && w0 == old(w0) && w1 == old(w1)
      ensures r != NULL ==> Allocated(old(h), SlobUnits(size), offer, h, r)
      ensures r != NULL ==> r in w0 && w0[r] == SlobUnits(size)
      ensures requests == 0 ==> NextFrom(old(h).blocks, old(slobfree) + 1, SlobUnits(size), r)
      ensures r != NULL && SkipsArena(old(h).blocks, old(h).rover, SlobUnits(size)) ==> JustBelow(h.blocks, slobfree, r)
      ensures SameOutside(old(w0), w0, Touched(old(h), offer, requests))
      ensures SameOutside(old(w1), w1, Touched(old(h), offer, requests))
    {
      hide Separated, Linked, NextFrom, JustBelow, FirstFit, SkipsArena, Allocated, SameOutside, Taken;
      SameItself(w0, Touched(h, offer, 0));
      SameItself(w1, Touched(h, offer, 0));
      SameItself(w0, Touched(h, offer, 1));
      SameItself(w1, Touched(h, offer, 1));
      var units := SlobUnits(size);
      requests := 0;
      while true
        invariant RingValid() && Progress(old(h), old(w0), old(w1), offer, units, requests, h, w0, w1)
        decreases 1 - requests
      {
        var found, prev, cur, c := Lap(units);
        if found {
          ghost var g, m0, m1 := h, w0, w1;
          TakenWhere(old(h), h, units, requests, c);
          FitByAddress(h.blocks, h.rover, units, c);
          Take(prev, cur, units, c);
          ProgressTaken(old(h), old(w0), old(w1), offer, units, requests, g, m0, m1, h, w0, w1, cur);
          return cur, requests;
        }
        requests := requests + 1;
        if offer.None? {
          return NULL, requests;
        }
        Grow(offer.value, units);
      }
    }

    /** What slob_alloc does with a page it has obtained. */
    method Grow(page: int, ghost units: int)
      requires RingValid() && page > 0 && Cells(h.blocks) !! Range(PAGE_UNITS * page, PAGE_UNITS)
      requires units <= PAGE_UNITS && NoFit(h.blocks, units)
      modifies this`w0, this`w1, this`slobfree, this`h
      ensures RingValid() && Progress(old(h), old(w0), old(w1), Some(page), units, 1, h, w0, w1)
    {
      SlobFree(PAGE_UNITS * page, PAGE_SIZE);
      GrownFits(old(h), PAGE_UNITS * page, PAGE_UNITS, h);
      h := h.(pages := h.pages + {page});
    }

    /** The end of a successful search: unlinks cur or fragments it, and moves slobfree to prev. */
    method Take(prev: int, cur: int, units: int, ghost i: int)
      requires RingValid() && 0 <= i < |h.blocks| && cur == h.blocks[i].base
      requires prev == h.blocks[if i == 0 then |h.blocks| - 1 else i - 1].base
      requires FirstFit(h.blocks, h.rover, units, i) && units > 0
      modifies this`w0, this`w1, this`slobfree, this`h
      ensures HoldsRing() && (i >= 1 ==> RingValid() && JustBelow(h.blocks, slobfree, cur))
      ensures Taken(old(h), units, h, cur) && cur in w0 && w0[cur] == units
      ensures SameOutside(old(w0), w0, Cells(old(h).blocks)) && SameOutside(old(w1), w1, Cells(old(h).blocks))
    {
      hide Linked, Cells, Separated, Carve, SameOutside;
      ghost var blocks := h.blocks;
      var m0, m1 := w0, w1;
      LinkedIs(m0, m1, blocks, i);
      LinkedIs(m0, m1, blocks, if i == 0 then |blocks| - 1 else i - 1);
      SameItself(m0, Cells(blocks));
      if m0[cur] == units {
        m1 := m1[prev := m1[cur]];
        if i == 0 {
          FitSkipsArena(blocks, h.rover, units, i);
          TakeArena(w0, w1, blocks, m1);
        } else {
          TakeExact(w0, w1, blocks, i, m1);
        }
      } else {
        FitSkipsArena(blocks, h.rover, units, i);
        SameBase(blocks, i, i - 1);
        m1 := m1[prev := cur + units];
        m0 := m0[cur + units := m0[cur] - units];
        m1 := m1[cur + units := m1[cur]];
        m0 := m0[cur := units];
        TakeFragment(w0, w1, blocks, i, units, m0, m1);
      }
      w0, w1, slobfree := m0, m1, prev;
      if i >= 1 {
        CarvedAbove(blocks, i, units);
      }
      h := TakenAt(h, i, units);
    }

    // ---- kmalloc and kfree ----

    ghost predicate Valid()
      reads this
    {
      RingValid() && Inv(h) && MemOk(w0, w1, bigblocks, h.objs, h.bigs)
    }

    constructor ()
      ensures Valid() && h == START
    {
      w0, w1 := map[ARENA := 1], map[ARENA := ARENA];
      slobfree, bigblocks := ARENA, NULL;
      h := START;
      new;
      StartOk();
      assert LinkedAt(w0, w1, h.blocks, 0);
    }

    /** find_order. */
    method FindOrder(size: int) returns (order: nat)
      ensures order == OrderOf(size)
    {
      order := 0;
      var s := size;
      while s > PAGE_SIZE
        invariant order + OrderOf(s) == OrderOf(size)
        decreases s
      {
        s := s / 2;
        order := order + 1;
      }
    }

    /** kmalloc; `offer` and `run` are what the page allocator would answer to its two requests. */
    method Kmalloc(size: nat, offer: Option<int>, run: Option<int>) returns (o: Outcome)
      requires Valid() && FairOffers(h, size, offer, run)
      modifies this
      ensures MallocStep(old(h), size, offer, run, h, o) && HoldsRing()
      ensures IsSmall(size) && o.Got? && o.ptr != NULL && !GetsArena(old(h), size) ==>
        JustBelow(h.blocks, slobfree, o.ptr - 1)
      ensures Valid() <==> !GetsArena(old(h), size)
      ensures Untouched(old(h).objs, old(w0), old(w1), w0, w1)
    {
      if size < PAGE_SIZE - UNIT {
        if size + UNIT + UNIT >= PAGE_SIZE {
          return Panic;
        }
        o := KmallocSmall(size, offer);
      } else {
        o := KmallocBig(size, offer, run);
      }
      MallocKeepsInv(old(h), size, offer, run, h, o);
    }

    /** The branch of kmalloc below a page: one block of the ring, behind a header unit. */
    method KmallocSmall(size: nat, offer: Option<int>) returns (o: Outcome)
      requires Valid() && size + UNIT + UNIT < PAGE_SIZE
      requires offer.Some? ==> FreshPage(h, offer.value)
      modifies this`w0, this`w1, this`slobfree, this`h
      ensures HoldsRing() && MemOk(w0, w1, bigblocks, h.objs, h.bigs)
      ensures !GetsArena(old(h), size) ==> RingValid()
      ensures o.Got? && (o.ptr != NULL && !GetsArena(old(h), size) ==> JustBelow(h.blocks, slobfree, o.ptr - 1))
      ensures SmallStep(old(h), size, offer, h, o) && Untouched(old(h).objs, old(w0), old(w1), w0, w1)
    {
      hide Untouched, Tiled, BigsOk, Separated, Linked, RingOk, Allocated, NoFit, FreshPage, SmallStep, JustBelow;
      hide NextFrom;
      OfferClear(h, offer);
      ghost var m, v0, v1 := h, w0, w1;
      var r, requests := SlobAlloc(size + UNIT, offer);
      MemKept(m.objs, m.bigs, bigblocks, v0, v1, w0, w1, Touched(m, offer, requests));
      if r == NULL {
        SmallStepFails(m, size);
        return Got(NULL);
      }
      ghost var f := h;
      AllocatedFrame(m, ObjectUnits(size), offer, f, r);
      SmallStepTaken(m, size, offer, f, r);
      h := h.(objs := h.objs + {Block(r, ObjectUnits(size))});
      return Got(r + 1);
    }

    /** The other branch: a node from the ring and a page run from the page allocator. */
    method KmallocBig(size: nat, offer: Option<int>, run: Option<int>) returns (o: Outcome)
      requires Valid() && FairOffers(h, size, offer, run)
      modifies this`w0, this`w1, this`slobfree, this`h, this`bigblocks
      ensures RingValid() && MemOk(w0, w1, bigblocks, h.objs, h.bigs)
      ensures BigStep(old(h), size, offer, run, h, o) && Untouched(old(h).objs, old(w0), old(w1), w0, w1)
    {
      hide Untouched, Tiled, Separated, Linked, RingOk, BigsOk, Allocated, Returned, NoFit, FreshRun, BigStep;
      OfferClear(h, offer);
      ghost var m, v0, v1 := h, w0, w1;
      var bb, requests := SlobAlloc(24, offer);
      MemKept(m.objs, m.bigs, bigblocks, v0, v1, w0, w1, Touched(m, offer, requests));
      if bb == NULL {
        BigStepFails(m, size, run);
        return Got(NULL);
      }
      AllocatedBetween(m, 2, offer, h, bb);
      BetweenClear(m, h, bb);
      ghost var f := h;
      var order := FindOrder(ToInt(size));
      ghost var u0, u1 := w0, w1;
      Record(m, bb, order, run);
      UntouchedTwice(m.objs, v0, v1, u0, u1, w0, w1);
      if run.Some? {
        bigblocks := bb;
        h := h.(bigs := [Big(bb, order, run.value)] + h.bigs);
        BigStepTaken(m, size, offer, run, f, bb, h, Got(PAGE_UNITS * run.value));
        return Got(PAGE_UNITS * run.value);
      }
      u0, u1 := w0, w1;
      SlobFree(bb, 24);
      ReturnedFrame(f, bb, 2, h);
      MemKept(m.objs, m.bigs, bigblocks, u0, u1, w0, w1, Cells(f.blocks) + {bb});
      UntouchedTwice(m.objs, v0, v1, u0, u1, w0, w1);
      BigStepTaken(m, size, offer, run, f, bb, h, Got(NULL));
      return Got(NULL);
    }

    /** Fills in the fields of a new big-block node, `next` only when it goes on the list. */
    method Record(ghost m: Heap, bb: int, order: nat, run: Option<int>)
      requires RingValid() && MemOk(w0, w1, bigblocks, h.objs, h.bigs)
      requires Inv(m) && Between(m, h, Block(bb, 2))
      modifies this`w0, this`w1
      ensures RingValid()
      ensures MemOk(w0, w1, bigblocks, h.objs, h.bigs) && Untouched(h.objs, old(w0), old(w1), w0, w1)
      ensures run.Some? ==> MemOk(w0, w1, bb, h.objs, [Big(bb, order, run.value)] + h.bigs)
    {
      hide Tiled, Separated, Linked;
      BetweenClear(m, h, bb);
      var m0, m1 := w0[bb := order], w1[bb := if run.Some? then PAGE_UNITS * run.value else NULL];
      if run.Some? {
        m0 := m0[bb + 1 := bigblocks];
      }
      MemKept(h.objs, h.bigs, bigblocks, w0, w1, m0, m1, {bb, bb + 1});
      LinkedKept(w0, w1, h.blocks, m0, m1, {bb, bb + 1});
      if run.Some? {
        ChainPush(m0, m1, bigblocks, bb, Big(bb, order, run.value), h.objs, h.bigs);
      }
      w0, w1 := m0, m1;
    }

    /** kfree; a page run given back to the page allocator is returned in `run`. */
    method Kfree(ptr: int) returns (run: Option<Block>)
      requires Valid() && IsPointer(h, ptr)
      modifies this
      ensures Valid() && FreeStep(old(h), ptr, h, run)
      ensures ptr != NULL && run.None? ==> JustBelow(h.blocks, slobfree, ptr - 1)
      ensures Untouched(h.objs, old(w0), old(w1), w0, w1)
    {
      hide Tiled, Separated, Linked, RingOk, BigsOk, Returned, JustBelow;
      if ptr == NULL {
        return None;
      }
      if ptr % PAGE_UNITS == 0 {
        // only a page-aligned pointer can name a page run
        var bb, last, i := FindBig(ptr);
        if bb != NULL {
          run := KfreeBig(ptr, bb, last, i);
          FreeKeepsInv(old(h), ptr, h, run);
          return;
        }
      }
      ghost var b :| b in h.objs && ptr == b.base + 1;
      KfreeSmall(ptr, b);
      FreeKeepsInv(old(h), ptr, h, None);
      return None;
    }

    /**
     The scan of the big-block list in kfree.  `last` is the node whose `next` leads to bb,
     or NULL when that is the list head itself.
     */
    method FindBig(ptr: int) returns (bb: int, last: int, ghost i: int)
      requires Valid()
      ensures bb == NULL ==> forall j :: 0 <= j < |h.bigs| ==> ptr != PAGE_UNITS * h.bigs[j].page
      ensures bb != NULL ==> && 0 <= i < |h.bigs| && bb == h.bigs[i].node && ptr == PAGE_UNITS * h.bigs[i].page
                             && last == (if i == 0 then NULL else h.bigs[i - 1].node)
    {
      hide Tiled, BigsOk, Linked, Separated;
      bb, last, i := bigblocks, NULL, 0;
      while bb != NULL
        invariant 0 <= i <= |h.bigs| && bb == NodeAt(h.bigs, i)
        invariant last == if i == 0 then NULL else h.bigs[i - 1].node
        invariant forall j :: 0 <= j < i ==> ptr != PAGE_UNITS * h.bigs[j].page
        decreases |h.bigs| - i
      {
        assert NodeOk(w0, w1, h.bigs, i);
        if w1[bb] == ptr {
          return;
        }
        last := bb;
        bb := w0[bb + 1];
        i := i + 1;
      }
      NodesNotNull(h);
    }

    /** kfree of a big block: off the list, the run and the node given back. */
    method KfreeBig(ptr: int, bb: int, last: int, ghost i: int) returns (run: Option<Block>)
      requires Valid() && 0 <= i < |h.bigs| && bb == h.bigs[i].node && ptr == PAGE_UNITS * h.bigs[i].page
      requires last == if i == 0 then NULL else h.bigs[i - 1].node
      modifies this
      ensures RingValid() && MemOk(w0, w1, bigblocks, h.objs, h.bigs)
      ensures run == Some(Run(old(h).bigs[i]))
      ensures Returned(old(h).(bigs := Without(old(h).bigs, i)), bb, 2, h) && JustBelow(h.blocks, slobfree, bb)
      ensures Untouched(h.objs, old(w0), old(w1), w0, w1)
    {
      hide Untouched, Tiled, Linked, BigsOk, Returned, JustBelow;
      ghost var m, node := h, Block(bb, 2);
      Unlink(bb, last, i);
      run := Some(Block(ptr / PAGE_UNITS, Pow2(w0[bb])));
      h := h.(bigs := Without(h.bigs, i));
      ghost var f, v0, v1 := h, w0, w1;
      NodeClear(m, i);
      RestClear(m, node);
      LiveWithout(m, i);
      SlobFree(bb, 24);
      ReturnedFrame(f, bb, 2, h);
      MemKept(f.objs, f.bigs, bigblocks, v0, v1, w0, w1, Cells(f.blocks) + {bb});
      UntouchedTwice(f.objs, old(w0), old(w1), v0, v1, w0, w1);
    }

    /** Takes node i off the big-block list. */
    method Unlink(bb: int, last: int, ghost i: int)
      requires Valid() && 0 <= i < |h.bigs| && bb == h.bigs[i].node
      requires last == if i == 0 then NULL else h.bigs[i - 1].node
      modifies this`w0, this`bigblocks
      ensures RingValid() && MemOk(w0, w1, bigblocks, h.objs, Without(h.bigs, i))
      ensures bb in w0 && w0[bb] == h.bigs[i].order
      ensures Untouched(h.objs, old(w0), w1, w0, w1)
    {
      hide Tiled, Linked, BigsOk;
      assert NodeOk(w0, w1, h.bigs, i);
      NodesNotNull(h);
      if last == NULL {
        ChainPop(w0, w1, bigblocks, h.objs, h.bigs, w0[bb + 1]);
        bigblocks := w0[bb + 1];
      } else {
        var m0 := w0[last + 1 := w0[bb + 1]];
        NodeClear(h, i - 1);
        NextClear(h, i - 1, w0, w1, w0[bb + 1]);
        ChainUnlink(h, w0, w1, bigblocks, m0, i);
        LinkedKept(w0, w1, h.blocks, m0, w1, {last + 1});
        w0 := m0;
      }
    }

    /** kfree of a small object, whose header says how large it is. */
    method KfreeSmall(ptr: int, ghost b: Block)
      requires Valid() && b in h.objs && ptr == b.base + 1
      modifies this`w0, this`w1, this`slobfree, this`h
      ensures RingValid() && MemOk(w0, w1, bigblocks, h.objs, h.bigs)
      ensures Returned(old(h).(objs := old(h).objs - {b}), b.base, b.size, h) && JustBelow(h.blocks, slobfree, b.base)
      ensures Untouched(h.objs, old(w0), old(w1), w0, w1)
    {
      hide Untouched, JustBelow;
      ghost var v0, v1 := w0, w1;
      RestClear(h, b);
      assert h.objs - {b} + Nodes(h.bigs) == Live(h) - {b};
      h := h.(objs := h.objs - {b});
      ghost var f := h;
      SlobFree(ptr - 1, 0);
      ReturnedFrame(f, b.base, b.size, h);
      MemKept(f.objs, f.bigs, bigblocks, v0, v1, w0, w1, Cells(f.blocks) + {b.base});
    }

    /** A client may write anything into the payload of an object it holds. */
    method ClientStore(a: int, v0: int, v1: int, ghost b: Block)
      requires Valid() && b in h.objs && b.base < a < b.base + b.size
      modifies this`w0, this`w1
      ensures Valid()
      ensures w0 == old(w0)[a := v0] && w1 == old(w1)[a := v1]
    {
      var m0, m1 := w0[a := v0], w1[a := v1];
      PayloadClear(h, b, a);
      LinkedKept(w0, w1, h.blocks, m0, m1, {a});
      assert forall i :: 0 <= i < |h.bigs| ==> NodeOk(w0, w1, h.bigs, i) ==> NodeOk(m0, m1, h.bigs, i);
      w0, w1 := m0, m1;
    }

    /** ksize: the bytes of a block, header included; a page run counts in full. */
    method Ksize(ptr: int) returns (bytes: int)
      requires Valid() && IsPointer(h, ptr)
      ensures ptr == NULL ==> bytes == 0
      ensures ptr != NULL ==>
        || (exists b :: b in h.objs && ptr == b.base + 1 && bytes == UNIT * b.size)
        || (exists i ::
              0 <= i < |h.bigs| && ptr == PAGE_UNITS * h.bigs[i].page && bytes == PAGE_SIZE * Pow2(h.bigs[i].order))
    {
      if ptr == NULL {
        return 0;
      }
      hide Inv, RingOk, Linked;
      if ptr % PAGE_UNITS == 0 {
        var bb, last, i := FindBig(ptr);
        if bb != NULL {
          assert NodeOk(w0, w1, h.bigs, i);
          return PAGE_SIZE * Pow2(w0[bb]);
        }
      }
      ghost var b :| b in h.objs && ptr == b.base + 1;
      return w0[ptr - 1] * UNIT;
    }
  }

  /** Unlinking the arena, the only block or not. */
  lemma TakeArena(w0: Words, w1: Words, blocks: seq<Block>, m1: Words)
    requires RingOk(blocks, 0) && Linked(w0, w1, blocks)
    requires m1 == w1[blocks[|blocks| - 1].base := blocks[Succ(|blocks|, 0)].base]
    ensures var cs := Detached(blocks, 0, 1);
            cs != [] && Linked(w0, m1, cs) && cs[|cs| - 1].base == blocks[|blocks| - 1].base
    ensures SameOutside(w1, m1, Cells(blocks))
  {
    hide Cells, Detached, Linked, Separated;
    BaseInCells(blocks, |blocks| - 1);
    ArenaDetached(blocks);
    if |blocks| == 1 {
      LinkedIs(w0, w1, blocks, 0);
      assert m1 == w1;
    } else {
      LinkTail(w0, w1, blocks, m1);
    }
  }

  lemma ArenaDetached(blocks: seq<Block>)
    requires RingOk(blocks, 0)
    ensures Detached(blocks, 0, 1) == if |blocks| == 1 then blocks else blocks[1..]
  {
  }

  lemma LinkTail(w0: Words, w1: Words, blocks: seq<Block>, m1: Words)
    requires Separated(blocks) && Linked(w0, w1, blocks) && |blocks| > 1
    requires m1 == w1[blocks[|blocks| - 1].base := blocks[1].base]
    ensures Linked(w0, m1, blocks[1..])
  {
    hide Linked;
    var n, cs := |blocks|, blocks[1..];
    forall j | 0 <= j < |cs| ensures LinkedAt(w0, m1, cs, j) {
      LinkedIs(w0, w1, blocks, j + 1);
      SameBase(blocks, j + 1, n - 1);
    }
    LinkedFrom(w0, m1, cs);
  }

  lemma LinkedFrom(w0: Words, w1: Words, blocks: seq<Block>)
    requires forall j :: 0 <= j < |blocks| ==> LinkedAt(w0, w1, blocks, j)
    ensures Linked(w0, w1, blocks)
  {
  }

  lemma TakeExact(w0: Words, w1: Words, blocks: seq<Block>, i: int, m1: Words)
    requires RingOk(blocks, 0) && Linked(w0, w1, blocks) && 1 <= i < |blocks|
    requires m1 == w1[blocks[i - 1].base := blocks[Succ(|blocks|, i)].base]
    ensures var cs := Carve(blocks, i, blocks[i].size);
            RingOk(cs, i - 1) && Linked(w0, m1, cs) && cs[i - 1].base == blocks[i - 1].base
    ensures SameOutside(w1, m1, Cells(blocks))
  {
    assert LinkedAt(w0, w1, blocks, i - 1);
    LinkUnlink(w0, w1, blocks, i, m1);
    CarveSeparated(blocks, i, blocks[i].size);
    TouchedByTake(blocks, i, blocks[i].size);
  }

  lemma TakeFragment(w0: Words, w1: Words, blocks: seq<Block>, i: int, units: int, m0: Words, m1: Words)
    requires RingOk(blocks, 0) && Linked(w0, w1, blocks) && 1 <= i < |blocks| && 0 < units < blocks[i].size
    requires var cur := blocks[i].base;
             && m0 == w0[cur + units := blocks[i].size - units][cur := units]
             && m1 == w1[blocks[i - 1].base := cur + units][cur + units := blocks[Succ(|blocks|, i)].base]
    ensures var cs := Carve(blocks, i, units);
            RingOk(cs, i - 1) && Linked(m0, m1, cs) && cs[i - 1].base == blocks[i - 1].base
    ensures SameOutside(w0, m0, Cells(blocks)) && SameOutside(w1, m1, Cells(blocks))
  {
    assert LinkedAt(w0, w1, blocks, i - 1);
    LinkFragment(w0, w1, blocks, i, Block(blocks[i].base + units, blocks[i].size - units), m0, m1);
    CarveSeparated(blocks, i, units);
    TouchedByTake(blocks, i, units);
  }

  lemma TouchedByTake(blocks: seq<Block>, i: int, units: int)
    requires Separated(blocks) && 1 <= i < |blocks| && 0 < units <= blocks[i].size
    ensures blocks[i - 1].base in Cells(blocks) && blocks[i].base in Cells(blocks)
    ensures units < blocks[i].size ==> blocks[i].base + units in Cells(blocks)
  {
    BaseInCells(blocks, i - 1);
    BaseInCells(blocks, i);
    if units < blocks[i].size {
      assert Covers(blocks[i], blocks[i].base + units);
      CellsBy(blocks, blocks[i].base + units);
    }
  }

  /** A released block, joined or not, leaves a block at least as large in the ring. */
  lemma GrownFits(h: Heap, b: int, n: int, g: Heap)
    requires RingOk(h.blocks, h.rover) && Returned(h, b, n, g)
    ensures !NoFit(g.blocks, n) && Cells(g.blocks) == Cells(h.blocks) + Range(b, n)
  {
    var k :| 1 <= k && Fits(h.blocks, k, b, n)
             && g == h.(blocks := Release(h.blocks, k, b, n), rover := k - 1);
    SeparatedIsOrdered(h.blocks);
    ReleaseCells(h.blocks, k, b, n);
    var x := Joined(h.blocks, k, b, n);
    assert g.blocks[k - JoinsLeft(h.blocks, k, b)] == x && x.size >= n;
  }

  lemma LinkedAfterWrite(w0: Words, w1: Words, blocks: seq<Block>, b: int, n: int)
    requires Linked(w0, w1, blocks) && Separated(blocks) && b !in Cells(blocks)
    ensures Linked(w0[b := n], w1, blocks)
  {
    var w0' := w0[b := n];
    forall i | 0 <= i < |blocks| ensures LinkedAt(w0', w1, blocks, i) {
      assert LinkedAt(w0, w1, blocks, i);
      BaseInCells(blocks, i);
    }
  }

  lemma BaseInCells(blocks: seq<Block>, i: int)
    requires Separated(blocks) && 0 <= i < |blocks|
    ensures blocks[i].base in Cells(blocks)
  {
    assert Covers(blocks[i], blocks[i].base);
    CellsBy(blocks, blocks[i].base);
  }

  // ---- Object headers and the big-block list in memory ----

  function NodeAt(bigs: seq<Big>, i: nat): int {
    if i < |bigs| then bigs[i].node else NULL
  }

  ghost predicate NodeOk(w0: Words, w1: Words, bigs: seq<Big>, i: int)
    requires 0 <= i < |bigs|
  {
    && Holds(w0, w1, bigs[i].node, bigs[i].order, PAGE_UNITS * bigs[i].page)
    && bigs[i].node + 1 in w0 && w0[bigs[i].node + 1] == NodeAt(bigs, i + 1)
  }

  /** Every small object has its size in its header, and the big-block list is chained from its head. */
  ghost predicate MemOk(w0: Words, w1: Words, bigblocks: int, objs: set<Block>, bigs: seq<Big>) {
    && (forall b :: b in objs ==> b.base in w0 && w0[b.base] == b.size)
    && bigblocks == NodeAt(bigs, 0)
    && (forall i :: 0 <= i < |bigs| ==> NodeOk(w0, w1, bigs, i))
  }

  lemma OfferClear(h: Heap, offer: Option<int>)
    requires Inv(h) && (offer.Some? ==> FreshPage(h, offer.value))
    ensures offer.Some? ==> offer.value > 0 && Cells(h.blocks) !! Range(PAGE_UNITS * offer.value, PAGE_UNITS)
    ensures Touched(h, offer, 1) !! CellsOf(Live(h))
  {
    if offer.Some? {
      FreshPageDisjoint(h.pages, offer.value);
    }
  }

  /** Writes outside the blocks handed out leave headers and nodes alone. */
  lemma MemKept(objs: set<Block>, bigs: seq<Big>, bigblocks: int,
                w0: Words, w1: Words, v0: Words, v1: Words, touched: set<int>)
    requires MemOk(w0, w1, bigblocks, objs, bigs) && forall b :: b in objs ==> b.size > 0
    requires SameOutside(w0, v0, touched) && SameOutside(w1, v1, touched)
    requires touched !! CellsOf(objs + Nodes(bigs))
    ensures MemOk(v0, v1, bigblocks, objs, bigs) && Untouched(objs, w0, w1, v0, v1)
  {
    ObjectsClear(objs, bigs, w0, w1, v0, v1, touched);
    hide Untouched;
    var live := objs + Nodes(bigs);
    forall b | b in objs ensures b.base in v0 && v0[b.base] == b.size {
      assert b in live && Covers(b, b.base);
      assert b.base in CellsOf(live);
    }
    forall i | 0 <= i < |bigs| ensures NodeOk(v0, v1, bigs, i) {
      var node := Block(bigs[i].node, 2);
      assert node in live && NodeOk(w0, w1, bigs, i);
      assert Covers(node, node.base) && Covers(node, node.base + 1);
      assert node.base in CellsOf(live) && node.base + 1 in CellsOf(live);
    }
  }

  lemma ObjectsClear(objs: set<Block>, bigs: seq<Big>, w0: Words, w1: Words, v0: Words, v1: Words, touched: set<int>)
    requires SameOutside(w0, v0, touched) && SameOutside(w1, v1, touched) && touched !! CellsOf(objs + Nodes(bigs))
    ensures Untouched(objs, w0, w1, v0, v1)
  {
    assert CellsOf(objs) <= CellsOf(objs + Nodes(bigs));
  }

  /** Writing the `next` field of a node touches no object. */
  lemma NextClear(h: Heap, i: int, w0: Words, w1: Words, v: int)
    requires Inv(h) && 0 <= i < |h.bigs|
    ensures Untouched(h.objs, w0, w1, w0[h.bigs[i].node + 1 := v], w1)
  {
    var n := Block(h.bigs[i].node, 2);
    assert n in Nodes(h.bigs);
    forall a | a in CellsOf(h.objs) ensures a != n.base + 1 {
      var b :| b in h.objs && Covers(b, a);
      assert b in Live(h) && n in Live(h);
    }
  }

  lemma LinkedKept(w0: Words, w1: Words, blocks: seq<Block>, v0: Words, v1: Words, touched: set<int>)
    requires Linked(w0, w1, blocks) && Separated(blocks) && touched !! Cells(blocks)
    requires SameOutside(w0, v0, touched) && SameOutside(w1, v1, touched)
    ensures Linked(v0, v1, blocks)
  {
    forall i | 0 <= i < |blocks| ensures LinkedAt(v0, v1, blocks, i) {
      assert LinkedAt(w0, w1, blocks, i);
      BaseInCells(blocks, i);
    }
  }

  /** A node taken from the ring and not yet recorded clashes with no block, free or live. */
  lemma BetweenClear(h: Heap, m: Heap, a: int)
    requires Between(h, m, Block(a, 2)) && Inv(h)
    ensures {a, a + 1} !! Cells(m.blocks) && Cells(m.blocks) !! Range(a, 2)
    ensures {a, a + 1} !! CellsOf(Live(h)) && Cells(m.blocks) !! CellsOf(Live(h))
    ensures a > ARENA + 1
  {
    var b := Block(a, 2);
    CellsOfAdd(Live(h), b);
    CellsOfRemove(Live(h) + {b}, b);
    assert Live(h) + {b} - {b} == Live(h);
    assert a in Range(a, 2) && a + 1 in Range(a, 2);
    LiveInPages(m.blocks, Live(h) + {b}, m.pages, b, a);
  }

  /** A block handed out clashes with no other block, free or live. */
  lemma RestClear(h: Heap, b: Block)
    requires Inv(h) && b in Live(h)
    ensures Cells(h.blocks) !! Range(b.base, b.size) && b.base > ARENA + 1
    ensures Cells(h.blocks) + Range(b.base, b.size) !! CellsOf(Live(h) - {b})
    ensures b.base in Range(b.base, b.size)
  {
    CellsOfRemove(Live(h), b);
    LiveInPages(h.blocks, Live(h), h.pages, b, b.base);
    assert Covers(b, b.base);
  }

  lemma NodeClear(h: Heap, i: int)
    requires Inv(h) && 0 <= i < |h.bigs|
    ensures Block(h.bigs[i].node, 2) in Live(h) && h.bigs[i].node > ARENA + 1
    ensures h.bigs[i].node !in Cells(h.blocks) && h.bigs[i].node + 1 !in Cells(h.blocks)
  {
    var b := Block(h.bigs[i].node, 2);
    assert b in Nodes(h.bigs);
    RestClear(h, b);
    assert b.base + 1 in Range(b.base, b.size);
  }

  lemma NodesNotNull(h: Heap)
    requires Inv(h)
    ensures forall i :: 0 <= i < |h.bigs| ==> h.bigs[i].node != NULL
  {
    forall i | 0 <= i < |h.bigs| ensures h.bigs[i].node != NULL {
      NodeClear(h, i);
    }
  }

  /** A pointer names one object only, so ksize and kfree know which. */
  lemma PointersUnambiguous(h: Heap, ptr: int)
    requires Inv(h)
    ensures forall b, i :: b in h.objs && b.size >= 2 && 0 <= i < |h.bigs| ==>
              ptr != b.base + 1 || ptr != PAGE_UNITS * h.bigs[i].page
    ensures forall b :: b in h.objs && ptr == b.base + 1 ==>
              (NamesNoRun(h, b) <==> forall i :: 0 <= i < |h.bigs| ==> ptr != PAGE_UNITS * h.bigs[i].page)
    ensures forall b, c :: b in h.objs && c in h.objs && ptr == b.base + 1 && ptr == c.base + 1 ==> b == c
    ensures forall i, j :: 0 <= i < j < |h.bigs| ==> h.bigs[i].page != h.bigs[j].page
  {
    forall b, i | b in h.objs && b.size >= 2 && 0 <= i < |h.bigs|
      ensures ptr != b.base + 1 || ptr != PAGE_UNITS * h.bigs[i].page {
      PointersDiffer(h, b, i);
    }
    forall b, c | b in h.objs && c in h.objs && b.base == c.base ensures b == c {
      assert b in Live(h) && c in Live(h) && Overlap(b, c);
    }
    PagesDiffer(h);
  }

  lemma ChainPush(w0: Words, w1: Words, bigblocks: int, bb: int, big: Big, objs: set<Block>, bigs: seq<Big>)
    requires MemOk(w0, w1, bigblocks, objs, bigs) && bb == big.node
    requires Holds(w0, w1, bb, big.order, PAGE_UNITS * big.page) && bb + 1 in w0 && w0[bb + 1] == bigblocks
    ensures MemOk(w0, w1, bb, objs, [big] + bigs)
  {
    var all := [big] + bigs;
    forall i | 0 <= i < |all| ensures NodeOk(w0, w1, all, i) {
      if i > 0 {
        assert NodeOk(w0, w1, bigs, i - 1);
      }
    }
  }

  /** Unlinking the first node. */
  lemma ChainPop(w0: Words, w1: Words, bigblocks: int, objs: set<Block>, bigs: seq<Big>, head: int)
    requires MemOk(w0, w1, bigblocks, objs, bigs) && bigs != [] && head == NodeAt(bigs, 1)
    ensures MemOk(w0, w1, head, objs, Without(bigs, 0))
  {
    var rest := Without(bigs, 0);
    forall i | 0 <= i < |rest| ensures NodeOk(w0, w1, rest, i) {
      assert NodeOk(w0, w1, bigs, i + 1);
    }
  }

  /** Unlinking a later node by writing the `next` field of the one before it. */
  lemma ChainUnlink(h: Heap, w0: Words, w1: Words, bigblocks: int, m0: Words, i: int)
    requires Inv(h) && MemOk(w0, w1, bigblocks, h.objs, h.bigs) && 1 <= i < |h.bigs|
    requires m0 == w0[h.bigs[i - 1].node + 1 := NodeAt(h.bigs, i + 1)]
    ensures MemOk(m0, w1, bigblocks, h.objs, Without(h.bigs, i))
    ensures h.bigs[i].node in m0 && m0[h.bigs[i].node] == h.bigs[i].order
  {
    hide Tiled, RingOk, BigsOk;
    NodesApart(h);
    assert NodeOk(w0, w1, h.bigs, i);
    var rest, p := Without(h.bigs, i), Block(h.bigs[i - 1].node, 2);
    NodeClear(h, i - 1);
    forall b | b in h.objs ensures b.base in m0 && m0[b.base] == b.size {
      ObjectApart(h, b, i - 1);
    }
    forall j | 0 <= j < |rest| ensures NodeOk(m0, w1, rest, j) {
      assert NodeOk(w0, w1, h.bigs, if j < i then j else j + 1);
    }
  }

  /** Nodes are pairwise apart, both their units. */
  lemma NodesApart(h: Heap)
    requires Inv(h)
    ensures forall i, j :: 0 <= i < |h.bigs| && 0 <= j < |h.bigs| && i != j
              ==> h.bigs[i].node != h.bigs[j].node && h.bigs[i].node != h.bigs[j].node + 1
  {
    forall i, j | 0 <= i < |h.bigs| && 0 <= j < |h.bigs| && i != j
      ensures h.bigs[i].node != h.bigs[j].node && h.bigs[i].node != h.bigs[j].node + 1
    {
      var b, c := Block(h.bigs[i].node, 2), Block(h.bigs[j].node, 2);
      assert b in Nodes(h.bigs) && c in Nodes(h.bigs) && b != c;
      assert !Overlap(b, c);
    }
  }

  lemma LiveWithout(h: Heap, i: int)
    requires Inv(h) && 0 <= i < |h.bigs|
    ensures h.objs + Nodes(Without(h.bigs, i)) == Live(h) - {Block(h.bigs[i].node, 2)}
  {
    NodesWithout(h.bigs, i);
    assert Block(h.bigs[i].node, 2) in Nodes(h.bigs);
  }

  lemma ObjectApart(h: Heap, b: Block, i: int)
    requires Inv(h) && b in h.objs && 0 <= i < |h.bigs|
    ensures b.base != h.bigs[i].node && b.base != h.bigs[i].node + 1
  {
    var c := Block(h.bigs[i].node, 2);
    assert c in Nodes(h.bigs) && b in Live(h);
    assert !Overlap(b, c);
  }

  /** A payload unit is neither a header nor part of a node or a free block. */
  lemma PayloadClear(h: Heap, b: Block, a: int)
    requires Inv(h) && b in h.objs && b.base < a < b.base + b.size
    ensures a !in Cells(h.blocks)
    ensures forall c :: c in h.objs ==> c.base != a
    ensures forall i :: 0 <= i < |h.bigs| ==> a != h.bigs[i].node && a != h.bigs[i].node + 1
  {
    RestClear(h, b);
    assert a in Range(b.base, b.size);
    forall c | c in h.objs ensures c.base != a {
      assert c in Live(h) && b in Live(h) && (c == b || !Overlap(c, b));
    }
    forall i | 0 <= i < |h.bigs| ensures a != h.bigs[i].node && a != h.bigs[i].node + 1 {
      assert Block(h.bigs[i].node, 2) in Nodes(h.bigs);
      assert b in Live(h) && Block(h.bigs[i].node, 2) in Nodes(h.bigs);
      assert !Overlap(Block(h.bigs[i].node, 2), b);
    }
  }
}
