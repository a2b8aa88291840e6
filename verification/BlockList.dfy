/**
 Address-ordered lists of free blocks in which no two blocks overlap or touch.

 Both free lists of the kernel keep this shape: the SLOB ring (in 16-byte units)
 and the first-fit page list (in page frames).  The two pure operations below,
 Carve and Release, are what both allocators refine, and the list is shown to be
 a canonical form of the set of cells it covers.
 */
module BlockList {

  datatype Block = Block(base: int, size: int)

  ghost predicate Separated(bs: seq<Block>) {
    && (forall i :: 0 <= i < |bs| ==> bs[i].size > 0)
    && (forall i, j :: 0 <= i < j < |bs| ==> bs[i].base + bs[i].size < bs[j].base)
  }

  /** Sorted and disjoint; neighbours may touch. */
  ghost predicate Ordered(bs: seq<Block>) {
    && (forall i :: 0 <= i < |bs| ==> bs[i].size > 0)
    && (forall i, j :: 0 <= i < j < |bs| ==> bs[i].base + bs[i].size <= bs[j].base)
  }

  lemma SeparatedIsOrdered(bs: seq<Block>)
    requires Separated(bs)
    ensures Ordered(bs)
  {
  }

  ghost function Range(a: int, n: int): set<int> {
    set u | a <= u < a + n && Covers(Block(a, n), u)
  }

  ghost predicate Covers(b: Block, u: int) {
    b.base <= u < b.base + b.size
  }

  /** The set of cells covered by a list of blocks. */
  ghost function Cells(bs: seq<Block>): set<int> {
    CellsTo(bs, |bs|)
  }

  ghost function CellsTo(bs: seq<Block>, n: int): set<int>
    requires 0 <= n <= |bs|
    decreases n
  {
    if n == 0 then {} else CellsTo(bs, n - 1) + Range(bs[n - 1].base, bs[n - 1].size)
  }

  /** The number of cells in a list of blocks. */
  function Total(bs: seq<Block>): int {
    TotalTo(bs, |bs|)
  }

  function TotalTo(bs: seq<Block>, n: int): int
    requires 0 <= n <= |bs|
    decreases n
  {
    if n == 0 then 0 else TotalTo(bs, n - 1) + bs[n - 1].size
  }

  /** Takes n cells from the front of block i; the block disappears on an exact fit. */
  function Carve(bs: seq<Block>, i: int, n: int): seq<Block>
    requires 0 <= i < |bs| && 0 < n <= bs[i].size
  {
    if bs[i].size == n then bs[..i] + bs[i + 1..]
    else bs[i := Block(bs[i].base + n, bs[i].size - n)]
  }

  /** The cells [b, b + n) fit strictly between the blocks on either side of position k. */
  predicate Fits(bs: seq<Block>, k: int, b: int, n: int) {
    && 0 <= k <= |bs| && n > 0
    && (0 < k ==> bs[k - 1].base + bs[k - 1].size <= b)
    && (k < |bs| ==> b + n <= bs[k].base)
  }

  /** Puts the block [b, b + n) back at position k, joining it with both neighbours it touches. */
  function Release(bs: seq<Block>, k: int, b: int, n: int): seq<Block>
    requires Fits(bs, k, b, n)
  {
    var l, r := JoinsLeft(bs, k, b), JoinsRight(bs, k, b + n);
    bs[..k - l] + [Joined(bs, k, b, n)] + bs[k + r..]
  }

  /** How many blocks (0 or 1) below position k end exactly at b. */
  function JoinsLeft(bs: seq<Block>, k: int, b: int): int
    requires 0 <= k <= |bs|
  {
    if 0 < k && bs[k - 1].base + bs[k - 1].size == b then 1 else 0
  }

  /** How many blocks (0 or 1) at position k start exactly at e. */
  function JoinsRight(bs: seq<Block>, k: int, e: int): int
    requires 0 <= k <= |bs|
  {
    if k < |bs| && e == bs[k].base then 1 else 0
  }

  function Joined(bs: seq<Block>, k: int, b: int, n: int): Block
    requires Fits(bs, k, b, n)
  {
    var lo := if JoinsLeft(bs, k, b) == 1 then bs[k - 1].base else b;
    var hi := if JoinsRight(bs, k, b + n) == 1 then bs[k].base + bs[k].size else b + n;
    Block(lo, hi - lo)
  }

  // ---- How the three measures of a list behave on concatenation ----

  lemma {:induction false} PrefixMeasures(xs: seq<Block>, bs: seq<Block>, n: int)
    requires 0 <= n <= |xs| && n <= |bs| && forall i :: 0 <= i < n ==> xs[i] == bs[i]
    ensures TotalTo(xs, n) == TotalTo(bs, n)
    ensures CellsTo(xs, n) == CellsTo(bs, n)
    decreases n
  {
    if n > 0 {
      PrefixMeasures(xs, bs, n - 1);
    }
  }

  lemma {:induction false} AppendMeasures(xs: seq<Block>, ys: seq<Block>, n: int)
    requires 0 <= n <= |ys|
    ensures TotalTo(xs + ys, |xs| + n) == Total(xs) + TotalTo(ys, n)
    ensures CellsTo(xs + ys, |xs| + n) == Cells(xs) + CellsTo(ys, n)
    decreases n
  {
    if n == 0 {
      PrefixMeasures(xs, xs + ys, |xs|);
    } else {
      AppendMeasures(xs, ys, n - 1);
    }
  }

  lemma Append(xs: seq<Block>, ys: seq<Block>)
    ensures Total(xs + ys) == Total(xs) + Total(ys)
    ensures Cells(xs + ys) == Cells(xs) + Cells(ys)
  {
    AppendMeasures(xs, ys, |ys|);
  }

  /** A cell is covered exactly when some block covers it. */
  lemma CellsBy(bs: seq<Block>, u: int)
    ensures u in Cells(bs) <==> exists i :: 0 <= i < |bs| && Covers(bs[i], u)
  {
    CellsToBy(bs, |bs|, u);
  }

  lemma {:induction false} CellsToBy(bs: seq<Block>, n: int, u: int)
    requires 0 <= n <= |bs|
    ensures u in CellsTo(bs, n) <==> exists i :: 0 <= i < n && Covers(bs[i], u)
    decreases n
  {
    if n > 0 {
      CellsToBy(bs, n - 1, u);
      assert Covers(bs[n - 1], u) <==> u in Range(bs[n - 1].base, bs[n - 1].size);
    }
  }

  /** Some block boundary lies strictly above xs and strictly below ys. */
  predicate Apart(xs: seq<Block>, ys: seq<Block>) {
    xs != [] && ys != [] ==> xs[|xs| - 1].base + xs[|xs| - 1].size < ys[0].base
  }

  lemma SeparatedAppend(xs: seq<Block>, ys: seq<Block>)
    ensures Separated(xs + ys) <==> Separated(xs) && Separated(ys) && Apart(xs, ys)
  {
    var zs := xs + ys;
    if Separated(zs) {
      assert forall i :: 0 <= i < |xs| ==> xs[i] == zs[i];
      assert forall i :: 0 <= i < |ys| ==> ys[i] == zs[|xs| + i];
    }
  }

  lemma Singleton(b: Block)
    ensures Total([b]) == b.size
    ensures Cells([b]) == Range(b.base, b.size)
    ensures Separated([b]) <==> b.size > 0
  {
    assert TotalTo([b], 0) == 0 && CellsTo([b], 0) == {};
  }

  lemma Append3(xs: seq<Block>, ys: seq<Block>, zs: seq<Block>)
    ensures Total(xs + ys + zs) == Total(xs) + Total(ys) + Total(zs)
    ensures Cells(xs + ys + zs) == Cells(xs) + Cells(ys) + Cells(zs)
  {
    Append(xs + ys, zs);
    Append(xs, ys);
  }

  /** A list cut in front of and behind the blocks [i, j). */
  lemma Cut(bs: seq<Block>, i: int, j: int)
    requires 0 <= i <= j <= |bs|
    ensures Total(bs) == Total(bs[..i]) + Total(bs[i..j]) + Total(bs[j..])
    ensures Cells(bs) == Cells(bs[..i]) + Cells(bs[i..j]) + Cells(bs[j..])
  {
    var xs, ys, zs := bs[..i], bs[i..j], bs[j..];
    assert bs == xs + ys + zs;
    Append3(xs, ys, zs);
  }

  lemma CutSeparated(bs: seq<Block>, i: int, j: int)
    requires 0 <= i <= j <= |bs| && Separated(bs)
    ensures Separated(bs[..i]) && Separated(bs[i..j]) && Separated(bs[j..])
  {
  }

  /** The pieces of a sorted and disjoint list share no cells. */
  lemma CutDisjoint(bs: seq<Block>, i: int, j: int)
    requires 0 <= i <= j <= |bs| && Ordered(bs)
    ensures Cells(bs[..i]) !! Cells(bs[i..j])
    ensures Cells(bs[i..j]) !! Cells(bs[j..])
    ensures Cells(bs[..i]) !! Cells(bs[j..])
  {
    forall u ensures u !in Cells(bs[..i]) || u !in Cells(bs[i..j])
             ensures u !in Cells(bs[i..j]) || u !in Cells(bs[j..])
             ensures u !in Cells(bs[..i]) || u !in Cells(bs[j..]) {
      CellsBy(bs[..i], u);
      CellsBy(bs[i..j], u);
      CellsBy(bs[j..], u);
    }
  }

  /** Replacing the blocks [i, j) by one block x. */
  lemma Spliced(bs: seq<Block>, i: int, j: int, x: Block)
    requires 0 <= i <= j <= |bs|
    ensures var cs := bs[..i] + [x] + bs[j..];
            && Total(cs) == Total(bs) - Total(bs[i..j]) + x.size
            && Cells(cs) == Cells(bs[..i]) + Range(x.base, x.size) + Cells(bs[j..])
  {
    Cut(bs, i, j);
    Singleton(x);
    Append3(bs[..i], [x], bs[j..]);
  }

  /** Replacing the blocks [i, j) by one block that covers them and some further cells. */
  lemma SplicedGrows(bs: seq<Block>, i: int, j: int, x: Block, extra: set<int>, n: int)
    requires 0 <= i <= j <= |bs|
    requires Range(x.base, x.size) == Cells(bs[i..j]) + extra && x.size == Total(bs[i..j]) + n
    ensures Total(bs[..i] + [x] + bs[j..]) == Total(bs) + n
    ensures Cells(bs[..i] + [x] + bs[j..]) == Cells(bs) + extra
  {
    Spliced(bs, i, j, x);
    Cut(bs, i, j);
  }

  lemma SplicedSeparated(bs: seq<Block>, i: int, j: int, x: Block)
    requires 0 <= i <= j <= |bs| && Separated(bs) && x.size > 0
    requires 0 < i ==> bs[i - 1].base + bs[i - 1].size < x.base
    requires j < |bs| ==> x.base + x.size < bs[j].base
    ensures Separated(bs[..i] + [x] + bs[j..])
  {
    hide Separated, Cells;
    CutSeparated(bs, i, j);
    Singleton(x);
    SeparatedAppend(bs[..i], [x]);
    SeparatedAppend(bs[..i] + [x], bs[j..]);
  }

  lemma SplicedAt(bs: seq<Block>, i: int, j: int, x: Block, m: int)
    requires 0 <= i <= j <= |bs| && 0 <= m <= |bs| - (j - i)
    ensures var cs := bs[..i] + [x] + bs[j..];
            |cs| == |bs| - (j - i) + 1 && cs[m] == if m < i then bs[m] else if m == i then x else bs[m - i - 1 + j]
  {
  }

  lemma SplicedOrdered(bs: seq<Block>, i: int, j: int, x: Block)
    requires 0 <= i <= j <= |bs| && Ordered(bs) && x.size > 0
    requires 0 < i ==> bs[i - 1].base + bs[i - 1].size <= x.base
    requires j < |bs| ==> x.base + x.size <= bs[j].base
    ensures Ordered(bs[..i] + [x] + bs[j..])
  {
    var cs := bs[..i] + [x] + bs[j..];
    forall m | 0 <= m < |cs| ensures cs[m].size > 0 {
      SplicedAt(bs, i, j, x, m);
    }
    forall m, l | 0 <= m < l < |cs| ensures cs[m].base + cs[m].size <= cs[l].base {
      SplicedAt(bs, i, j, x, m);
      SplicedAt(bs, i, j, x, l);
    }
  }

  // ---- Carve ----

  lemma CarveOrdered(bs: seq<Block>, i: int, n: int)
    requires Ordered(bs) && 0 <= i < |bs| && 0 < n <= bs[i].size
    ensures Ordered(Carve(bs, i, n))
  {
  }

  lemma CarveSeparated(bs: seq<Block>, i: int, n: int)
    requires Separated(bs) && 0 <= i < |bs| && 0 < n <= bs[i].size
    ensures Separated(Carve(bs, i, n))
  {
  }

  /** Carving removes exactly the n lowest cells of the block, and nothing else. */
  lemma CarveCells(bs: seq<Block>, i: int, n: int)
    requires Ordered(bs) && 0 <= i < |bs| && 0 < n <= bs[i].size
    ensures Cells(Carve(bs, i, n)) == Cells(bs) - Range(bs[i].base, n)
    ensures Range(bs[i].base, n) <= Cells(bs)
    ensures Total(Carve(bs, i, n)) == Total(bs) - n
  {
    hide Ordered, Cells, Total;
    SizesPositive(bs);
    var xs, zs := bs[..i], bs[i + 1..];
    CutDisjoint(bs, i, i + 1);
    assert bs[i..i + 1] == [bs[i]];
    Singleton(bs[i]);
    Cut(bs, i, i + 1);
    if bs[i].size == n {
      Append(xs, zs);
    } else {
      var rest := Block(bs[i].base + n, bs[i].size - n);
      assert Carve(bs, i, n) == xs + [rest] + zs;
      Spliced(bs, i, i + 1, rest);
      RangeJoin(bs[i].base, rest.base, rest.base + rest.size);
    }
  }

  // ---- Release ----

  lemma ReleaseOrdered(bs: seq<Block>, k: int, b: int, n: int)
    requires Ordered(bs) && Fits(bs, k, b, n)
    ensures Ordered(Release(bs, k, b, n))
  {
    SplicedOrdered(bs, k - JoinsLeft(bs, k, b), k + JoinsRight(bs, k, b + n), Joined(bs, k, b, n));
  }

  lemma ReleaseSeparated(bs: seq<Block>, k: int, b: int, n: int)
    requires Separated(bs) && Fits(bs, k, b, n)
    ensures Separated(Release(bs, k, b, n))
  {
    SplicedSeparated(bs, k - JoinsLeft(bs, k, b), k + JoinsRight(bs, k, b + n), Joined(bs, k, b, n));
  }

  /** Releasing adds exactly the released cells, whichever neighbours are joined. */
  lemma ReleaseCells(bs: seq<Block>, k: int, b: int, n: int)
    requires Ordered(bs) && Fits(bs, k, b, n)
    ensures Cells(Release(bs, k, b, n)) == Cells(bs) + Range(b, n)
    ensures Total(Release(bs, k, b, n)) == Total(bs) + n
  {
    JoinedCells(bs, k, b, n);
    SplicedGrows(bs, k - JoinsLeft(bs, k, b), k + JoinsRight(bs, k, b + n), Joined(bs, k, b, n), Range(b, n), n);
  }

  lemma JoinedCells(bs: seq<Block>, k: int, b: int, n: int)
    requires Ordered(bs) && Fits(bs, k, b, n)
    ensures var l, r, x := JoinsLeft(bs, k, b), JoinsRight(bs, k, b + n), Joined(bs, k, b, n);
            && Range(x.base, x.size) == Cells(bs[k - l..k + r]) + Range(b, n)
            && x.size == Total(bs[k - l..k + r]) + n
  {
    hide Cells, Total, Range, Ordered;
    var l, r := JoinsLeft(bs, k, b), JoinsRight(bs, k, b + n);
    var below := if l == 1 then [bs[k - 1]] else [];
    var above := if r == 1 then [bs[k]] else [];
    SliceAround(bs, k, l, r);
    SizesPositive(bs);
    JoinedPieces(below, above, b, n, Joined(bs, k, b, n));
  }

  lemma SliceAround(bs: seq<Block>, k: int, l: int, r: int)
    requires 0 <= l <= 1 && 0 <= r <= 1 && l <= k <= |bs| - r
    ensures bs[k - l..k + r] == (if l == 1 then [bs[k - 1]] else []) + (if r == 1 then [bs[k]] else [])
  {
  }

  lemma SizesPositive(bs: seq<Block>)
    requires Ordered(bs)
    ensures forall i :: 0 <= i < |bs| ==> bs[i].size > 0
  {
  }

  lemma JoinedPieces(below: seq<Block>, above: seq<Block>, b: int, n: int, x: Block)
    requires |below| <= 1 && |above| <= 1 && n > 0
    requires forall c :: c in below + above ==> c.size > 0
    requires if below == [] then x.base == b else x.base == below[0].base && below[0].base + below[0].size == b
    requires if above == [] then x.base + x.size == b + n
             else above[0].base == b + n && x.base + x.size == b + n + above[0].size
    ensures Range(x.base, x.size) == Cells(below + above) + Range(b, n)
    ensures x.size == Total(below + above) + n
  {
    Append(below, above);
    AtMostOne(below);
    AtMostOne(above);
    RangeJoin(x.base, b, b + n);
    RangeJoin(x.base, b + n, x.base + x.size);
  }

  lemma RangeJoin(a: int, b: int, c: int)
    requires a <= b <= c
    ensures Range(a, c - a) == Range(a, b - a) + Range(b, c - b)
  {
  }

  lemma AtMostOne(bs: seq<Block>)
    requires |bs| <= 1
    ensures Total(bs) == (if bs == [] then 0 else bs[0].size)
    ensures Cells(bs) == (if bs == [] then {} else Range(bs[0].base, bs[0].size))
  {
    if bs != [] {
      assert bs == [bs[0]];
      Singleton(bs[0]);
    }
  }

  /** A range disjoint from the list fits at the position given by its base. */
  lemma DisjointFits(bs: seq<Block>, k: int, b: int, n: int)
    requires Ordered(bs) && n > 0 && Cells(bs) !! Range(b, n) && 0 <= k <= |bs|
    requires 0 < k ==> bs[k - 1].base < b
    requires k < |bs| ==> b <= bs[k].base
    ensures Fits(bs, k, b, n)
  {
    assert b in Range(b, n);
    CellsBy(bs, b);
    if k < |bs| {
      var u := bs[k].base;
      assert Covers(bs[k], u);
      CellsBy(bs, u);
      assert u !in Range(b, n);
    }
  }

  // ---- Totals, runs and canonicity ----

  /** The total is the number of cells covered. */
  lemma TotalIsCount(bs: seq<Block>)
    requires Ordered(bs)
    ensures |Cells(bs)| == Total(bs)
  {
    TotalToIsCount(bs, |bs|);
  }

  lemma {:induction false} TotalToIsCount(bs: seq<Block>, n: int)
    requires Ordered(bs) && 0 <= n <= |bs|
    ensures |CellsTo(bs, n)| == TotalTo(bs, n)
    decreases n
  {
    hide Ordered, Range;
    if n > 0 {
      var last := bs[n - 1];
      TotalToIsCount(bs, n - 1);
      BelowLast(bs, n);
      RangeCount(last.base, last.size);
      assert |CellsTo(bs, n - 1) + Range(last.base, last.size)| == |CellsTo(bs, n - 1)| + |Range(last.base, last.size)|;
    }
  }

  lemma BelowLast(bs: seq<Block>, n: int)
    requires Ordered(bs) && 0 < n <= |bs|
    ensures bs[n - 1].size > 0
    ensures CellsTo(bs, n - 1) !! Range(bs[n - 1].base, bs[n - 1].size)
  {
    var last := bs[n - 1];
    forall u | u in Range(last.base, last.size) ensures u !in CellsTo(bs, n - 1) {
      CellsToBy(bs, n - 1, u);
    }
  }

  lemma {:induction false} RangeCount(a: int, n: int)
    requires n >= 0
    ensures |Range(a, n)| == n
    decreases n
  {
    if n > 0 {
      RangeCount(a, n - 1);
      assert Range(a, n) == Range(a, n - 1) + {a + n - 1};
    }
  }

  /** A run of consecutive covered cells lies inside one block, since blocks do not touch. */
  lemma {:induction false} RunInsideBlock(bs: seq<Block>, p: int, n: int) returns (i: int)
    requires Separated(bs) && n > 0 && Range(p, n) <= Cells(bs)
    ensures 0 <= i < |bs| && bs[i].base <= p && p + n <= bs[i].base + bs[i].size
    decreases n
  {
    assert p + n - 1 in Range(p, n);
    CellsBy(bs, p + n - 1);
    if n == 1 {
      i :| 0 <= i < |bs| && Covers(bs[i], p);
    } else {
      assert Range(p, n - 1) <= Range(p, n);
      i := RunInsideBlock(bs, p, n - 1);
      var j :| 0 <= j < |bs| && Covers(bs[j], p + n - 1);
      assert i == j;
    }
  }

  /** Two such lists covering the same cells are the same list. */
  lemma {:induction false} Canonical(bs: seq<Block>, cs: seq<Block>)
    requires Separated(bs) && Separated(cs) && Cells(bs) == Cells(cs)
    ensures bs == cs
  {
    EmptyCells(bs);
    EmptyCells(cs);
    if bs != [] {
      LastBlockSame(bs, cs);
      LastBlockSame(cs, bs);
      var b := bs[|bs| - 1];
      assert b == cs[|cs| - 1];
      FrontCells(bs);
      FrontCells(cs);
      Canonical(bs[..|bs| - 1], cs[..|cs| - 1]);
      assert bs == bs[..|bs| - 1] + [b] == cs[..|cs| - 1] + [b] == cs;
    }
  }

  lemma EmptyCells(bs: seq<Block>)
    requires Separated(bs)
    ensures Cells(bs) == {} <==> bs == []
  {
    if bs != [] {
      assert Covers(bs[0], bs[0].base);
      CellsBy(bs, bs[0].base);
    }
  }

  lemma FrontCells(bs: seq<Block>)
    requires Separated(bs) && bs != []
    ensures Cells(bs[..|bs| - 1]) == Cells(bs) - Range(bs[|bs| - 1].base, bs[|bs| - 1].size)
  {
    var n := |bs| - 1;
    SeparatedIsOrdered(bs);
    CutDisjoint(bs, n, n + 1);
    assert bs[n..n + 1] == [bs[n]];
    Cut(bs, n, n + 1);
    Singleton(bs[|bs| - 1]);
  }

  /** Half of the comparison of the highest blocks of two lists with the same cells. */
  lemma LastBlockSame(bs: seq<Block>, cs: seq<Block>)
    requires Separated(bs) && Separated(cs) && Cells(bs) == Cells(cs) && bs != [] && cs != []
    ensures var b, c := bs[|bs| - 1], cs[|cs| - 1]; c.base <= b.base && b.base + b.size <= c.base + c.size
  {
    var b, c := bs[|bs| - 1], cs[|cs| - 1];
    var i := RunInsideBlock(cs, b.base, b.size);
    assert Covers(c, c.base);
    CellsBy(cs, c.base);
    CellsBy(bs, c.base);
  }

  // ---- Cells of unordered collections of blocks ----

  ghost function CellsOf(s: set<Block>): set<int> {
    set b: Block, u: int | b in s && b.base <= u < b.base + b.size && Covers(b, u) :: u
  }

  ghost predicate Overlap(b: Block, c: Block) {
    b.base < c.base + c.size && c.base < b.base + b.size
  }

  ghost predicate NoOverlap(s: set<Block>) {
    && (forall b :: b in s ==> b.size > 0)
    && (forall b, c :: b in s && c in s && b != c ==> !Overlap(b, c))
  }

  lemma CellsOfAdd(s: set<Block>, b: Block)
    ensures CellsOf(s + {b}) == CellsOf(s) + Range(b.base, b.size)
  {
    forall u | u in CellsOf(s) + Range(b.base, b.size) ensures u in CellsOf(s + {b}) {
      if u !in CellsOf(s) {
        assert Covers(b, u) && b in s + {b};
      }
    }
  }

  lemma CellsOfRemove(s: set<Block>, b: Block)
    requires NoOverlap(s) && b in s
    ensures CellsOf(s - {b}) == CellsOf(s) - Range(b.base, b.size)
    ensures Range(b.base, b.size) <= CellsOf(s)
  {
    assert s == (s - {b}) + {b};
    CellsOfAdd(s - {b}, b);
    forall u | u in CellsOf(s - {b}) ensures u !in Range(b.base, b.size) {
      var c :| c in s - {b} && Covers(c, u);
      assert !Overlap(b, c);
    }
  }

  lemma RangeInCellsOf(s: set<Block>, b: Block)
    requires b in s
    ensures Range(b.base, b.size) <= CellsOf(s)
  {
    forall u | u in Range(b.base, b.size) ensures u in CellsOf(s) {
      assert Covers(b, u);
    }
  }

  lemma RangesOverlap(b: Block, c: Block)
    requires b.size > 0 && c.size > 0 && Range(b.base, b.size) !! Range(c.base, c.size)
    ensures !Overlap(b, c)
  {
    assert b.base in Range(b.base, b.size);
    assert c.base in Range(c.base, c.size);
  }

  lemma NoOverlapAdd(s: set<Block>, b: Block)
    requires NoOverlap(s) && b.size > 0 && CellsOf(s) !! Range(b.base, b.size)
    ensures NoOverlap(s + {b}) && b !in s
  {
    assert b.base in Range(b.base, b.size);
    forall c | c in s ensures !Overlap(b, c) && !Overlap(c, b) && b != c {
      RangeInCellsOf(s, c);
      RangesOverlap(b, c);
    }
  }

  lemma NoOverlapLess(s: set<Block>, b: Block)
    requires NoOverlap(s)
    ensures NoOverlap(s - {b})
  {
  }

  /** The number of cells in a set of blocks. */
  ghost function SizeOf(s: set<Block>): int {
    if s == {} then 0 else
      FirstOf(s).size + SizeOf(s - {FirstOf(s)})
  }

  /** Some block of a set, the same one every time. */
  ghost function FirstOf(s: set<Block>): (b: Block)
    requires s != {}
    ensures b in s
  {
    var b :| b in s; b
  }

  lemma {:induction false} SizeIsCount(s: set<Block>)
    requires NoOverlap(s)
    ensures |CellsOf(s)| == SizeOf(s)
    decreases s
  {
    if s == {} {
      assert CellsOf(s) == {};
    } else {
      var b := FirstOf(s);
      SizeIsCount(s - {b});
      CellsOfRemove(s, b);
      RangeCount(b.base, b.size);
      assert CellsOf(s) == CellsOf(s - {b}) + Range(b.base, b.size);
    }
  }
}
