/**
 The first-fit page allocator over the page descriptors and their list links
 (kern/mm/default_pmm.c on top of libs/list.h).

 Link cell p belongs to page p; the cell after the last page is the list head.
 */
module FirstFit {
  import opened Wrappers
  import opened BlockList
  import opened FirstFitSpec
  import L = LinkList

  datatype Page = Page(ref: int, reserved: bool, head: bool, property: nat)

  // ---- Memory and abstract list ----

  /** The listed cells are the first pages of the blocks. */
  ghost predicate Names(nodes: seq<nat>, blocks: seq<Block>) {
    |nodes| == |blocks| && forall i :: 0 <= i < |blocks| ==> nodes[i] == blocks[i].base
  }

  ghost predicate IsBase(blocks: seq<Block>, p: int) {
    exists i :: 0 <= i < |blocks| && blocks[i].base == p
  }

  ghost predicate InDescriptors(pages: seq<Page>, b: Block) {
    0 <= b.base < b.base + b.size <= |pages| && pages[b.base].property == b.size
  }

  /** The descriptors agree with the list: sizes, PG_property exactly on heads, free pages clean. */
  ghost predicate Described(pages: seq<Page>, blocks: seq<Block>) {
    && (forall i :: 0 <= i < |blocks| ==> InDescriptors(pages, blocks[i]))
    && (forall p :: 0 <= p < |pages| ==> (pages[p].head <==> IsBase(blocks, p)))
    && (forall p :: 0 <= p < |pages| && p in Cells(blocks) ==> !pages[p].reserved && pages[p].ref == 0)
  }

  /** Reference counts and PG_reserved are the same outside the pages [b, b + n). */
  ghost predicate SameUse(pages: seq<Page>, ps: seq<Page>, b: int, n: int) {
    && |ps| == |pages|
    && forall p :: 0 <= p < |pages| && !(b <= p < b + n)
        ==> ps[p].reserved == pages[p].reserved && ps[p].ref == pages[p].ref
  }

  /** The pages [b, b + n) are neither reserved nor referenced. */
  ghost predicate Unused(pages: seq<Page>, b: nat, n: nat) {
    b + n <= |pages| && forall p :: b <= p < b + n ==> !pages[p].reserved && pages[p].ref == 0
  }

  lemma UnusedStill(pages: seq<Page>, ps: seq<Page>, b: nat, n: nat)
    requires Unused(pages, b, n) && SameUse(pages, ps, 0, 0)
    ensures Unused(ps, b, n)
  {
  }

  lemma SameUseTwice(pages: seq<Page>, mid: seq<Page>, ps: seq<Page>, b: int, n: int)
    requires SameUse(pages, mid, b, n) && SameUse(mid, ps, 0, 0)
    ensures SameUse(pages, ps, b, n)
  {
  }

  lemma PreparedUse(pages: seq<Page>, ps: seq<Page>, x: Block)
    requires Prepared(pages, ps, x)
    ensures SameUse(pages, ps, x.base, x.size) && Unused(ps, x.base, x.size)
  {
  }

  ghost predicate Rep(links: seq<L.Link>, pages: seq<Page>, nr: int, nodes: seq<nat>, blocks: seq<Block>,
                      torn: set<nat>) {
    && |links| == |pages| + 1
    && L.Linked(links, |pages|, nodes, torn)
    && Names(nodes, blocks) && Ordered(blocks) && Described(pages, blocks)
    && nr == Total(blocks)
  }

  /** The two neighbours i and i + 1 made one block. */
  function Joint(blocks: seq<Block>, i: int): seq<Block>
    requires 0 <= i < |blocks| - 1
  {
    blocks[..i] + [Block(blocks[i].base, blocks[i].size + blocks[i + 1].size)] + blocks[i + 2..]
  }

  function Listed(blocks: seq<Block>, k: int, x: Block): seq<Block>
    requires 0 <= k <= |blocks|
  {
    blocks[..k] + [x] + blocks[k..]
  }

  // ---- Joining two neighbours ----

  lemma JointCells(blocks: seq<Block>, i: int)
    requires Ordered(blocks) && 0 <= i < |blocks| - 1
    requires blocks[i].base + blocks[i].size == blocks[i + 1].base
    ensures Ordered(Joint(blocks, i)) && Cells(Joint(blocks, i)) == Cells(blocks)
        && Total(Joint(blocks, i)) == Total(blocks)
  {
    var x := Block(blocks[i].base, blocks[i].size + blocks[i + 1].size);
    assert blocks[i..i + 2] == [blocks[i]] + [blocks[i + 1]];
    Append([blocks[i]], [blocks[i + 1]]);
    Singleton(blocks[i]);
    Singleton(blocks[i + 1]);
    RangeJoin(x.base, blocks[i + 1].base, x.base + x.size);
    SplicedGrows(blocks, i, i + 2, x, {}, 0);
  }

  lemma JointBases(blocks: seq<Block>, i: int, p: int)
    requires Ordered(blocks) && 0 <= i < |blocks| - 1
    ensures IsBase(Joint(blocks, i), p) <==> IsBase(blocks, p) && p != blocks[i + 1].base
  {
    hide Joint, Ordered, IsBase;
    var cs := Joint(blocks, i);
    JointAt(blocks, i, 0);
    if IsBase(cs, p) {
      var j := BaseIndex(cs, p);
      JointAt(blocks, i, j);
      AtBase(blocks, if j <= i then j else j + 1);
      BasesDiffer(blocks, if j <= i then j else j + 1, i + 1);
    }
    if IsBase(blocks, p) && p != blocks[i + 1].base {
      var j := BaseIndex(blocks, p);
      JointAt(blocks, i, if j <= i then j else j - 1);
      AtBase(cs, if j <= i then j else j - 1);
    }
  }

  lemma JointAt(blocks: seq<Block>, i: int, j: int)
    requires 0 <= i < |blocks| - 1 && 0 <= j < |blocks| - 1
    ensures |Joint(blocks, i)| == |blocks| - 1
    ensures Joint(blocks, i)[j] == if j == i then Block(blocks[i].base, blocks[i].size + blocks[i + 1].size)
                                   else blocks[if j < i then j else j + 1]
  {
  }

  lemma BaseIndex(blocks: seq<Block>, p: int) returns (i: int)
    requires IsBase(blocks, p)
    ensures 0 <= i < |blocks| && blocks[i].base == p
  {
    i :| 0 <= i < |blocks| && blocks[i].base == p;
  }

  lemma AtBase(blocks: seq<Block>, i: int)
    requires 0 <= i < |blocks|
    ensures IsBase(blocks, blocks[i].base)
  {
  }

  lemma BasesDiffer(blocks: seq<Block>, i: int, j: int)
    requires Ordered(blocks) && 0 <= i < |blocks| && 0 <= j < |blocks|
    ensures blocks[i].base == blocks[j].base <==> i == j
  {
  }

  lemma JointElement(pages: seq<Page>, ps: seq<Page>, blocks: seq<Block>, i: int, j: int)
    requires Ordered(blocks) && 0 <= i < |blocks| - 1 && 0 <= j < |Joint(blocks, i)| == |blocks| - 1
    requires blocks[i].base + blocks[i].size == blocks[i + 1].base
    requires InDescriptors(pages, blocks[i]) && InDescriptors(pages, blocks[i + 1])
    requires InDescriptors(pages, blocks[if j <= i then j else j + 1])
    requires var lo, hi := blocks[i].base, blocks[i + 1].base;
             ps == pages[lo := pages[lo].(property := blocks[i].size + blocks[i + 1].size)]
                        [hi := pages[hi].(head := false)]
    ensures InDescriptors(ps, Joint(blocks, i)[j])
  {
    hide Joint, Ordered;
    JointAt(blocks, i, j);
    BasesDiffer(blocks, if j <= i then j else j + 1, i);
    BasesDiffer(blocks, if j <= i then j else j + 1, i + 1);
  }

  lemma JointDescribed(pages: seq<Page>, blocks: seq<Block>, i: int)
    requires Ordered(blocks) && Described(pages, blocks) && 0 <= i < |blocks| - 1
    requires blocks[i].base + blocks[i].size == blocks[i + 1].base
    ensures InDescriptors(pages, blocks[i]) && InDescriptors(pages, blocks[i + 1])
    ensures Described(JoinedPages(pages, blocks, i), Joint(blocks, i))
  {
    var lo, hi := blocks[i].base, blocks[i + 1].base;
    var ps := pages[lo := pages[lo].(property := blocks[i].size + blocks[i + 1].size)][hi := pages[hi].(head := false)];
    var cs := Joint(blocks, i);
    JointCells(blocks, i);
    AtBase(blocks, i);
    JointAt(blocks, i, 0);
    hide IsBase, Joint, Ordered, Cells;
    assert InDescriptors(pages, blocks[i]) && InDescriptors(pages, blocks[i + 1]);
    forall j | 0 <= j < |cs| ensures InDescriptors(ps, cs[j]) {
      assert InDescriptors(pages, blocks[if j <= i then j else j + 1]);
      JointElement(pages, ps, blocks, i, j);
    }
    hide InDescriptors;
    forall p | 0 <= p < |ps| ensures ps[p].head <==> IsBase(cs, p) {
      JointBases(blocks, i, p);
    }
  }

  // ---- Carving ----

  lemma CarveBases(blocks: seq<Block>, i: int, n: int, p: int)
    requires Ordered(blocks) && 0 <= i < |blocks| && 0 < n <= blocks[i].size
    ensures IsBase(Carve(blocks, i, n), p)
            <==> (IsBase(blocks, p) && p != blocks[i].base) || (n < blocks[i].size && p == blocks[i].base + n)
  {
    hide Carve, Ordered, IsBase;
    var cs := Carve(blocks, i, n);
    var shift := CarveShift(blocks, i, n);
    if IsBase(cs, p) {
      var j := BaseIndex(cs, p);
      CarveIndex(blocks, i, n, j);
      BasesDiffer(blocks, if j < i then j else j + shift, i);
      AtBase(blocks, if j < i then j else j + shift);
    }
    if IsBase(blocks, p) && p != blocks[i].base {
      var j := BaseIndex(blocks, p);
      CarveIndex(blocks, i, n, if j < i then j else j - shift);
      AtBase(cs, if j < i then j else j - shift);
    }
    if n < blocks[i].size {
      CarveIndex(blocks, i, n, i);
      AtBase(cs, i);
    }
  }

  /** How far carving moves the blocks behind block i: one place down on an exact fit. */
  function CarveShift(blocks: seq<Block>, i: int, n: int): int
    requires 0 <= i < |blocks|
  {
    if blocks[i].size == n then 1 else 0
  }

  lemma CarveIndex(blocks: seq<Block>, i: int, n: int, j: int)
    requires 0 <= i < |blocks| && 0 < n <= blocks[i].size
    ensures |Carve(blocks, i, n)| == |blocks| - CarveShift(blocks, i, n)
    ensures 0 <= j < |Carve(blocks, i, n)| ==>
      Carve(blocks, i, n)[j] == if j == i && n < blocks[i].size then Block(blocks[i].base + n, blocks[i].size - n)
                                else blocks[if j < i then j else j + CarveShift(blocks, i, n)]
  {
  }

  lemma CarveSubset(blocks: seq<Block>, i: int, n: int)
    requires Ordered(blocks) && 0 <= i < |blocks| && 0 < n <= blocks[i].size
    ensures Cells(Carve(blocks, i, n)) <= Cells(blocks) && Total(Carve(blocks, i, n)) == Total(blocks) - n
  {
    hide Cells, Total, Ordered;
    var rest := Block(blocks[i].base + n, blocks[i].size - n);
    assert blocks[i..i + 1] == [blocks[i]];
    Singleton(blocks[i]);
    Cut(blocks, i, i + 1);
    if blocks[i].size == n {
      Append(blocks[..i], blocks[i + 1..]);
    } else {
      assert Carve(blocks, i, n) == blocks[..i] + [rest] + blocks[i + 1..];
      Spliced(blocks, i, i + 1, rest);
      RangeJoin(blocks[i].base, rest.base, rest.base + rest.size);
    }
  }

  /** The descriptors after taking n pages from the front of block i. */
  function CarvedPages(pages: seq<Page>, p: nat, n: nat): (ps: seq<Page>)
    requires p < |pages| && (n < pages[p].property ==> p + n < |pages|)
    ensures |ps| == |pages|
  {
    (if n < pages[p].property
     then pages[p + n := pages[p + n].(property := pages[p].property - n, head := true)]
     else pages)[p := pages[p].(head := false)]
  }

  lemma CarvedPagesIs(pages: seq<Page>, p: nat, n: nat)
    requires p < |pages| && (n < pages[p].property ==> p + n < |pages|) && n > 0
    ensures SameUse(pages, CarvedPages(pages, p, n), 0, 0)
    ensures CarvedPages(pages, p, n)
            == if n < pages[p].property
               then pages[p + n := pages[p + n].(property := pages[p].property - n, head := true)]
                    [p := pages[p].(head := false)]
               else pages[p := pages[p].(head := false)]
  {
  }

  lemma CarveAt(pages: seq<Page>, blocks: seq<Block>, i: int, n: nat, j: int)
    requires Ordered(blocks) && Described(pages, blocks) && 0 <= i < |blocks| && 0 < n <= blocks[i].size
    requires InDescriptors(pages, blocks[i]) && 0 <= j < |Carve(blocks, i, n)|
    ensures InDescriptors(CarvedPages(pages, blocks[i].base, n), Carve(blocks, i, n)[j])
  {
    hide IsBase, Carve;
    CarveIndex(blocks, i, n, j);
    var shift := CarveShift(blocks, i, n);
    if !(j == i && n < blocks[i].size) {
      assert InDescriptors(pages, blocks[if j < i then j else j + shift]);
      BasesDiffer(blocks, if j < i then j else j + shift, i);
    }
  }

  lemma CarveDescribed(pages: seq<Page>, blocks: seq<Block>, i: int, n: nat)
    requires Ordered(blocks) && Described(pages, blocks) && 0 <= i < |blocks| && 0 < n <= blocks[i].size
    ensures InDescriptors(pages, blocks[i])
    ensures Described(CarvedPages(pages, blocks[i].base, n), Carve(blocks, i, n))
  {
    hide IsBase, Carve, Ordered;
    assert InDescriptors(pages, blocks[i]);
    var ps, cs := CarvedPages(pages, blocks[i].base, n), Carve(blocks, i, n);
    CarveSubset(blocks, i, n);
    AtBase(blocks, i);
    forall j | 0 <= j < |cs| ensures InDescriptors(ps, cs[j]) {
      CarveAt(pages, blocks, i, n, j);
    }
    hide InDescriptors;
    forall p | 0 <= p < |ps| ensures ps[p].head <==> IsBase(cs, p) {
      CarveBases(blocks, i, n, p);
    }
  }

  // ---- Listing a new block ----

  lemma ListedOrdered(blocks: seq<Block>, k: int, x: Block)
    requires Ordered(blocks) && Fits(blocks, k, x.base, x.size)
    ensures Ordered(Listed(blocks, k, x))
    ensures Cells(Listed(blocks, k, x)) == Cells(blocks) + Range(x.base, x.size)
    ensures Total(Listed(blocks, k, x)) == Total(blocks) + x.size
  {
    SplicedOrdered(blocks, k, k, x);
    assert blocks[k..k] == [];
    hide Ordered;
    SplicedGrows(blocks, k, k, x, Range(x.base, x.size), x.size);
  }

  lemma ListedBases(blocks: seq<Block>, k: int, x: Block, p: int)
    requires 0 <= k <= |blocks|
    ensures IsBase(Listed(blocks, k, x), p) <==> IsBase(blocks, p) || p == x.base
  {
    hide Listed, IsBase;
    var cs := Listed(blocks, k, x);
    ListedAt(blocks, k, x, k);
    AtBase(cs, k);
    if IsBase(cs, p) {
      var j := BaseIndex(cs, p);
      ListedAt(blocks, k, x, j);
      if j != k {
        AtBase(blocks, if j < k then j else j - 1);
      }
    }
    if IsBase(blocks, p) {
      var j := BaseIndex(blocks, p);
      ListedAt(blocks, k, x, if j < k then j else j + 1);
      AtBase(cs, if j < k then j else j + 1);
    }
  }

  lemma ListedAt(blocks: seq<Block>, k: int, x: Block, j: int)
    requires 0 <= k <= |blocks| && 0 <= j <= |blocks|
    ensures |Listed(blocks, k, x)| == |blocks| + 1
    ensures Listed(blocks, k, x)[j] == if j < k then blocks[j] else if j == k then x else blocks[j - 1]
  {
  }

  /** The descriptors after a block has been marked as a head, its pages having been cleared. */
  ghost predicate Prepared(pages: seq<Page>, ps: seq<Page>, x: Block) {
    && |ps| == |pages| && 0 <= x.base < x.base + x.size <= |pages|
    && (forall p :: 0 <= p < |pages| && !(x.base <= p < x.base + x.size) ==> ps[p] == pages[p])
    && (forall p :: x.base <= p < x.base + x.size ==>
          !ps[p].reserved && ps[p].ref == 0 && (ps[p].head <==> p == x.base))
    && ps[x.base].property == x.size
  }

  lemma NoBaseBetween(blocks: seq<Block>, k: int, x: Block, p: int)
    requires Ordered(blocks) && Fits(blocks, k, x.base, x.size)
    ensures x.base <= p < x.base + x.size ==> !IsBase(blocks, p)
  {
    if IsBase(blocks, p) {
      var j := BaseIndex(blocks, p);
      BaseOutside(blocks, k, x, j);
    }
  }

  lemma BaseOutside(blocks: seq<Block>, k: int, x: Block, j: int)
    requires Ordered(blocks) && Fits(blocks, k, x.base, x.size) && 0 <= j < |blocks|
    ensures !(x.base <= blocks[j].base < x.base + x.size)
  {
  }

  lemma ListedDescribed(pages: seq<Page>, ps: seq<Page>, blocks: seq<Block>, k: int, x: Block)
    requires Ordered(blocks) && Described(pages, blocks) && Fits(blocks, k, x.base, x.size) && Prepared(pages, ps, x)
    ensures Described(ps, Listed(blocks, k, x))
  {
    hide IsBase, Listed, Ordered;
    var cs := Listed(blocks, k, x);
    ListedOrdered(blocks, k, x);
    ListedAt(blocks, k, x, 0);
    forall j | 0 <= j < |cs| ensures InDescriptors(ps, cs[j]) {
      ListedAt(blocks, k, x, j);
      if j != k {
        assert InDescriptors(pages, blocks[if j < k then j else j - 1]);
        BaseOutside(blocks, k, x, if j < k then j else j - 1);
      }
    }
    forall p | 0 <= p < |ps| ensures ps[p].head <==> IsBase(cs, p) {
      ListedBases(blocks, k, x, p);
      NoBaseBetween(blocks, k, x, p);
    }
  }

  // ---- The allocator ----

  function CarvedNodes(nodes: seq<nat>, blocks: seq<Block>, i: nat, n: nat): seq<nat>
    requires i < |nodes| == |blocks| && blocks[i].base >= 0
  {
    var rest := L.Dropped(nodes, i);
    if n < blocks[i].size then L.Inserted(rest, i, blocks[i].base + n) else rest
  }

  /** The links after list_del and, for a remainder, list_add. */
  function CarvedLinks(links: seq<L.Link>, prev: nat, next: nat, more: bool, p: nat): (ls: seq<L.Link>)
    requires prev < |links| && next < |links| && (more ==> p < |links|)
    ensures |ls| == |links|
  {
    var ls := L.Deleted(links, prev, next);
    if more then L.Added(ls, p, prev, next) else ls
  }

  lemma CarvedNames(nodes: seq<nat>, blocks: seq<Block>, i: nat, n: nat)
    requires Names(nodes, blocks) && i < |blocks| && 0 < n <= blocks[i].size
    ensures Names(CarvedNodes(nodes, blocks, i, n), Carve(blocks, i, n))
  {
  }

  lemma FreshNode(nodes: seq<nat>, blocks: seq<Block>, i: nat, p: nat)
    requires Names(nodes, blocks) && Ordered(blocks) && i < |blocks|
    requires blocks[i].base < p < blocks[i].base + blocks[i].size
    ensures p !in nodes
  {
  }

  lemma NodeIs(nodes: seq<nat>, blocks: seq<Block>, i: nat)
    requires Names(nodes, blocks) && i < |blocks|
    ensures |nodes| == |blocks| && nodes[i] == blocks[i].base
  {
  }

  lemma CarvedLinked(links: seq<L.Link>, head: nat, nodes: seq<nat>, blocks: seq<Block>, torn: set<nat>, i: nat, n: nat)
    requires L.Linked(links, head, nodes, torn) && Names(nodes, blocks) && Ordered(blocks)
    requires i < |blocks| && 0 < n <= blocks[i].size && blocks[i].base + blocks[i].size <= head
    requires nodes[i] !in torn
    ensures L.Linked(CarvedLinks(links, L.At(nodes, head, i - 1), L.At(nodes, head, i + 1),
                                  n < blocks[i].size, blocks[i].base + n),
                     head, CarvedNodes(nodes, blocks, i, n), torn - {L.At(nodes, head, i + 1)})
  {
    hide L.Linked, L.Deleted, L.Added, L.At, L.Inserted, Ordered, Names, L.Dropped;
    LinkedPositions(links, head, nodes, torn, i);
    NodeIs(nodes, blocks, i);
    if n < blocks[i].size {
      FreshNode(nodes, blocks, i, blocks[i].base + n);
      ReplacedLinked(links, head, nodes, i, blocks[i].base + n, torn);
    } else {
      L.DeletedLinked(links, head, nodes, i, torn);
    }
  }

  /** list_del of a node and list_add of another cell in its place. */
  lemma ReplacedLinked(links: seq<L.Link>, head: nat, nodes: seq<nat>, i: nat, p: nat, torn: set<nat>)
    requires L.Linked(links, head, nodes, torn) && Positions(links, head, nodes, i)
    requires i < |nodes| && p < head < |links| && p !in nodes && nodes[i] !in torn
    ensures var prev, next := L.At(nodes, head, i - 1), L.At(nodes, head, i + 1);
            && |L.Dropped(nodes, i)| == |nodes| - 1
            && L.Linked(L.Added(L.Deleted(links, prev, next), p, prev, next),
                        head, L.Inserted(L.Dropped(nodes, i), i, p), torn - {next})
  {
    var ls, rest := L.Deleted(links, L.At(nodes, head, i - 1), L.At(nodes, head, i + 1)), L.Dropped(nodes, i);
    hide L.Linked, L.Deleted, L.Added, L.At, L.Inserted, L.Dropped;
    L.DeletedLinked(links, head, nodes, i, torn);
    L.DroppedHas(nodes, i);
    L.AtDropped(nodes, head, i, i - 1);
    L.AtDropped(nodes, head, i, i);
    L.AddedLinked(ls, head, rest, i, p, torn - {L.At(nodes, head, i + 1)});
  }

  /** Everything about a state after pages have been carved from block i. */
  lemma CarvedRep(links: seq<L.Link>, pages: seq<Page>, nr: int, nodes: seq<nat>, blocks: seq<Block>, torn: set<nat>,
                  i: nat, n: nat)
    requires Rep(links, pages, nr, nodes, blocks, torn) && i < |blocks| && 0 < n <= blocks[i].size
    requires nodes[i] !in torn
    ensures InDescriptors(pages, blocks[i]) && Positions(links, |pages|, nodes, i)
    ensures Rep(CarvedLinks(links, L.At(nodes, |pages|, i - 1), L.At(nodes, |pages|, i + 1),
                                  n < blocks[i].size, blocks[i].base + n),
                CarvedPages(pages, blocks[i].base, n), nr - n,
                CarvedNodes(nodes, blocks, i, n), Carve(blocks, i, n), torn - {L.At(nodes, |pages|, i + 1)})
  {
    hide L.Linked, L.At, Ordered, Described, Carve, Total, Cells, CarvedLinks, CarvedPages, CarvedNodes;
    CarveDescribed(pages, blocks, i, n);
    CarveSubset(blocks, i, n);
    CarveOrdered(blocks, i, n);
    CarvedNames(nodes, blocks, i, n);
    LinkedPositions(links, |pages|, nodes, torn, i);
    CarvedLinked(links, |pages|, nodes, blocks, torn, i, n);
  }

  /** The cells around position i exist. */
  ghost predicate Positions(links: seq<L.Link>, head: nat, nodes: seq<nat>, i: int) {
    L.At(nodes, head, i - 1) < |links| && L.At(nodes, head, i) < |links| && L.At(nodes, head, i + 1) < |links|
  }

  lemma LinkedPositions(links: seq<L.Link>, head: nat, nodes: seq<nat>, torn: set<nat>, i: int)
    requires L.Linked(links, head, nodes, torn)
    ensures Positions(links, head, nodes, i) && head < |links|
  {
  }

  /** Taking pages from a torn block: it stays on the list, with the remainder behind it. */
  lemma StuckLinked(links: seq<L.Link>, pages: seq<Page>, nr: int, nodes: seq<nat>, blocks: seq<Block>,
                    torn: set<nat>, i: nat, n: nat)
    requires Rep(links, pages, nr, nodes, blocks, torn) && i < |blocks| && 0 < n <= blocks[i].size && nodes[i] in torn
    ensures var page, next, p := nodes[i], L.At(nodes, |pages|, i + 1), nodes[i] + n;
            var more := n < blocks[i].size;
            && page < |links| && next < |links| && (more ==> p < |links|)
            && L.Linked(CarvedLinks(links, page, next, more, p), |pages|, StuckNodes(nodes, i, more, p), torn - {next})
  {
    hide L.Linked, L.Deleted, L.Added, L.At, L.Inserted;
    var head := |pages|;
    L.TornDelete(links, head, nodes, i, torn);
    assert InDescriptors(pages, blocks[i]);
    if n < blocks[i].size {
      FreshNode(nodes, blocks, i, nodes[i] + n);
      hide Rep, Names, Ordered;
      L.AtSelf(nodes, head, i);
      var ls := L.Deleted(links, nodes[i], L.At(nodes, head, i + 1));
      L.AddedLinked(ls, head, nodes, i + 1, nodes[i] + n, torn - {L.At(nodes, head, i + 1)});
    }
  }

  function StuckNodes(nodes: seq<nat>, i: nat, more: bool, p: nat): seq<nat>
    requires i < |nodes|
  {
    if more then L.Inserted(nodes, i + 1, p) else nodes
  }

  /** An insertion at position k would go directly below a torn node. */
  ghost predicate BelowTorn(nodes: seq<nat>, torn: set<nat>, k: int) {
    0 <= k < |nodes| && nodes[k] in torn
  }

  /**
   The insertion shared by default_init_memmap and default_free_pages.  The loop has no
   `break` after appending behind the last node, so it meets the new node and adds it again.
   */
  method InsertSorted(links: array<L.Link>, base: nat, ghost nodes: seq<nat>, ghost torn: set<nat>)
                      returns (ghost k: nat)
    requires links.Length > 0 && L.Linked(links[..], links.Length - 1, nodes, torn)
    requires forall i, j :: 0 <= i < j < |nodes| ==> nodes[i] < nodes[j]
    requires base < links.Length - 1 && base !in nodes
    modifies links
    ensures k <= |nodes| && (0 < k ==> nodes[k - 1] < base) && (k < |nodes| ==> base < nodes[k])
    ensures !BelowTorn(nodes, torn, k) ==>
      L.Linked(links[..], links.Length - 1, L.Inserted(nodes, k, base),
               if k == |nodes| != 0 then torn + {base} else torn)
    ensures BelowTorn(nodes, torn, k) ==>
      && links[base] == L.Link(nodes[k], nodes[k]) && links[nodes[k]] == L.Link(base, base)
      && L.Caught(links[..], links.Length - 1, nodes, k, base)
  {
    hide L.Linked, L.Added, L.Inserted, L.Caught, L.At;
    var head := links.Length - 1;
    ghost var ls, n := links[..], |nodes|;
    NodeLinks(ls, head, nodes, torn, -1);
    if links[head].next == head {
      FirstInserted(ls, head, nodes, base, torn);
      L.ListAdd(links, head, base);
      return 0;
    }
    NodeLinks(ls, head, nodes, torn, n - 1);
    ghost var once, twice := AppendedBehind(ls, head, nodes, base, torn);
    var le := links[head].next;
    ghost var i, appended := 0, 0;
    while le != head
      invariant 0 <= appended <= 2 && 0 <= i < n && (forall j :: 0 <= j < i ==> nodes[j] < base)
      invariant appended == 0 ==> links[..] == ls && le == nodes[i] != head
      invariant appended > 0 ==> i == n - 1 && nodes[i] < base
      invariant appended == 1 ==> links[..] == once && le == base
      invariant appended == 2 ==> links[..] == twice && le == head
      decreases n - i, 2 - appended
    {
      NodeLinks(ls, head, nodes, torn, i);
      if base < le {
        InsertedBefore(ls, head, nodes, i, base, torn);
        L.ListAddBefore(links, le, base);
        return i;
      } else if links[le].next == head {
        L.ListAdd(links, le, base);
        appended := appended + 1;
        assert links[..] == if appended == 1 then once else twice;
      } else {
        i := i + 1;
      }
      le := links[le].next;
    }
    return n;
  }

  /** The two links of a node, or of the head at position -1, and where they lead. */
  lemma NodeLinks(ls: seq<L.Link>, head: nat, nodes: seq<nat>, torn: set<nat>, i: int)
    requires L.Linked(ls, head, nodes, torn) && -1 <= i < |nodes|
    ensures var p := if i < 0 then head else nodes[i];
            && p < |ls| && ls[p].next == (if i + 1 < |nodes| then nodes[i + 1] else head) < |ls|
            && (i >= 0 ==> p != head && ls[p].prev < |ls| && (p in torn ==> ls[p].prev == p))
            && (i >= 0 && p !in torn ==> ls[p].prev == L.At(nodes, head, i - 1))
            && (ls[p].next == head <==> i == |nodes| - 1)
  {
    assert L.NextOk(ls, head, nodes, i) && (i >= 0 ==> L.BackOk(ls, head, nodes, torn, i));
    assert i >= 1 ==> L.NextOk(ls, head, nodes, i - 1);
  }

  lemma FirstInserted(ls: seq<L.Link>, head: nat, nodes: seq<nat>, base: nat, torn: set<nat>)
    requires L.Linked(ls, head, nodes, torn) && nodes == [] && base < |ls| && base != head && head < |ls|
    ensures L.Linked(L.Added(ls, base, head, head), head, L.Inserted(nodes, 0, base), torn)
  {
    L.HeadNotTorn(ls, head, nodes, torn);
    L.AddedLinked(ls, head, nodes, 0, base, torn);
  }

  /** Adding in front of node i: in its place on the list, or caught if that node is torn. */
  lemma InsertedBefore(ls: seq<L.Link>, head: nat, nodes: seq<nat>, i: nat, base: nat, torn: set<nat>)
    requires L.Linked(ls, head, nodes, torn) && i < |nodes| && base < |ls| && base != head && base !in nodes
    ensures nodes[i] < |ls| && ls[nodes[i]].prev < |ls|
    ensures var ls' := L.Added(ls, base, ls[nodes[i]].prev, nodes[i]);
            if nodes[i] in torn then
              && ls'[base] == L.Link(nodes[i], nodes[i]) && ls'[nodes[i]] == L.Link(base, base)
              && L.Caught(ls', head, nodes, i, base)
            else L.Linked(ls', head, L.Inserted(nodes, i, base), torn)
  {
    NodeLinks(ls, head, nodes, torn, i);
    hide L.Linked, L.Added, L.Caught;
    if nodes[i] in torn {
      L.TornAddBefore(ls, head, nodes, i, base, torn);
    } else {
      L.AddedLinked(ls, head, nodes, i, base, torn);
    }
  }

  /** The links after each of the two additions of a tail append. */
  lemma AppendedBehind(ls: seq<L.Link>, head: nat, nodes: seq<nat>, base: nat, torn: set<nat>)
    returns (once: seq<L.Link>, twice: seq<L.Link>)
    requires L.Linked(ls, head, nodes, torn) && nodes != [] && base < |ls| && base != head && base !in nodes
    requires head < |ls| && nodes[|nodes| - 1] < |ls|
    ensures once == L.Added(ls, base, nodes[|nodes| - 1], head) && twice == L.Added(once, base, base, head)
    ensures once[nodes[|nodes| - 1]].next == base && once[base].next == head && twice[base].next == head
    ensures L.Linked(twice, head, L.Inserted(nodes, |nodes|, base), torn + {base})
  {
    hide L.Linked, L.Added;
    L.AppendedTwice(ls, head, nodes, base, torn);
    assert L.Inserted(nodes, |nodes|, base) == nodes + [base];
    once := L.Added(ls, base, nodes[|nodes| - 1], head);
    twice := L.Added(once, base, base, head);
  }

  /** The list is linked, and no size recorded in it reaches beyond the pages. */
  ghost predicate Walkable(links: seq<L.Link>, pages: seq<Page>, nodes: seq<nat>, torn: set<nat>) {
    && |links| == |pages| + 1 && L.Linked(links, |pages|, nodes, torn)
    && forall i :: 0 <= i < |nodes| ==> nodes[i] < |pages| && nodes[i] + pages[nodes[i]].property <= |pages|
  }

  ghost predicate NoneLarge(nodes: seq<nat>, pages: seq<Page>, n: nat) {
    forall i :: 0 <= i < |nodes| && nodes[i] < |pages| ==> pages[nodes[i]].property < n
  }

  /** Node i is the first whose recorded size is at least n. */
  ghost predicate FirstLarge(nodes: seq<nat>, pages: seq<Page>, n: nat, i: int) {
    && 0 <= i < |nodes| && nodes[i] < |pages| && pages[nodes[i]].property >= n
    && forall j :: 0 <= j < i && nodes[j] < |pages| ==> pages[nodes[j]].property < n
  }

  /** On a list that agrees with its blocks, the sizes recorded are those of the blocks. */
  lemma SizesRecorded(links: seq<L.Link>, pages: seq<Page>, nr: int, nodes: seq<nat>, blocks: seq<Block>,
                      torn: set<nat>, n: nat)
    requires Rep(links, pages, nr, nodes, blocks, torn)
    ensures Walkable(links, pages, nodes, torn)
    ensures NoneLarge(nodes, pages, n) <==> NoneFits(blocks, n)
    ensures forall i :: FirstLarge(nodes, pages, n, i) <==> LowestFit(blocks, n, i)
    ensures forall i :: 0 <= i < |nodes| ==>
              i < |blocks| && nodes[i] == blocks[i].base && pages[nodes[i]].property == blocks[i].size
    ensures |nodes| == |blocks|
  {
    hide L.Linked, Ordered, IsBase, Cells;
    forall i | 0 <= i < |nodes|
      ensures nodes[i] == blocks[i].base < |pages| && pages[nodes[i]].property == blocks[i].size
      ensures nodes[i] + pages[nodes[i]].property <= |pages| {
      assert InDescriptors(pages, blocks[i]);
    }
  }

  class FreeArea {
    const links: array<L.Link>  // page_link of every page, then the head of the free list
    const pages: array<Page>
    var nrFree: int
    ghost var nodes: seq<nat>
    ghost var blocks: seq<Block>
    ghost var torn: set<nat>    // the listed pages whose `prev` is themselves

    /** The list is linked forwards, sorted and described; backwards too, except at torn nodes. */
    ghost predicate Kept()
      reads this, links, pages
    {
      Rep(links[..], pages[..], nrFree, nodes, blocks, torn)
    }

    /** The list can be walked and its sizes stay within the pages; less than Kept. */
    ghost predicate Walks()
      reads this, links, pages
    {
      Walkable(links[..], pages[..], nodes, torn)
    }

    /** The full invariant: linked both ways and coalesced. */
    ghost predicate Valid()
      reads this, links, pages
    {
      Kept() && torn == {} && Separated(blocks)
    }

    /** The state of the specification, given the pages held. */
    ghost function State(held: set<int>): Area
      reads this
    {
      Area(blocks, torn, held)
    }

    /** default_init, over descriptors that all start out reserved. */
    constructor (count: nat)
      ensures Valid() && blocks == [] && pages.Length == count && fresh(links) && fresh(pages)
      ensures forall p :: 0 <= p < count ==> pages[p].reserved
    {
      links := new L.Link[count + 1](_ => L.Link(count, count));
      pages := new Page[count](_ => Page(0, true, false, 0));
      nrFree := 0;
      nodes, blocks, torn := [], [], {};
      new;
      L.ListInit(links, count);
    }

    /**
     default_alloc_pages, on any list that can be walked: the first node whose recorded size is
     large enough.  A torn block is handed out but stays on the list, with its size.
     */
    method AllocPages(n: nat) returns (r: Option<nat>, ghost i: nat)
      requires Walks() && n > 0
      modifies this`nrFree, this`nodes, this`blocks, this`torn, links, pages
      ensures r.None? <==> n > old(nrFree) || NoneLarge(old(nodes), old(pages[..]), n)
      ensures r.Some? ==>
        && FirstLarge(old(nodes), old(pages[..]), n, i) && r.value == old(nodes)[i] && nrFree == old(nrFree) - n
        && Marked(old(pages[..]), pages[..], r.value, n)
      ensures r.None? ==>
        && nodes == old(nodes) && State({}) == old(State({})) && nrFree == old(nrFree)
        && pages[..] == old(pages[..]) && links[..] == old(links[..])
      ensures old(Kept()) ==> (r.None? <==> NoneFits(old(blocks), n))
      ensures old(Kept()) && r.Some? ==> LowestFit(old(blocks), n, i) && r.value == old(blocks)[i].base
      ensures old(Kept()) && r.Some? && r.value !in old(torn) ==>
        Kept() && State(Range(r.value, n)) == Taken(old(State({})), i, n)
      ensures old(Kept()) && r.Some? && r.value in old(torn) ==>
        Walks() && nodes == StuckNodes(old(nodes), i, old(blocks)[i].size > n, r.value + n)
      ensures old(Valid()) ==> Valid()
      ensures SameUse(old(pages[..]), pages[..], 0, 0)
    {
      hide Rep, Walkable, NoneLarge, FirstLarge, LowestFit, Marked, SameUse, NoneFits, Taken, Carve, Separated;
      i := 0;
      ghost var was := blocks;
      AsRecorded(n);
      SameUseSelf(pages[..]);
      if n > nrFree {
        return None, i;
      }
      var le := Search(n);
      if le == pages.Length {
        return None, i;
      }
      i :| i < |nodes| && nodes[i] == le && FirstLarge(nodes, pages[..], n, i);
      LargeEnough(nodes, pages[..], n, i);
      Detach(le, n, i);
      if old(Valid()) {
        StillCoalesced(was, i, n);
      }
      return Some(le), i;
    }

    lemma KeptWalks()
      requires Kept()
      ensures Walks()
    {
      SizesRecorded(links[..], pages[..], nrFree, nodes, blocks, torn, 0);
    }

    /** What Kept says about recorded sizes and about requests that the count rules out. */
    lemma AsRecorded(n: nat)
      ensures Kept() ==> (NoneLarge(nodes, pages[..], n) <==> NoneFits(blocks, n))
      ensures Kept() ==> forall i :: FirstLarge(nodes, pages[..], n, i) <==> LowestFit(blocks, n, i)
      ensures Kept() ==>
        |nodes| == |blocks|
        && forall i :: 0 <= i < |nodes| ==>
             nodes[i] == blocks[i].base < pages.Length && pages[nodes[i]].property == blocks[i].size
      ensures Kept() && n > nrFree ==> NoneFits(blocks, n)
    {
      if Kept() {
        SizesRecorded(links[..], pages[..], nrFree, nodes, blocks, torn, n);
        if n > nrFree {
          TooMany(blocks, n);
        }
        hide Rep, NoneLarge, NoneFits, FirstLarge, LowestFit;
      }
    }

    /** What default_alloc_pages does with the page it found. */
    method Detach(page: nat, n: nat, ghost i: nat)
      requires Walks() && i < |nodes| && page == nodes[i] < pages.Length && 0 < n <= pages[page].property
      modifies this`nrFree, this`nodes, this`blocks, this`torn, links, pages
      ensures nrFree == old(nrFree) - n && Marked(old(pages[..]), pages[..], page, n)
      ensures old(Kept()) && page !in old(torn) ==>
        i < |old(blocks)| && page == old(blocks)[i].base && n <= old(blocks)[i].size
        && Kept() && State(Range(page, n)) == Taken(old(State({})), i, n)
      ensures old(Kept()) && page in old(torn) ==>
        i < |old(blocks)| && Walks() && nodes == StuckNodes(old(nodes), i, old(blocks)[i].size > n, page + n)
      ensures SameUse(old(pages[..]), pages[..], 0, 0)
    {
      hide Rep, Walkable, L.Linked, Carve, L.Deleted, L.Added, L.At, CarvedNodes, CarvedPages, SameUse, Taken;
      RoomFor(links[..], pages[..], nodes, torn, i);
      ghost var ls, ps, nr := links[..], pages[..], nrFree;
      ghost var kept := Kept();
      var prev, next := Unlink(page, i);
      var more := pages[page].property > n;
      if more {
        pages[page + n] := pages[page + n].(property := pages[page].property - n, head := true);
        L.ListAdd(links, prev, page + n);
      }
      nrFree := nrFree - n;
      pages[page] := pages[page].(head := false);
      CarvedPagesIs(ps, page, n);
      assert pages[..] == CarvedPages(ps, page, n);
      assert links[..] == CarvedLinks(ls, prev, next, more, page + n);
      if kept {
        AfterDetach(ls, ps, nr, nodes, blocks, torn, i, n);
        if page in torn {
          nodes, torn := StuckNodes(nodes, i, more, page + n), torn - {next};
        } else {
          nodes, blocks, torn := CarvedNodes(nodes, blocks, i, n), Carve(blocks, i, n), torn - {next};
        }
      }
    }

    /** The first writes: the page's neighbours are linked to each other. */
    method Unlink(page: nat, ghost i: nat) returns (prev: nat, ghost next: nat)
      requires Walks() && i < |nodes| && page == nodes[i]
      modifies links
      ensures page < links.Length && prev < links.Length && next < links.Length
      ensures old(links[page]) == L.Link(prev, next) && next == L.At(nodes, pages.Length, i + 1)
      ensures links[..] == L.Deleted(old(links[..]), prev, next) && links[prev].next == next
      ensures prev == if page in torn then page else L.At(nodes, pages.Length, i - 1)
    {
      NodeLinks(links[..], pages.Length, nodes, torn, i);
      AtIs(nodes, pages.Length, i + 1);
      hide L.Linked, L.Deleted, L.At;
      prev, next := links[page].prev, links[page].next;
      DeletedNext(links[..], prev, next);
      L.ListDel(links, page);
    }

    /**
     default_free_pages.  At the tail the block is listed unjoined, and torn.  Directly below a
     torn block it makes the walk along the list endless.  Elsewhere it is released, joined
     with the neighbours it touches.
     */
    method FreePages(base: nat, n: nat) returns (ghost k: int)
      requires Kept() && n > 0 && base + n <= pages.Length
      requires forall p :: base <= p < base + n ==> !pages[p].reserved && !pages[p].head
      requires Cells(blocks) !! Range(base, n)
      modifies this`nrFree, this`nodes, this`blocks, this`torn, links, pages
      ensures Fits(old(blocks), k, base, n) && nrFree == old(nrFree) + n
      ensures BaseAt(old(blocks), k) !! old(torn) ==> Kept() && State({}) == Freed(old(State({})), k, base, n)
      ensures !(BaseAt(old(blocks), k) !! old(torn)) ==> L.Caught(links[..], pages.Length, old(nodes), k, base)
      ensures old(Valid()) ==> (Valid() <==> NotTail(old(blocks), base))
      ensures SameUse(old(pages[..]), pages[..], base, n) && Unused(pages[..], base, n)
    {
      hide Rep, Cells, SameUse, Unused, L.Caught, Prepared, Listed, Joint, Freed;
      ghost var ps, ls, x, was, torn0 := pages[..], links[..], Block(base, n), blocks, torn;
      RepOrdered(ls, ps, nrFree, nodes, blocks, torn);
      ClearDescriptors(base, n);
      assert links[..] == ls;
      ghost var caught;
      k, caught := Enlist(base, ps, x);
      nrFree := nrFree + n;
      ghost var cleared, torn1, ls1 := pages[..], torn, links[..];
      PreparedUse(ps, cleared, x);
      var lo := JoinBelow(base, k, caught);
      ghost var mid, torn2, below := blocks, torn, pages[..];
      SameUseTwice(ps, cleared, below, base, n);
      UnusedStill(cleared, below, base, n);
      if caught.None? {
        ListedBelow(was, k, x);
        MiddleBases(was, k, x, mid);
      }
      JoinAbove(lo, base, k - |Listed(was, k, x)| + |mid|, caught);
      SameUseTwice(ps, below, pages[..], base, n);
      UnusedStill(below, pages[..], base, n);
      if caught.None? {
        FreedIs(was, torn0, k, x, torn1, mid, torn2, blocks, torn);
        FreedWhole(was, k, x);
      } else {
        CaughtStill(ls1, pages.Length, nodes, k, base);
      }
    }

    /** The first half of default_free_pages: clears the flags and counts, and marks the first page. */
    method ClearDescriptors(base: nat, n: nat)
      requires n > 0 && base + n <= pages.Length
      requires forall p :: base <= p < base + n ==> !pages[p].reserved && !pages[p].head
      modifies pages
      ensures Prepared(old(pages[..]), pages[..], Block(base, n))
    {
      ghost var ps := pages[..];
      var p := base;
      while p != base + n
        invariant base <= p <= base + n
        invariant forall q :: 0 <= q < pages.Length && !(base <= q < p) ==> pages[q] == ps[q]
        invariant forall q :: base <= q < p ==> pages[q] == Page(0, false, false, ps[q].property)
      {
        pages[p] := pages[p].(reserved := false, head := false);
        pages[p] := pages[p].(ref := 0);
        p := p + 1;
      }
      pages[base] := pages[base].(property := n);
      pages[base] := pages[base].(head := true);
    }

    /** default_init_memmap: lists a block of reserved pages, without joining it to its neighbours. */
    method InitMemmap(base: nat, n: nat) returns (ghost k: int)
      requires Kept() && n > 0 && base + n <= pages.Length
      requires forall p :: base <= p < base + n ==> pages[p].reserved
      modifies this`nrFree, this`nodes, this`blocks, this`torn, links, pages
      ensures Fits(old(blocks), k, base, n) && nrFree == old(nrFree) + n
      ensures BaseAt(old(blocks), k) !! old(torn) ==>
        && Kept() && blocks == Listed(old(blocks), k, Block(base, n))
        && torn == if NotTail(old(blocks), base) then old(torn) else old(torn) + {base}
      ensures !(BaseAt(old(blocks), k) !! old(torn)) ==> L.Caught(links[..], pages.Length, old(nodes), k, base)
      ensures old(Valid()) ==>
        (Valid() <==>
          && NotTail(old(blocks), base)
          && JoinsLeft(old(blocks), k, base) == 0 && JoinsRight(old(blocks), k, base + n) == 0)
      ensures SameUse(old(pages[..]), pages[..], base, n)
      ensures pages[base] == Page(0, false, true, n)
      ensures forall p :: base < p < base + n ==> pages[p] == Page(0, false, false, 0)
    {
      hide Rep, SameUse, Cells, Listed, Separated, Prepared, JoinsLeft, JoinsRight, NotTail, Range, L.Caught;
      ReservedNotFree(links[..], pages[..], nrFree, nodes, blocks, torn, base, n);
      ghost var ps, ls, was := pages[..], links[..], blocks;
      ResetDescriptors(base, n);
      assert links[..] == ls;
      PreparedUse(ps, pages[..], Block(base, n));
      ghost var caught;
      k, caught := Enlist(base, ps, Block(base, n));
      nrFree := nrFree + n;
      if Separated(was) {
        ListedSeparated(was, k, Block(base, n));
      }
    }

    /** The first half of default_init_memmap: cleared descriptors, the first one a head. */
    method ResetDescriptors(base: nat, n: nat)
      requires n > 0 && base + n <= pages.Length && forall p :: base <= p < base + n ==> pages[p].reserved
      modifies pages
      ensures Prepared(old(pages[..]), pages[..], Block(base, n))
      ensures pages[base] == Page(0, false, true, n)
      ensures forall p :: base < p < base + n ==> pages[p] == Page(0, false, false, 0)
    {
      ghost var ps := pages[..];
      var p := base;
      while p != base + n
        invariant base <= p <= base + n
        invariant forall q :: 0 <= q < pages.Length && !(base <= q < p) ==> pages[q] == ps[q]
        invariant forall q :: base <= q < p ==> pages[q] == Page(0, false, false, 0)
      {
        pages[p] := pages[p].(reserved := false, head := false, property := 0);
        pages[p] := pages[p].(ref := 0);
        p := p + 1;
      }
      pages[base] := pages[base].(property := n);
      pages[base] := pages[base].(head := true);
    }

    /**
     Puts a prepared block on the list; nr_free is added by the caller.  `caught` names the
     torn node that the block has been put in front of, if so.
     */
    method Enlist(base: nat, ghost ps: seq<Page>, ghost x: Block) returns (ghost k: int, ghost caught: Option<nat>)
      requires Rep(links[..], ps, nrFree, nodes, blocks, torn) && Prepared(ps, pages[..], x)
      requires Cells(blocks) !! Range(x.base, x.size) && base == x.base
      modifies this`nodes, this`blocks, this`torn, links
      ensures Fits(old(blocks), k, x.base, x.size) && (caught.None? <==> BaseAt(old(blocks), k) !! old(torn))
      ensures caught.None? ==>
        && blocks == Listed(old(blocks), k, x)
        && torn == (if NotTail(old(blocks), x.base) then old(torn) else old(torn) + {base})
        && Rep(links[..], pages[..], nrFree + x.size, nodes, blocks, torn)
        && k < |nodes| == |blocks| && nodes[k] == base && base !in old(torn)
      ensures caught.Some? ==>
        && nodes == old(nodes) && 0 <= k < |nodes| && caught.value == nodes[k] && base !in nodes
        && InFront(links[..], pages[..], base, caught.value) && L.Caught(links[..], pages.Length, nodes, k, base)
    {
      hide Described, Cells, L.Linked, Listed, L.Caught, NotTail, L.Inserted, Prepared, BaseAt;
      PreparedLength(ps, pages[..], x);
      NodesSorted(nodes, blocks, x);
      NodesTorn(links[..], ps, nrFree, nodes, blocks, torn);
      k := InsertSorted(links, base, nodes, torn);
      DisjointFits(blocks, k, x.base, x.size);
      if BelowTorn(nodes, torn, k) {
        caught := Some(nodes[k]);
      } else {
        caught := None;
        TailIs(nodes, blocks, k, x);
        ghost var tears := if NotTail(blocks, base) then torn else torn + {base};
        EnlistedRep(links[..], ps, pages[..], nrFree, nodes, blocks, tears, k, x);
        L.InsertedHas(nodes, k, base);
        ListedAt(blocks, k, x, k);
        torn, nodes, blocks := tears, L.Inserted(nodes, k, base), Listed(blocks, k, x);
      }
    }

    /** The first merge of default_free_pages: base joins the block below if that ends at base. */
    method JoinBelow(base: nat, ghost j: nat, ghost caught: Option<nat>) returns (lo: nat)
      requires caught.None? ==> Kept() && j < |blocks| == |nodes| && nodes[j] == base
      requires caught.Some? ==> InFront(links[..], pages[..], base, caught.value)
      modifies this`nodes, this`blocks, this`torn, links, pages
      ensures caught.None? ==> Kept()
      ensures caught.None? ==>
        if base !in old(torn) && 0 < j && old(blocks)[j - 1].base + old(blocks)[j - 1].size == base
        then blocks == Joint(old(blocks), j - 1) && lo == blocks[j - 1].base
            && torn == old(torn) - BaseAt(old(blocks), j + 1)
        else blocks == old(blocks) && lo == base && torn == old(torn)
      ensures caught.None? ==>
        var i := j - |old(blocks)| + |blocks|; 0 <= i < |nodes| == |blocks| && nodes[i] == lo == blocks[i].base
      ensures caught.Some? ==>
        lo == base && links[..] == old(links[..]) && pages[..] == old(pages[..]) && nodes == old(nodes)
      ensures SameUse(old(pages[..]), pages[..], 0, 0)
    {
      hide Rep, L.At, L.Deleted, SameUse;
      ghost var ls, ps := links[..], pages[..];
      if caught.None? {
        BelowIs(ls, ps, nrFree, nodes, blocks, torn, j);
      }
      SameUseSelf(ps);
      lo := base;
      var le := links[base].prev;
      if le != pages.Length {
        if le + pages[le].property == base {
          pages[le] := pages[le].(property := pages[le].property + pages[base].property);
          pages[base] := pages[base].(head := false);
          L.ListDel(links, base);
          lo := le;
          JoinedRep(ls, ps, nrFree, nodes, blocks, torn, j - 1);
          JoinedPagesIs(ps, blocks, j - 1);
          assert pages[..] == JoinedPages(ps, blocks, j - 1);
          BaseBehind(ls, ps, nrFree, nodes, blocks, torn, j);
          nodes, blocks, torn := L.Dropped(nodes, j), Joint(blocks, j - 1), torn - {L.At(nodes, |ps|, j + 1)};
        }
      }
    }

    /** The second merge: lo absorbs the block above if that starts where lo ends. */
    method JoinAbove(lo: nat, ghost base: nat, ghost j: int, ghost caught: Option<nat>)
      requires caught.None? ==>
        Kept() && 0 <= j < |blocks| == |nodes| && nodes[j] == lo && BaseAt(blocks, j + 1) !! torn
      requires caught.Some? ==> lo == base && InFront(links[..], pages[..], base, caught.value)
      modifies this`nodes, this`blocks, this`torn, links, pages
      ensures caught.None? ==> Kept()
      ensures caught.None? ==>
        if j + 1 < |old(blocks)| && lo + old(blocks)[j].size == old(blocks)[j + 1].base
        then blocks == Joint(old(blocks), j) && torn == old(torn) - BaseAt(old(blocks), j + 2)
        else blocks == old(blocks) && torn == old(torn)
      ensures caught.Some? ==>
        nodes == old(nodes) && (links[..] == old(links[..]) || links[..] == old(links[..])[base := L.Link(base, base)])
      ensures SameUse(old(pages[..]), pages[..], 0, 0)
    {
      hide Rep, L.Deleted, Joint, SameUse;
      ghost var ls, ps := links[..], pages[..];
      if caught.None? {
        AboveIs(ls, ps, nrFree, nodes, blocks, torn, j);
      }
      SameUseSelf(ps);
      var le := links[lo].next;
      if le != pages.Length {
        if lo + pages[lo].property == le {
          pages[lo] := pages[lo].(property := pages[lo].property + pages[le].property);
          pages[le] := pages[le].(head := false);
          L.ListDel(links, le);
          if caught.None? {
            JoinedRep(ls, ps, nrFree, nodes, blocks, torn, j);
            JoinedPagesIs(ps, blocks, j);
            assert pages[..] == JoinedPages(ps, blocks, j);
            BaseBehind(ls, ps, nrFree, nodes, blocks, torn, j + 1);
            nodes, blocks, torn := L.Dropped(nodes, j + 1), Joint(blocks, j), torn - {L.At(nodes, |ps|, j + 2)};
          } else {
            CaughtDelete(ls, base, le);
            SameUseOf(ps, pages[..], lo, le);
          }
        }
      }
    }

    /** The search loop of default_alloc_pages; the head stands for failure. */
    method Search(n: nat) returns (le: nat)
      requires Walks()
      ensures le == pages.Length <==> NoneLarge(nodes, pages[..], n)
      ensures le != pages.Length ==>
        exists i :: 0 <= i < |nodes| && nodes[i] == le && FirstLarge(nodes, pages[..], n, i)
    {
      NodeLinks(links[..], pages.Length, nodes, torn, -1);
      le := links[pages.Length].next;
      ghost var i := 0;
      while le != pages.Length
        invariant 0 <= i <= |nodes| && le == if i < |nodes| then nodes[i] else pages.Length
        invariant forall j :: 0 <= j < i && nodes[j] < pages.Length ==> pages[nodes[j]].property < n
        decreases |nodes| - i
      {
        NodeLinks(links[..], pages.Length, nodes, torn, i);
        if pages[le].property >= n {
          assert FirstLarge(nodes, pages[..], n, i);
          return;
        }
        le := links[le].next;
        i := i + 1;
      }
    }
  }

  lemma AtIs(nodes: seq<nat>, head: nat, i: int)
    ensures L.At(nodes, head, i) == if 0 <= i < |nodes| then nodes[i] else head
  {
  }

  lemma LargeEnough(nodes: seq<nat>, pages: seq<Page>, n: nat, i: int)
    requires FirstLarge(nodes, pages, n, i)
    ensures 0 <= i < |nodes| && nodes[i] < |pages| && pages[nodes[i]].property >= n
  {
  }

  lemma StillCoalesced(blocks: seq<Block>, i: int, n: nat)
    requires Separated(blocks) && LowestFit(blocks, n, i) && n > 0
    ensures Separated(Taken(Area(blocks, {}, {}), i, n).blocks) && Taken(Area(blocks, {}, {}), i, n).torn == {}
  {
    CarveSeparated(blocks, i, n);
  }

  /** The descriptors after n pages have been taken from `page`. */
  ghost predicate Marked(pages: seq<Page>, ps: seq<Page>, page: nat, n: nat) {
    && page < |pages| && (n < pages[page].property ==> page + n < |pages|)
    && ps == CarvedPages(pages, page, n)
  }

  lemma RoomFor(links: seq<L.Link>, pages: seq<Page>, nodes: seq<nat>, torn: set<nat>, i: nat)
    requires Walkable(links, pages, nodes, torn) && i < |nodes|
    ensures |links| == |pages| + 1 && nodes[i] < |pages| && nodes[i] + pages[nodes[i]].property <= |pages|
  {
  }

  /** The state after default_alloc_pages, for a block that is torn and for one that is not. */
  lemma AfterDetach(links: seq<L.Link>, pages: seq<Page>, nr: int, nodes: seq<nat>, blocks: seq<Block>, torn: set<nat>,
                    i: nat, n: nat)
    requires Rep(links, pages, nr, nodes, blocks, torn) && i < |nodes| && nodes[i] < |pages|
    requires 0 < n <= pages[nodes[i]].property
    ensures i < |blocks| == |nodes| && nodes[i] == blocks[i].base && pages[nodes[i]].property == blocks[i].size
    ensures Positions(links, |pages|, nodes, i) && (n < blocks[i].size ==> nodes[i] + n < |pages| < |links|)
    ensures var next, more, p := L.At(nodes, |pages|, i + 1), n < blocks[i].size, nodes[i] + n;
            var ps := CarvedPages(pages, nodes[i], n);
            if nodes[i] in torn then
              Walkable(CarvedLinks(links, nodes[i], next, more, p), ps, StuckNodes(nodes, i, more, p), torn - {next})
            else
              && Rep(CarvedLinks(links, L.At(nodes, |pages|, i - 1), next, more, p), ps, nr - n,
                     CarvedNodes(nodes, blocks, i, n), Carve(blocks, i, n), torn - {next})
              && Area(Carve(blocks, i, n), torn - {next}, Range(nodes[i], n)) == Taken(Area(blocks, torn, {}), i, n)
  {
    hide Rep, Walkable, L.Linked, L.At, L.Inserted, Carve, CarvedLinks, CarvedPages, CarvedNodes, StuckNodes, Taken,
         NoneLarge, NoneFits, FirstLarge, LowestFit;
    SizesRecorded(links, pages, nr, nodes, blocks, torn, n);
    RepPositions(links, pages, nr, nodes, blocks, torn, i);
    if nodes[i] in torn {
      StuckWalkable(links, pages, nr, nodes, blocks, torn, i, n);
    } else {
      CarvedRep(links, pages, nr, nodes, blocks, torn, i, n);
      TakenIs(links, pages, nr, nodes, blocks, torn, i, n);
    }
  }

  lemma RepPositions(links: seq<L.Link>, pages: seq<Page>, nr: int, nodes: seq<nat>, blocks: seq<Block>,
                     torn: set<nat>, i: nat)
    requires Rep(links, pages, nr, nodes, blocks, torn) && i < |blocks|
    ensures Positions(links, |pages|, nodes, i) && blocks[i].base + blocks[i].size <= |pages| < |links|
  {
    LinkedPositions(links, |pages|, nodes, torn, i);
    assert InDescriptors(pages, blocks[i]);
  }

  lemma StuckWalkable(links: seq<L.Link>, pages: seq<Page>, nr: int, nodes: seq<nat>, blocks: seq<Block>,
                      torn: set<nat>, i: nat, n: nat)
    requires Rep(links, pages, nr, nodes, blocks, torn) && i < |blocks| && 0 < n <= blocks[i].size && nodes[i] in torn
    ensures nodes[i] == blocks[i].base < |pages| && pages[nodes[i]].property == blocks[i].size
    ensures Positions(links, |pages|, nodes, i) && (n < blocks[i].size ==> nodes[i] + n < |pages| < |links|)
    ensures var next, more, p := L.At(nodes, |pages|, i + 1), n < blocks[i].size, nodes[i] + n;
            Walkable(CarvedLinks(links, nodes[i], next, more, p), CarvedPages(pages, nodes[i], n),
                     StuckNodes(nodes, i, more, p), torn - {next})
  {
    hide Rep, L.Linked, L.At, L.Inserted, CarvedLinks, CarvedPages, StuckNodes, NoneLarge, NoneFits, FirstLarge,
        LowestFit;
    SizesRecorded(links, pages, nr, nodes, blocks, torn, n);
    RepPositions(links, pages, nr, nodes, blocks, torn, i);
    StuckLinked(links, pages, nr, nodes, blocks, torn, i, n);
    var more, p, ps := n < blocks[i].size, nodes[i] + n, CarvedPages(pages, nodes[i], n);
    var ns := StuckNodes(nodes, i, more, p);
    forall j | 0 <= j < |ns| ensures ns[j] < |ps| && ns[j] + ps[ns[j]].property <= |ps| {
      StuckHas(nodes, i, more, p, ns[j]);
      PropertyCarved(pages, nodes[i], n, ns[j]);
    }
  }

  lemma StuckHas(nodes: seq<nat>, i: nat, more: bool, p: nat, q: nat)
    requires i < |nodes|
    ensures q in StuckNodes(nodes, i, more, p) ==> q in nodes || (more && q == p)
  {
    L.InsertedHas(nodes, i + 1, p);
  }

  /** The sizes recorded after an allocation: those from before, and that of the remainder. */
  lemma PropertyCarved(pages: seq<Page>, p: nat, n: nat, q: nat)
    requires p < |pages| && (n < pages[p].property ==> p + n < |pages|) && n > 0 && q < |pages|
    ensures CarvedPages(pages, p, n)[q].property
            == if n < pages[p].property && q == p + n then pages[p].property - n else pages[q].property
  {
  }

  lemma DeletedNext(ls: seq<L.Link>, prev: nat, next: nat)
    requires prev < |ls| && next < |ls|
    ensures L.Deleted(ls, prev, next)[prev].next == next
  {
  }

  /** The links of a listed block: its two neighbours, or itself and the next one if it is torn. */
  lemma Neighbours(links: seq<L.Link>, pages: seq<Page>, nr: int, nodes: seq<nat>, blocks: seq<Block>, torn: set<nat>,
                   i: nat)
    requires Rep(links, pages, nr, nodes, blocks, torn) && i < |blocks|
    ensures Positions(links, |pages|, nodes, i) && InDescriptors(pages, blocks[i]) && nodes[i] == blocks[i].base
    ensures |links| == |pages| + 1 && |nodes| == |blocks|
    ensures links[nodes[i]].next == L.At(nodes, |pages|, i + 1)
    ensures links[nodes[i]].prev == if nodes[i] in torn then nodes[i] else L.At(nodes, |pages|, i - 1)
    ensures L.At(nodes, |pages|, i - 1) != L.At(nodes, |pages|, i)
  {
    assert L.NextOk(links, |pages|, nodes, i) && L.BackOk(links, |pages|, nodes, torn, i);
  }

  /** What the class does to its list is what the specification says. */
  lemma TakenIs(links: seq<L.Link>, pages: seq<Page>, nr: int, nodes: seq<nat>, blocks: seq<Block>, torn: set<nat>,
                i: nat, n: nat)
    requires Rep(links, pages, nr, nodes, blocks, torn) && i < |blocks| && 0 < n <= blocks[i].size
    ensures Area(Carve(blocks, i, n), torn - {L.At(nodes, |pages|, i + 1)}, Range(blocks[i].base, n))
            == Taken(Area(blocks, torn, {}), i, n)
  {
    BaseBehind(links, pages, nr, nodes, blocks, torn, i);
  }

  /** The node behind position i in terms of blocks; the head is never torn. */
  lemma BaseBehind(links: seq<L.Link>, pages: seq<Page>, nr: int, nodes: seq<nat>, blocks: seq<Block>, torn: set<nat>,
                   i: nat)
    requires Rep(links, pages, nr, nodes, blocks, torn) && i < |blocks|
    ensures torn - {L.At(nodes, |pages|, i + 1)} == torn - BaseAt(blocks, i + 1)
  {
    L.HeadNotTorn(links, |pages|, nodes, torn);
    hide L.Linked, Described, Ordered;
  }

  lemma NodesSorted(nodes: seq<nat>, blocks: seq<Block>, x: Block)
    requires Names(nodes, blocks) && Ordered(blocks) && Cells(blocks) !! Range(x.base, x.size) && x.size > 0
    ensures forall i, j :: 0 <= i < j < |nodes| ==> nodes[i] < nodes[j]
    ensures x.base !in nodes
  {
    assert x.base in Range(x.base, x.size);
    CellsBy(blocks, x.base);
    forall i | 0 <= i < |blocks| ensures nodes[i] != x.base {
      assert !Covers(blocks[i], x.base);
    }
  }

  lemma NodesTorn(links: seq<L.Link>, pages: seq<Page>, nr: int, nodes: seq<nat>, blocks: seq<Block>, torn: set<nat>)
    requires Rep(links, pages, nr, nodes, blocks, torn)
    ensures (forall t :: t in torn ==> t in nodes) && forall i :: 0 <= i < |nodes| ==> nodes[i] < |pages|
    ensures forall k :: BelowTorn(nodes, torn, k) <==> !(BaseAt(blocks, k) !! torn)
  {
    hide Described, Ordered, L.NextOk, L.BackOk;
  }

  lemma EnlistedRep(links: seq<L.Link>, pages: seq<Page>, ps: seq<Page>, nr: int, nodes: seq<nat>, blocks: seq<Block>,
                    torn: set<nat>, k: nat, x: Block)
    requires Names(nodes, blocks) && Ordered(blocks) && Described(pages, blocks) && nr == Total(blocks)
    requires Fits(blocks, k, x.base, x.size) && Prepared(pages, ps, x) && |links| == |pages| + 1
    requires L.Linked(links, |pages|, L.Inserted(nodes, k, x.base), torn)
    ensures Rep(links, ps, nr + x.size, L.Inserted(nodes, k, x.base), Listed(blocks, k, x), torn)
  {
    hide L.Linked, Total, Cells, Described, Ordered, Listed, L.Inserted, Prepared;
    PreparedLength(pages, ps, x);
    ListedOrdered(blocks, k, x);
    ListedDescribed(pages, ps, blocks, k, x);
    ListedNames(nodes, blocks, k, x);
  }

  lemma TailIs(nodes: seq<nat>, blocks: seq<Block>, k: nat, x: Block)
    requires Names(nodes, blocks) && Ordered(blocks) && Fits(blocks, k, x.base, x.size)
    ensures k == |nodes| != 0 <==> !NotTail(blocks, x.base)
    ensures |nodes| == |blocks|
  {
  }

  lemma PreparedLength(pages: seq<Page>, ps: seq<Page>, x: Block)
    requires Prepared(pages, ps, x)
    ensures |ps| == |pages| && 0 <= x.base < x.base + x.size <= |pages|
  {
  }

  lemma ListedNames(nodes: seq<nat>, blocks: seq<Block>, k: nat, x: Block)
    requires Names(nodes, blocks) && k <= |blocks| && x.base >= 0
    ensures Names(L.Inserted(nodes, k, x.base), Listed(blocks, k, x))
  {
  }

  lemma ReservedNotFree(links: seq<L.Link>, pages: seq<Page>, nr: int, nodes: seq<nat>, blocks: seq<Block>,
                        torn: set<nat>, base: nat, n: nat)
    requires Rep(links, pages, nr, nodes, blocks, torn) && base + n <= |pages|
    requires forall p :: base <= p < base + n ==> pages[p].reserved
    ensures Cells(blocks) !! Range(base, n)
  {
    hide L.Linked, Cells, Ordered;
  }

  lemma ListedSeparated(blocks: seq<Block>, k: nat, x: Block)
    requires Separated(blocks) && Fits(blocks, k, x.base, x.size)
    ensures Separated(Listed(blocks, k, x))
            <==> JoinsLeft(blocks, k, x.base) == 0 && JoinsRight(blocks, k, x.base + x.size) == 0
  {
    var cs := Listed(blocks, k, x);
    if JoinsLeft(blocks, k, x.base) == 0 && JoinsRight(blocks, k, x.base + x.size) == 0 {
      SplicedSeparated(blocks, k, k, x);
    }
    assert cs[k] == x;
    assert 0 < k ==> cs[k - 1] == blocks[k - 1];
    assert k < |blocks| ==> cs[k + 1] == blocks[k];
  }

  /** What `prev` of a listed block leads to. */
  lemma BelowIs(links: seq<L.Link>, pages: seq<Page>, nr: int, nodes: seq<nat>, blocks: seq<Block>, torn: set<nat>,
                j: nat)
    requires Rep(links, pages, nr, nodes, blocks, torn) && j < |blocks|
    ensures |links| == |pages| + 1 && |nodes| == |blocks|
    ensures nodes[j] < |pages| && nodes[j] == blocks[j].base && pages[nodes[j]].property == blocks[j].size
    ensures links[nodes[j]].next == L.At(nodes, |pages|, j + 1) && L.At(nodes, |pages|, j + 1) < |links|
    ensures var le := links[nodes[j]].prev;
            if nodes[j] in torn then le == nodes[j] && blocks[j].size > 0
            else if j == 0 then le == |pages|
            else && le == nodes[j - 1] < |pages| && nodes[j - 1] == blocks[j - 1].base
                 && pages[le].property == blocks[j - 1].size
                 && le == L.At(nodes, |pages|, j - 1) && le != nodes[j]
  {
    Neighbours(links, pages, nr, nodes, blocks, torn, j);
    if j > 0 {
      assert InDescriptors(pages, blocks[j - 1]);
    }
  }

  /** What `next` of a listed block leads to, and the links of that block if it is not torn. */
  lemma AboveIs(links: seq<L.Link>, pages: seq<Page>, nr: int, nodes: seq<nat>, blocks: seq<Block>, torn: set<nat>,
                j: nat)
    requires Rep(links, pages, nr, nodes, blocks, torn) && j < |blocks| && BaseAt(blocks, j + 1) !! torn
    ensures |links| == |pages| + 1 && |nodes| == |blocks|
    ensures nodes[j] < |pages| && nodes[j] == blocks[j].base && pages[nodes[j]].property == blocks[j].size
    ensures var le := links[nodes[j]].next;
            if j + 1 == |blocks| then le == |pages|
            else le == nodes[j + 1] < |pages| && le == blocks[j + 1].base && pages[le].property == blocks[j + 1].size
                 && le != nodes[j] && le !in torn
                 && links[le].prev == nodes[j] == L.At(nodes, |pages|, j)
                 && links[le].next == L.At(nodes, |pages|, j + 2) < |links|
  {
    BelowIs(links, pages, nr, nodes, blocks, torn, j);
    if j + 1 < |blocks| {
      BelowIs(links, pages, nr, nodes, blocks, torn, j + 1);
    }
  }

  lemma JointNames(nodes: seq<nat>, blocks: seq<Block>, i: nat)
    requires Names(nodes, blocks) && i < |blocks| - 1
    ensures Names(L.Dropped(nodes, i + 1), Joint(blocks, i))
  {
  }

  /** The descriptors after block i + 1 has been joined into block i. */
  function JoinedPages(pages: seq<Page>, blocks: seq<Block>, i: nat): seq<Page>
    requires i < |blocks| - 1 && 0 <= blocks[i].base < |pages| && 0 <= blocks[i + 1].base < |pages|
    requires blocks[i].size + blocks[i + 1].size >= 0
  {
    var lo, hi := blocks[i].base, blocks[i + 1].base;
    pages[lo := pages[lo].(property := blocks[i].size + blocks[i + 1].size)][hi := pages[hi].(head := false)]
  }

  lemma JoinedPagesIs(pages: seq<Page>, blocks: seq<Block>, i: nat)
    requires i < |blocks| - 1 && InDescriptors(pages, blocks[i]) && InDescriptors(pages, blocks[i + 1])
    ensures SameUse(pages, JoinedPages(pages, blocks, i), 0, 0)
  {
  }

  lemma SameUseSelf(pages: seq<Page>)
    ensures SameUse(pages, pages, 0, 0)
  {
  }

  lemma SameUseOf(pages: seq<Page>, ps: seq<Page>, p: nat, q: nat)
    requires |ps| == |pages| && p < |pages| && q < |pages|
    requires forall r :: 0 <= r < |pages| && r != p && r != q ==> ps[r] == pages[r]
    requires ps[p].reserved == pages[p].reserved && ps[p].ref == pages[p].ref
    requires ps[q].reserved == pages[q].reserved && ps[q].ref == pages[q].ref
    ensures SameUse(pages, ps, 0, 0)
  {
  }

  /** Everything about a state after block i + 1, not torn, has been joined into block i. */
  lemma JoinedRep(links: seq<L.Link>, pages: seq<Page>, nr: int, nodes: seq<nat>, blocks: seq<Block>, torn: set<nat>,
                  i: nat)
    requires Rep(links, pages, nr, nodes, blocks, torn) && i < |blocks| - 1 && nodes[i + 1] !in torn
    requires blocks[i].base + blocks[i].size == blocks[i + 1].base
    ensures Positions(links, |pages|, nodes, i + 1)
    ensures InDescriptors(pages, blocks[i]) && InDescriptors(pages, blocks[i + 1]) && |nodes| == |blocks|
    ensures Rep(L.Deleted(links, L.At(nodes, |pages|, i), L.At(nodes, |pages|, i + 2)), JoinedPages(pages, blocks, i),
                nr, L.Dropped(nodes, i + 1), Joint(blocks, i), torn - {L.At(nodes, |pages|, i + 2)})
  {
    hide L.Linked, L.At, L.Deleted, Ordered, Described, Total, Cells, Joint, L.Dropped;
    Neighbours(links, pages, nr, nodes, blocks, torn, i);
    Neighbours(links, pages, nr, nodes, blocks, torn, i + 1);
    JointNames(nodes, blocks, i);
    JointDescribed(pages, blocks, i);
    JointCells(blocks, i);
    L.DeletedLinked(links, |pages|, nodes, i + 1, torn);
  }

  /** Two cells linked to each other both ways, the lower one just inserted. */
  ghost predicate InFront(links: seq<L.Link>, pages: seq<Page>, base: nat, above: nat) {
    && |links| == |pages| + 1 && base < above < |pages|
    && links[base] == L.Link(above, above) && links[above] == L.Link(base, base)
  }

  lemma CaughtDelete(links: seq<L.Link>, base: nat, above: nat)
    requires base < |links| && above < |links| && links[above] == L.Link(base, base)
    ensures L.Deleted(links, base, base) == links[base := L.Link(base, base)]
  {
  }

  lemma CaughtStill(links: seq<L.Link>, head: nat, nodes: seq<nat>, k: nat, base: nat)
    requires L.Caught(links, head, nodes, k, base) && base !in nodes
    ensures L.Caught(links[base := L.Link(base, base)], head, nodes, k, base)
  {
    var ls := links[base := L.Link(base, base)];
    forall i | -1 <= i < k ensures L.NextOk(ls, head, nodes, i) {
      assert L.NextOk(links, head, nodes, i);
    }
  }

  lemma RepOrdered(links: seq<L.Link>, pages: seq<Page>, nr: int, nodes: seq<nat>, blocks: seq<Block>, torn: set<nat>)
    requires Rep(links, pages, nr, nodes, blocks, torn)
    ensures Ordered(blocks)
  {
  }

  // ---- Listing and joining is freeing ----

  /** The list after the first join, or without it. */
  ghost predicate JoinedOnce(was: seq<Block>, k: int, x: Block, mid: seq<Block>)
    requires 0 <= k <= |was|
  {
    && |Listed(was, k, x)| == |was| + 1
    && (mid == Listed(was, k, x) || (k > 0 && mid == Joint(Listed(was, k, x), k - 1)))
  }

  /** Behind the block listed, the blocks are those that were there. */
  lemma MiddleBases(was: seq<Block>, k: int, x: Block, mid: seq<Block>)
    requires 0 <= k <= |was| && JoinedOnce(was, k, x, mid)
    ensures var j := k - |Listed(was, k, x)| + |mid|;
            && 0 <= j < |mid| && BaseAt(mid, j + 1) == BaseAt(was, k) && BaseAt(mid, j + 2) == BaseAt(was, k + 1)
            && BaseAt(Listed(was, k, x), k + 1) == BaseAt(was, k)
            && (j + 1 < |mid| <==> k < |was|) && (k < |was| ==> mid[j + 1] == was[k])
            && mid[j] == (if |mid| == |was| + 1 then x else Block(was[k - 1].base, was[k - 1].size + x.size))
  {
  }

  /** Listing and then joining on both sides is releasing. */
  lemma ListedJoined(was: seq<Block>, k: int, x: Block, mid: seq<Block>, bs: seq<Block>)
    requires Fits(was, k, x.base, x.size)
    requires mid == if JoinsLeft(was, k, x.base) == 1 then Joint(Listed(was, k, x), k - 1) else Listed(was, k, x)
    requires bs == if JoinsRight(was, k, x.base + x.size) == 1 then Joint(mid, k - JoinsLeft(was, k, x.base)) else mid
    ensures bs == Release(was, k, x.base, x.size)
  {
  }

  lemma ListedBelow(was: seq<Block>, k: int, x: Block)
    requires 0 <= k <= |was|
    ensures |Listed(was, k, x)| == |was| + 1 && (0 < k ==> Listed(was, k, x)[k - 1] == was[k - 1])
    ensures k == |was| ==> Listed(was, k, x) == was + [x]
  {
  }

  /** What default_free_pages does to the list, in the cases that keep it going, is what the specification says. */
  lemma FreedIs(was: seq<Block>, torn0: set<nat>, k: int, x: Block, torn1: set<nat>,
                mid: seq<Block>, torn2: set<nat>, bs: seq<Block>, torn3: set<nat>)
    requires Ordered(was) && Fits(was, k, x.base, x.size) && BaseAt(was, k) !! torn0 && x.base !in torn0
    requires torn1 == if NotTail(was, x.base) then torn0 else torn0 + {x.base}
    requires JoinedOnce(was, k, x, mid)
    requires var listed := Listed(was, k, x);
             if x.base !in torn1 && 0 < k && listed[k - 1].base + listed[k - 1].size == x.base
             then mid == Joint(listed, k - 1) && torn2 == torn1 - BaseAt(listed, k + 1)
             else mid == listed && torn2 == torn1
    requires var j := k - |Listed(was, k, x)| + |mid|;
             0 <= j < |mid| &&
             if j + 1 < |mid| && mid[j].base + mid[j].size == mid[j + 1].base
             then bs == Joint(mid, j) && torn3 == torn2 - BaseAt(mid, j + 2)
             else bs == mid && torn3 == torn2
    ensures Area(bs, torn3, {}) == Freed(Area(was, torn0, {}), k, x.base, x.size)
  {
    MiddleBases(was, k, x, mid);
    ListedBelow(was, k, x);
    TailAtEnd(was, k, x);
    hide Ordered, Listed, Release, Joint, NotTail;
    if NotTail(was, x.base) {
      ListedJoined(was, k, x, mid, bs);
    }
  }

  lemma TailAtEnd(was: seq<Block>, k: int, x: Block)
    requires Ordered(was) && Fits(was, k, x.base, x.size)
    ensures NotTail(was, x.base) <==> was == [] || k < |was|
  {
  }

  lemma FreedWhole(was: seq<Block>, k: int, x: Block)
    requires Fits(was, k, x.base, x.size)
    ensures Separated(was) ==>
      (Whole(Freed(Area(was, {}, {}), k, x.base, x.size)) <==> NotTail(was, x.base))
  {
    if Separated(was) && NotTail(was, x.base) {
      ReleaseSeparated(was, k, x.base, x.size);
    }
    assert x.base in {} + {x.base};
  }

  lemma TooMany(blocks: seq<Block>, n: int)
    requires Ordered(blocks) && n > Total(blocks)
    ensures NoneFits(blocks, n)
  {
    forall i | 0 <= i < |blocks| ensures blocks[i].size < n {
      LargestAtMostTotal(blocks, i, |blocks|);
    }
  }
}
