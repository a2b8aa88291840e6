/**
 What a torn block leads to in the page allocator (kern/mm/default_pmm.c): the same pages
 handed out twice, and a search that never ends.
 */
module FirstFitCases {
  import opened Wrappers
  import opened BlockList
  import opened FirstFitSpec
  import opened FirstFit
  import L = LinkList

  /** The first fit for n pages is torn, and no block below it has m pages. */
  ghost predicate TornFits(blocks: seq<Block>, torn: set<nat>, n: nat, m: nat, i: int) {
    && LowestFit(blocks, n, i) && blocks[i].base in torn
    && m <= blocks[i].size && forall j :: 0 <= j < i ==> blocks[j].size < m
  }

  /** Two allocations in a row from a torn block both get its first page. */
  method AllocTwice(a: FreeArea, n: nat, m: nat, ghost i: int) returns (r: Option<nat>, s: Option<nat>)
    requires a.Kept() && n > 0 && m > 0 && n + m <= a.nrFree && TornFits(a.blocks, a.torn, n, m, i)
    modifies a`nrFree, a`nodes, a`blocks, a`torn, a.links, a.pages
    ensures r == s == Some(old(a.blocks)[i].base)
  {
    hide Rep, Walkable, Taken, Separated, StuckNodes, SameUse, FirstLarge, NoneLarge, LowestFit, NoneFits, Marked,
         TornFits, NotTail, Carve;
    a.KeptWalks();
    ghost var ps, nodes, blocks := a.pages[..], a.nodes, a.blocks;
    TornFitsIs(blocks, a.torn, n, m, i);
    TornFirst(a, n, i);
    NodesOnce(a.links[..], ps, a.nrFree, nodes, blocks, a.torn, i);
    ghost var k;
    r, k := a.AllocPages(n);
    FirstLargeUnique(nodes, ps, n, i, k);
    ghost var ps', nodes' := a.pages[..], a.nodes;
    StillFirst(ps, ps', nodes, nodes', blocks, i, n, m);
    s, k := a.AllocPages(m);
    FirstLargeUnique(nodes', ps', m, i, k);
  }

  lemma TornFirst(a: FreeArea, n: nat, i: int)
    requires a.Kept() && LowestFit(a.blocks, n, i)
    ensures FirstLarge(a.nodes, a.pages[..], n, i)
  {
    a.AsRecorded(n);
  }

  lemma TornFitsIs(blocks: seq<Block>, torn: set<nat>, n: nat, m: nat, i: int)
    requires TornFits(blocks, torn, n, m, i)
    ensures 0 <= i < |blocks| && LowestFit(blocks, n, i) && blocks[i].base in torn && !NoneFits(blocks, n)
  {
  }

  /** The first large enough node is unique, and there being one rules out that there is none. */
  lemma FirstLargeUnique(nodes: seq<nat>, pages: seq<Page>, n: nat, i: int, k: int)
    requires FirstLarge(nodes, pages, n, i)
    ensures !NoneLarge(nodes, pages, n) && (FirstLarge(nodes, pages, n, k) ==> i == k)
  {
  }

  /** The page behind the pages taken is on no list below that block. */
  lemma NodesOnce(links: seq<L.Link>, pages: seq<Page>, nr: int, nodes: seq<nat>, blocks: seq<Block>, torn: set<nat>,
                  i: int)
    requires Rep(links, pages, nr, nodes, blocks, torn) && 0 <= i < |blocks|
    ensures |nodes| == |blocks|
    ensures forall j :: 0 <= j <= i ==>
              nodes[j] < |pages| && nodes[j] <= nodes[i] == blocks[i].base && pages[nodes[j]].property == blocks[j].size
  {
    hide L.Linked;
    forall j | 0 <= j <= i
      ensures nodes[j] < |pages| && nodes[j] <= nodes[i] && pages[nodes[j]].property == blocks[j].size {
      assert InDescriptors(pages, blocks[j]);
    }
  }

  /** The torn block keeps its recorded size, and with it its place in the search. */
  lemma StillFirst(ps: seq<Page>, ps': seq<Page>, nodes: seq<nat>, nodes': seq<nat>, blocks: seq<Block>,
                   i: nat, n: nat, m: nat)
    requires i < |nodes| == |blocks| && n > 0 && nodes[i] < |ps| && Marked(ps, ps', nodes[i], n)
    requires exists torn: set<nat> :: TornFits(blocks, torn, n, m, i)
    requires forall j :: 0 <= j <= i ==>
               nodes[j] < |ps| && nodes[j] <= nodes[i] && ps[nodes[j]].property == blocks[j].size
    requires nodes' == StuckNodes(nodes, i, blocks[i].size > n, nodes[i] + n)
    ensures FirstLarge(nodes', ps', m, i) && nodes'[i] == nodes[i]
  {
    hide CarvedPages;
    forall j | 0 <= j <= i ensures |nodes'| > i && nodes'[j] == nodes[j] && ps'[nodes[j]].property == blocks[j].size {
      PropertyCarved(ps, nodes[i], n, nodes[j]);
    }
  }

  // ---- Instances ----

  lemma OneFit(x: Block, n: int, i: int)
    ensures LowestFit([x], n, i) <==> i == 0 && x.size >= n
    ensures NoneFits([x], n) <==> x.size < n
  {
    assert [x][0] == x;
  }

  lemma OneTaken(x: Block)
    requires x.size > 0
    ensures Taken(Area([x], {}, {}), 0, x.size) == Area([], {}, Range(x.base, x.size))
  {
  }

  lemma FreedAlone(p: int, n: int, k: int)
    requires Fits([], k, p, n)
    ensures Freed(Area([], {}, {}), k, p, n) == Area([Block(p, n)], {}, {})
  {
    assert Range(p, n) !! {};
  }

  lemma FreedBehind(x: Block, p: int, n: int, k: int)
    requires Fits([x], k, p, n) && x.base < p && x.size > 0
    ensures k == 1 && Freed(Area([x], {}, {}), k, p, n) == Area([x, Block(p, n)], {p}, {})
  {
  }

  lemma CleanPages(a: FreeArea, x: Block)
    requires a.Kept() && a.blocks == [x]
    ensures forall p :: x.base <= p < x.base + x.size && 0 <= p < a.pages.Length ==> !a.pages[p].reserved
    ensures forall p :: 0 <= p < a.pages.Length && p != x.base ==> !a.pages[p].head
  {
    hide L.Linked, Ordered;
    Singleton(x);
    forall p | x.base <= p < x.base + x.size ensures p in Cells(a.blocks) {
      assert p in Range(x.base, x.size);
    }
    assert forall p :: 0 <= p < a.pages.Length ==> a.pages[..][p] == a.pages[p];
  }

  lemma NoHeads(a: FreeArea)
    requires a.Kept() && a.blocks == []
    ensures forall p :: 0 <= p < a.pages.Length ==> !a.pages[p].head
  {
    hide L.Linked, Ordered;
    assert forall p :: 0 <= p < a.pages.Length ==> a.pages[..][p] == a.pages[p];
  }

  lemma HeadsOfTwo(a: FreeArea, x: Block, y: Block)
    requires a.Kept() && a.blocks == [x, y]
    ensures forall p :: 0 <= p < a.pages.Length && p != x.base && p != y.base ==> !a.pages[p].head
  {
    hide L.Linked, Ordered;
    assert forall p :: 0 <= p < a.pages.Length ==> a.pages[..][p] == a.pages[p];
  }

  lemma UseKept(pages: seq<Page>, ps: seq<Page>, b: int, n: int)
    requires SameUse(pages, ps, b, n)
    ensures |ps| == |pages|
    ensures forall p :: 0 <= p < |pages| && !(b <= p < b + n) ==> ps[p].reserved == pages[p].reserved
  {
  }

  lemma NotCovered(x: Block, p: int, n: int)
    requires x.base + x.size <= p
    ensures Cells([x]) !! Range(p, n)
  {
    Singleton(x);
  }

  lemma CountOfTwo(a: FreeArea, x: Block, y: Block)
    requires a.Kept() && a.blocks == [x, y]
    ensures a.nrFree == x.size + y.size
  {
    assert [x, y] == [x] + [y];
    Append([x], [y]);
    Singleton(x);
    Singleton(y);
  }

  /** Six pages, all handed out. */
  method AllHeld() returns (a: FreeArea)
    ensures fresh(a) && fresh(a.links) && fresh(a.pages)
    ensures a.Kept() && a.State({}) == Area([], {}, {}) && a.pages.Length == 6
    ensures forall p :: 0 <= p < 6 ==> !a.pages[p].reserved && !a.pages[p].head
  {
    hide Rep, Taken, SameUse, Listed, Carve;
    a := new FreeArea(6);
    var k := a.InitMemmap(0, 6);
    ListedAt([], 0, Block(0, 6), 0);
    assert a.blocks == [Block(0, 6)];
    a.KeptWalks();
    CleanPages(a, Block(0, 6));
    OneFit(Block(0, 6), 6, 0);
    OneTaken(Block(0, 6));
    ghost var ps := a.pages[..];
    var r, i := a.AllocPages(6);
    OneFit(Block(0, 6), 6, i);
    NoHeads(a);
    UseKept(ps, a.pages[..], 0, 0);
  }

  /** Page 0 and the pages from base on given back: the latter are torn. */
  method TornArea(base: nat) returns (a: FreeArea)
    requires 2 <= base < 6
    ensures fresh(a) && fresh(a.links) && fresh(a.pages)
    ensures a.Kept() && a.State({}) == Area([Block(0, 1), Block(base, 6 - base)], {base}, {}) && a.nrFree == 7 - base
    ensures a.pages.Length == 6 && forall p :: 1 <= p < base ==> !a.pages[p].reserved && !a.pages[p].head
  {
    hide Rep, Freed, SameUse, Cells, L.Caught;
    a := AllHeld();
    NoCells();
    ghost var qs := a.pages[..];
    var k := a.FreePages(0, 1);
    FreedAlone(0, 1, k);
    CleanPages(a, Block(0, 1));
    UseKept(qs, a.pages[..], 0, 1);
    ghost var rs := a.pages[..];
    NotCovered(Block(0, 1), base, 6 - base);
    k := a.FreePages(base, 6 - base);
    FreedBehind(Block(0, 1), base, 6 - base, k);
    UseKept(rs, a.pages[..], base, 6 - base);
    HeadsOfTwo(a, Block(0, 1), Block(base, 6 - base));
    CountOfTwo(a, Block(0, 1), Block(base, 6 - base));
  }

  lemma NoCells()
    ensures Cells([]) == {}
  {
  }

  /** Pages 2 to 5 torn: two requests for two pages each are both given page 2. */
  method SamePagesTwice() returns (r: Option<nat>, s: Option<nat>)
    ensures r == s == Some(2)
  {
    var a := TornArea(2);
    assert a.blocks == [Block(0, 1), Block(2, 4)] && a.torn == {2};
    r, s := AllocTwice(a, 2, 2, 1);
  }

  /** Pages 3 to 5 torn: freeing page 2, directly below, makes every walk along the list endless. */
  method EndlessList() returns (a: FreeArea)
    ensures exists nodes, k, base :: L.Caught(a.links[..], a.pages.Length, nodes, k, base)
  {
    hide Rep, L.Caught, SameUse, Freed;
    a := TornArea(3);
    assert a.blocks == [Block(0, 1), Block(3, 3)] && a.torn == {3};
    NotCoveredByTwo(Block(0, 1), Block(3, 3), 2, 1);
    ghost var nodes := a.nodes;
    var k := a.FreePages(2, 1);
    assert k == 1;
    assert BaseAt([Block(0, 1), Block(3, 3)], 1) == {3};
    assert L.Caught(a.links[..], a.pages.Length, nodes, k, 2);
  }

  lemma NotCoveredByTwo(x: Block, y: Block, p: int, n: int)
    requires x.base + x.size <= p && p + n <= y.base
    ensures Cells([x, y]) !! Range(p, n)
  {
    assert [x, y] == [x] + [y];
    Append([x], [y]);
    Singleton(x);
    Singleton(y);
  }
}
