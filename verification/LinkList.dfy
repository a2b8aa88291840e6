/**
 The circular doubly linked list of libs/list.h, over an array of link cells.  A list is its
 head cell together with the sequence of cells reached from it.
 */
module LinkList {

  datatype Link = Link(prev: nat, next: nat)

  // ---- What the writes do, as functions of the cells ----

  function WithNext(ls: seq<Link>, i: nat, v: nat): seq<Link>
    requires i < |ls|
  {
    ls[i := ls[i].(next := v)]
  }

  function WithPrev(ls: seq<Link>, i: nat, v: nat): seq<Link>
    requires i < |ls|
  {
    ls[i := ls[i].(prev := v)]
  }

  /** The four writes of __list_add, in their order. */
  function Added(ls: seq<Link>, elm: nat, prev: nat, next: nat): (r: seq<Link>)
    requires elm < |ls| && prev < |ls| && next < |ls|
    ensures |r| == |ls|
  {
    WithPrev(WithNext(WithNext(WithPrev(ls, next, elm), prev, elm), elm, next), elm, prev)
  }

  /** The two writes of __list_del. */
  function Deleted(ls: seq<Link>, prev: nat, next: nat): (r: seq<Link>)
    requires prev < |ls| && next < |ls|
    ensures |r| == |ls|
  {
    WithPrev(WithNext(ls, prev, next), next, prev)
  }

  // ---- The routines ----

  method ListInit(links: array<Link>, elm: nat)
    requires elm < links.Length
    modifies links
    ensures links[..] == old(links[..])[elm := Link(elm, elm)]
  {
    links[elm] := Link(elm, elm);
  }

  method ListAddBetween(links: array<Link>, elm: nat, prev: nat, next: nat)
    requires elm < links.Length && prev < links.Length && next < links.Length
    modifies links
    ensures links[..] == Added(old(links[..]), elm, prev, next)
  {
    links[next] := links[next].(prev := elm);
    links[prev] := links[prev].(next := elm);
    links[elm] := links[elm].(next := next);
    links[elm] := links[elm].(prev := prev);
  }

  method ListAdd(links: array<Link>, listelm: nat, elm: nat)
    requires elm < links.Length && listelm < links.Length && links[listelm].next < links.Length
    modifies links
    ensures links[..] == Added(old(links[..]), elm, listelm, old(links[listelm].next))
  {
    ListAddBetween(links, elm, listelm, links[listelm].next);
  }

  method ListAddBefore(links: array<Link>, listelm: nat, elm: nat)
    requires elm < links.Length && listelm < links.Length && links[listelm].prev < links.Length
    modifies links
    ensures links[..] == Added(old(links[..]), elm, old(links[listelm].prev), listelm)
  {
    ListAddBetween(links, elm, links[listelm].prev, listelm);
  }

  method ListDel(links: array<Link>, listelm: nat)
    requires listelm < links.Length && links[listelm].prev < links.Length && links[listelm].next < links.Length
    modifies links
    ensures links[..] == Deleted(old(links[..]), old(links[listelm].prev), old(links[listelm].next))
  {
    var prev, next := links[listelm].prev, links[listelm].next;
    links[prev] := links[prev].(next := next);
    links[next] := links[next].(prev := prev);
  }

  // ---- Lists ----

  /** The cell at position i, the head standing at both ends. */
  function At(nodes: seq<nat>, head: nat, i: int): nat {
    if 0 <= i < |nodes| then nodes[i] else head
  }

  ghost predicate Cells(ls: seq<Link>, head: nat, nodes: seq<nat>) {
    && head < |ls|
    && (forall i :: 0 <= i < |nodes| ==> nodes[i] < |ls| && nodes[i] != head)
    && (forall i, j :: 0 <= i < j < |nodes| ==> nodes[i] != nodes[j])
  }

  ghost predicate NextOk(ls: seq<Link>, head: nat, nodes: seq<nat>, i: int) {
    At(nodes, head, i) < |ls| && ls[At(nodes, head, i)].next == At(nodes, head, i + 1)
  }

  ghost predicate PrevOk(ls: seq<Link>, head: nat, nodes: seq<nat>, i: int) {
    At(nodes, head, i) < |ls| && ls[At(nodes, head, i)].prev == At(nodes, head, i - 1)
  }

  /** Walking `next` from the head visits exactly the nodes, in order. */
  ghost predicate Forward(ls: seq<Link>, head: nat, nodes: seq<nat>) {
    && Cells(ls, head, nodes)
    && forall i :: -1 <= i < |nodes| ==> NextOk(ls, head, nodes, i)
  }

  /** The `prev` link at position i leads back along the list, or to the node itself if that is torn. */
  ghost predicate BackOk(ls: seq<Link>, head: nat, nodes: seq<nat>, torn: set<nat>, i: int) {
    if At(nodes, head, i) in torn then At(nodes, head, i) < |ls| && ls[At(nodes, head, i)].prev == At(nodes, head, i)
    else PrevOk(ls, head, nodes, i)
  }

  /** The list is linked both ways, except at its torn nodes. */
  ghost predicate Linked(ls: seq<Link>, head: nat, nodes: seq<nat>, torn: set<nat>) {
    && Forward(ls, head, nodes)
    && (forall i :: 0 <= i <= |nodes| ==> BackOk(ls, head, nodes, torn, i))
    && (forall t :: t in torn ==> t in nodes)
  }

  function Inserted(s: seq<nat>, k: nat, x: nat): seq<nat>
    requires k <= |s|
  {
    s[..k] + [x] + s[k..]
  }

  function Dropped(s: seq<nat>, k: nat): seq<nat>
    requires k < |s|
  {
    s[..k] + s[k + 1..]
  }

  lemma AtSelf(nodes: seq<nat>, head: nat, i: nat)
    requires i < |nodes|
    ensures At(nodes, head, i) == nodes[i]
  {
  }

  lemma AtInserted(nodes: seq<nat>, head: nat, k: nat, elm: nat, i: int)
    requires k <= |nodes| && -1 <= i <= |nodes| + 1
    ensures At(Inserted(nodes, k, elm), head, i)
            == if i < k then At(nodes, head, i) else if i == k then elm else At(nodes, head, i - 1)
  {
  }

  lemma AtDropped(nodes: seq<nat>, head: nat, k: nat, i: int)
    requires k < |nodes| && -1 <= i < |nodes|
    ensures At(Dropped(nodes, k), head, i) == if i < k then At(nodes, head, i) else At(nodes, head, i + 1)
  {
  }

  lemma CellsInserted(ls: seq<Link>, ls': seq<Link>, head: nat, nodes: seq<nat>, k: nat, elm: nat)
    requires Cells(ls, head, nodes) && k <= |nodes| && elm < |ls| && elm != head && elm !in nodes && |ls'| == |ls|
    ensures Cells(ls', head, Inserted(nodes, k, elm))
  {
  }

  lemma CellsDropped(ls: seq<Link>, ls': seq<Link>, head: nat, nodes: seq<nat>, k: nat)
    requires Cells(ls, head, nodes) && k < |nodes| && |ls'| == |ls|
    ensures Cells(ls', head, Dropped(nodes, k))
  {
  }

  lemma AddedNext(ls: seq<Link>, head: nat, nodes: seq<nat>, k: nat, elm: nat, i: int)
    requires Forward(ls, head, nodes) && k <= |nodes| && elm < |ls| && elm != head && elm !in nodes
    requires -1 <= i <= |nodes|
    ensures NextOk(Added(ls, elm, At(nodes, head, k - 1), At(nodes, head, k)), head, Inserted(nodes, k, elm), i)
  {
    AtInserted(nodes, head, k, elm, i);
    AtInserted(nodes, head, k, elm, i + 1);
    assert NextOk(ls, head, nodes, if i < k then i else i - 1);
  }

  lemma AddedBack(ls: seq<Link>, head: nat, nodes: seq<nat>, torn: set<nat>, k: nat, elm: nat, i: int)
    requires Cells(ls, head, nodes) && k <= |nodes| && elm < |ls| && elm != head && elm !in nodes && elm !in torn
    requires head !in torn && At(nodes, head, k) !in torn && 0 <= i <= |nodes| + 1
    requires i < k ==> BackOk(ls, head, nodes, torn, i)
    requires i > k + 1 ==> BackOk(ls, head, nodes, torn, i - 1)
    ensures BackOk(Added(ls, elm, At(nodes, head, k - 1), At(nodes, head, k)), head, Inserted(nodes, k, elm), torn, i)
  {
    AtInserted(nodes, head, k, elm, i);
    AtInserted(nodes, head, k, elm, i - 1);
  }

  /** Adding a new cell between two neighbours, the upper one not torn. */
  lemma AddedLinked(ls: seq<Link>, head: nat, nodes: seq<nat>, k: nat, elm: nat, torn: set<nat>)
    requires Linked(ls, head, nodes, torn) && k <= |nodes| && At(nodes, head, k) !in torn
    requires elm < |ls| && elm != head && elm !in nodes
    ensures Linked(Added(ls, elm, At(nodes, head, k - 1), At(nodes, head, k)), head, Inserted(nodes, k, elm), torn)
  {
    var ls', ns := Added(ls, elm, At(nodes, head, k - 1), At(nodes, head, k)), Inserted(nodes, k, elm);
    CellsInserted(ls, ls', head, nodes, k, elm);
    InsertedHas(nodes, k, elm);
    HeadNotTorn(ls, head, nodes, torn);
    hide NextOk, BackOk, Inserted, Added;
    forall i | -1 <= i < |ns| ensures NextOk(ls', head, ns, i) {
      AddedNext(ls, head, nodes, k, elm, i);
    }
    forall i | 0 <= i <= |ns| ensures BackOk(ls', head, ns, torn, i) {
      AddedBack(ls, head, nodes, torn, k, elm, i);
    }
  }

  lemma InsertedHas(nodes: seq<nat>, k: nat, elm: nat)
    requires k <= |nodes|
    ensures |Inserted(nodes, k, elm)| == |nodes| + 1 && Inserted(nodes, k, elm)[k] == elm
    ensures forall x :: x in Inserted(nodes, k, elm) <==> x in nodes || x == elm
  {
    var ns := Inserted(nodes, k, elm);
    assert nodes == nodes[..k] + nodes[k..];
  }

  lemma HeadNotTorn(ls: seq<Link>, head: nat, nodes: seq<nat>, torn: set<nat>)
    requires Linked(ls, head, nodes, torn)
    ensures head !in nodes && head !in torn
  {
  }

  lemma DeletedNext(ls: seq<Link>, head: nat, nodes: seq<nat>, k: nat, i: int)
    requires Forward(ls, head, nodes) && k < |nodes| && -1 <= i < |nodes| - 1
    ensures NextOk(Deleted(ls, At(nodes, head, k - 1), At(nodes, head, k + 1)), head, Dropped(nodes, k), i)
  {
    AtDropped(nodes, head, k, i);
    AtDropped(nodes, head, k, i + 1);
    assert NextOk(ls, head, nodes, if i < k then i else i + 1);
  }

  lemma DeletedBack(ls: seq<Link>, head: nat, nodes: seq<nat>, torn: set<nat>, k: nat, i: int)
    requires Cells(ls, head, nodes) && k < |nodes| && 0 <= i <= |nodes| - 1 && head !in torn
    requires i < k ==> BackOk(ls, head, nodes, torn, i)
    requires i > k ==> BackOk(ls, head, nodes, torn, i + 1)
    ensures BackOk(Deleted(ls, At(nodes, head, k - 1), At(nodes, head, k + 1)), head, Dropped(nodes, k),
                   torn - {At(nodes, head, k + 1)}, i)
  {
    AtDropped(nodes, head, k, i);
    AtDropped(nodes, head, k, i - 1);
  }

  /** Deleting a node that is not torn, which mends the node behind it. */
  lemma DeletedLinked(ls: seq<Link>, head: nat, nodes: seq<nat>, k: nat, torn: set<nat>)
    requires Linked(ls, head, nodes, torn) && k < |nodes| && nodes[k] !in torn
    ensures Linked(Deleted(ls, At(nodes, head, k - 1), At(nodes, head, k + 1)), head, Dropped(nodes, k),
                   torn - {At(nodes, head, k + 1)})
  {
    var ls', ns := Deleted(ls, At(nodes, head, k - 1), At(nodes, head, k + 1)), Dropped(nodes, k);
    CellsDropped(ls, ls', head, nodes, k);
    DroppedHas(nodes, k);
    HeadNotTorn(ls, head, nodes, torn);
    hide NextOk, BackOk, Dropped, Deleted;
    forall i | -1 <= i < |ns| ensures NextOk(ls', head, ns, i) {
      DeletedNext(ls, head, nodes, k, i);
    }
    var mended := torn - {At(nodes, head, k + 1)};
    forall i | 0 <= i <= |ns| ensures BackOk(ls', head, ns, mended, i) {
      DeletedBack(ls, head, nodes, torn, k, i);
    }
  }

  lemma DroppedHas(nodes: seq<nat>, k: nat)
    requires k < |nodes|
    ensures |Dropped(nodes, k)| == |nodes| - 1
    ensures forall x :: x in nodes && x != nodes[k] ==> x in Dropped(nodes, k)
    ensures forall x :: x in Dropped(nodes, k) ==> x in nodes
  {
    assert nodes == nodes[..k] + [nodes[k]] + nodes[k + 1..];
  }

  /**
   Appending a cell behind the last node and then adding it once more behind itself, as a search
   loop without `break` does: the forward chain is right, but the new cell is torn.
   */
  lemma AppendedTwice(ls: seq<Link>, head: nat, nodes: seq<nat>, elm: nat, torn: set<nat>)
    requires Linked(ls, head, nodes, torn) && nodes != []
    requires elm < |ls| && elm != head && elm !in nodes
    ensures var once := Added(ls, elm, nodes[|nodes| - 1], head);
            && once[elm].next == head && once[nodes[|nodes| - 1]].next == elm
            && Added(once, elm, elm, head)[elm].next == head
            && Linked(Added(once, elm, elm, head), head, nodes + [elm], torn + {elm})
  {
    var n := |nodes|;
    var once := Added(ls, elm, nodes[n - 1], head);
    HeadNotTorn(ls, head, nodes, torn);
    AddedLinked(ls, head, nodes, n, elm, torn);
    assert Inserted(nodes, n, elm) == nodes + [elm];
    hide Added;
    AppendedLinks(once, head, nodes, elm, torn);
    AddedTwiceAt(once, head, elm);
    hide Linked;
    SelfLinked(once, head, nodes + [elm], torn);
  }

  lemma AppendedLinks(once: seq<Link>, head: nat, nodes: seq<nat>, elm: nat, torn: set<nat>)
    requires Linked(once, head, nodes + [elm], torn) && nodes != [] && head !in torn
    ensures head < |once| && elm < |once| && nodes[|nodes| - 1] < |once|
    ensures once[elm].next == head && once[nodes[|nodes| - 1]].next == elm && once[head].prev == elm
  {
    var n, ns := |nodes|, nodes + [elm];
    assert NextOk(once, head, ns, n) && NextOk(once, head, ns, n - 1) && BackOk(once, head, ns, torn, n + 1);
  }

  /** Making the last node its own `prev` tears it, and does nothing else. */
  lemma SelfLinked(ls: seq<Link>, head: nat, nodes: seq<nat>, torn: set<nat>)
    requires Linked(ls, head, nodes, torn) && nodes != [] && nodes[|nodes| - 1] < |ls|
    ensures var last := nodes[|nodes| - 1]; Linked(ls[last := Link(last, head)], head, nodes, torn + {last})
  {
    HeadNotTorn(ls, head, nodes, torn);
    var last := nodes[|nodes| - 1];
    var ls', more := ls[last := Link(last, head)], torn + {last};
    forall i | -1 <= i < |nodes| ensures NextOk(ls', head, nodes, i) {
      assert NextOk(ls, head, nodes, i);
    }
    forall i | 0 <= i <= |nodes| ensures BackOk(ls', head, nodes, more, i) {
      assert BackOk(ls, head, nodes, torn, i);
    }
  }

  /** Adding a cell behind itself changes no link but its own `prev`. */
  lemma AddedTwiceAt(once: seq<Link>, head: nat, elm: nat)
    requires elm < |once| && head < |once| && elm != head && once[elm].next == head && once[head].prev == elm
    ensures Added(once, elm, elm, head) == once[elm := Link(elm, head)]
  {
  }

  // ---- What a torn node does ----

  /** The first nodes are reached, then the walk goes round between two cells for ever. */
  ghost predicate Caught(ls: seq<Link>, head: nat, nodes: seq<nat>, k: nat, elm: nat) {
    && k < |nodes| && Cells(ls, head, nodes) && elm < |ls| && elm != head
    && (forall i :: -1 <= i < k ==> NextOk(ls, head, nodes, i))
    && ls[nodes[k]].next == elm && (ls[elm].next == elm || ls[elm].next == nodes[k])
  }

  /** Adding a cell in front of a torn node links the two to each other. */
  lemma TornAddBefore(ls: seq<Link>, head: nat, nodes: seq<nat>, k: nat, elm: nat, torn: set<nat>)
    requires Linked(ls, head, nodes, torn) && k < |nodes| && nodes[k] in torn
    requires elm < |ls| && elm != head && elm !in nodes
    ensures ls[nodes[k]].prev == nodes[k]
    ensures var ls' := Added(ls, elm, nodes[k], nodes[k]);
            && ls'[elm] == Link(nodes[k], nodes[k]) && ls'[nodes[k]] == Link(elm, elm)
            && Caught(ls', head, nodes, k, elm)
  {
    assert BackOk(ls, head, nodes, torn, k);
    var ls' := Added(ls, elm, nodes[k], nodes[k]);
    forall i | -1 <= i < k ensures NextOk(ls', head, nodes, i) {
      assert NextOk(ls, head, nodes, i) && At(nodes, head, i) != nodes[k] && At(nodes, head, i) != elm;
    }
  }

  /** The cell reached from cell p by m links; a link that leads nowhere ends the walk. */
  function Walk(ls: seq<Link>, p: nat, m: nat): nat
    decreases m
  {
    if m == 0 || p >= |ls| then p else Walk(ls, ls[p].next, m - 1)
  }

  /** From there on, no walk along the list gets back to its head. */
  lemma CaughtForEver(ls: seq<Link>, head: nat, nodes: seq<nat>, k: nat, elm: nat, m: nat)
    requires Caught(ls, head, nodes, k, elm) && m >= 1
    ensures Walk(ls, head, m) != head
  {
    assert NextOk(ls, head, nodes, -1);
    CaughtFrom(ls, head, nodes, k, elm, 0, m - 1);
  }

  lemma {:induction false} CaughtFrom(ls: seq<Link>, head: nat, nodes: seq<nat>, k: nat, elm: nat, i: nat, m: nat)
    requires Caught(ls, head, nodes, k, elm) && i <= k
    ensures Walk(ls, nodes[i], m) != head
    decreases k - i, m
  {
    if i == k {
      CaughtBetween(ls, head, nodes, k, elm, nodes[k], m);
    } else if m > 0 {
      assert NextOk(ls, head, nodes, i);
      CaughtFrom(ls, head, nodes, k, elm, i + 1, m - 1);
    }
  }

  lemma {:induction false} CaughtBetween(ls: seq<Link>, head: nat, nodes: seq<nat>, k: nat, elm: nat, p: nat, m: nat)
    requires Caught(ls, head, nodes, k, elm) && (p == elm || p == nodes[k])
    ensures Walk(ls, p, m) != head
    decreases m
  {
    if m > 0 {
      CaughtBetween(ls, head, nodes, k, elm, ls[p].next, m - 1);
    }
  }

  /** Deleting a torn node leaves it on the list, and mends the node behind it. */
  lemma TornDelete(ls: seq<Link>, head: nat, nodes: seq<nat>, k: nat, torn: set<nat>)
    requires Linked(ls, head, nodes, torn) && k < |nodes| && nodes[k] in torn
    ensures var next := At(nodes, head, k + 1);
            && next < |ls| && ls[nodes[k]] == Link(nodes[k], next)
            && Linked(Deleted(ls, nodes[k], next), head, nodes, torn - {next})
  {
    HeadNotTorn(ls, head, nodes, torn);
    var next := At(nodes, head, k + 1);
    assert NextOk(ls, head, nodes, k) && BackOk(ls, head, nodes, torn, k) && BackOk(ls, head, nodes, torn, k + 1);
    var ls' := Deleted(ls, nodes[k], next);
    forall i | -1 <= i < |nodes| ensures NextOk(ls', head, nodes, i) {
      assert NextOk(ls, head, nodes, i);
    }
    var mended := torn - {next};
    forall i | 0 <= i <= |nodes| ensures BackOk(ls', head, nodes, mended, i) {
      assert BackOk(ls, head, nodes, torn, i);
    }
  }
}
