/**
 get_pte, get_page, page_insert and page_remove over page tables in memory (kern/mm/pmm.c).
 An entry is addressed by its table page and index; NULL is None.
 */
module PageTable {
  import opened Wrappers
  import opened PageEntries
  import opened PageTableSpec

  /** The pages gone from the free set have become tables, and nothing else has. */
  ghost predicate TablesFromFree(s: Space, g: Space) {
    g.tables.Keys == s.tables.Keys + (s.free - g.free)
  }

  /**
   Entry (t, i) of an upper table is bit for bit what it was, or it was invalid and now has the
   flags U and V and no others, above the number of a page that was free.
   */
  ghost predicate UpperOk(s: Space, g: Space, t: nat, i: nat) {
    var was, now := Entry(s, t, i), Entry(g, t, i);
    now == was || (was % 2 == 0 && now % 1024 == 0x11 && Ppn(now) in s.free)
  }

  /** So it is with every entry of every upper table; a table that was not there counts as zeros. */
  ghost predicate UpperWritten(s: Space, g: Space) {
    && (forall t :: t in s.level && t in s.tables ==> t in g.level && g.level[t] == s.level[t])
    && forall t, i :: t in g.level && g.level[t] > 0 && 0 <= i < 512 ==> UpperOk(s, g, t, i)
  }

  /** The entries of last-level tables are the same; again a table that was not there counts as zeros. */
  ghost predicate LeavesSame(s: Space, g: Space) {
    forall t, i :: t in g.level && g.level[t] == 0 && 0 <= i < 512 ==> Entry(g, t, i) == Entry(s, t, i)
  }

  /** Likewise but for the entry at which the walk of v ends, which is pte. */
  ghost predicate LeafWritten(s: Space, g: Space, v: Vpn, pte: nat) {
    forall t, i :: t in g.level && g.level[t] == 0 && 0 <= i < 512 ==>
      Entry(g, t, i) == if Reaches(g, v, t) && i == v.i0 then pte else Entry(s, t, i)
  }

  /** Likewise but for the entry at which the walk of v ends, which is zero if it was valid. */
  ghost predicate LeafCleared(s: Space, g: Space, v: Vpn) {
    forall t, i :: t in g.level && g.level[t] == 0 && 0 <= i < 512 ==>
      Entry(g, t, i) == if Reaches(s, v, t) && i == v.i0 && Entry(s, t, i) % 2 == 1 then 0 else Entry(s, t, i)
  }

  function Min(a: int, b: int): int {
    if a < b then a else b
  }

  /** Two states between which only empty tables have been added. */
  ghost predicate Grown(s: Space, g: Space) {
    && Inv(g) && g.root == s.root && g.free <= s.free && TablesFromFree(s, g) && UpperWritten(s, g)
    && LeavesSame(s, g)
    && (forall w :: InRange(w) ==> Translate(g, w) == Translate(s, w))
    && (forall p :: DataPage(s, p) ==> DataPage(g, p) && g.ref[p] == s.ref[p] && Mappers(g, p) == Mappers(s, p))
  }

  lemma TableGrows(s: Space, t: nat, i: nat, q: nat)
    requires Inv(s) && Fresh(s, t, i, q)
    ensures Grown(s, WithTable(s, t, i, q))
  {
    hide Translate, Mappers, Inv, Reaches, UpperWritten, LeavesSame;
    var g := WithTable(s, t, i, q);
    TableKeepsInv(s, t, i, q);
    TableWritten(s, t, i, q);
    TableLeaves(s, t, i, q);
    forall w | InRange(w) ensures Translate(g, w) == Translate(s, w) {
      TableTranslates(s, t, i, q, w);
    }
    forall p | DataPage(s, p) ensures DataPage(g, p) && g.ref[p] == s.ref[p] && Mappers(g, p) == Mappers(s, p) {
      TableMappers(s, t, i, q, p);
      FreshIsFree(s, t, i, q);
    }
  }

  lemma TableWritten(s: Space, t: nat, i: nat, q: nat)
    requires Inv(s) && Fresh(s, t, i, q)
    ensures UpperWritten(s, WithTable(s, t, i, q))
  {
    hide Mappers, Tree, Rooted, Owned, Counted;
    EntryRoundTrip(q, PTE_U + 1);
    var g := WithTable(s, t, i, q);
    hide PteCreate, Ppn;
    assert Zeros()[0] == 0;
    forall u, j | u in g.level && g.level[u] > 0 && 0 <= j < 512 ensures UpperOk(s, g, u, j) {
    }
  }

  lemma TableLeaves(s: Space, t: nat, i: nat, q: nat)
    requires Inv(s) && Fresh(s, t, i, q)
    ensures LeavesSame(s, WithTable(s, t, i, q))
  {
    hide Mappers, Tree, Rooted, Owned, Counted, PteCreate, Ppn;
    assert forall j :: 0 <= j < |Zeros()| ==> Zeros()[j] == 0;
  }

  lemma FreshIsFree(s: Space, t: nat, i: nat, q: nat)
    requires Fresh(s, t, i, q)
    ensures q in s.free
  {
  }

  /** A walk that can go on at level 2 and level 1 reaches a last-level table. */
  lemma TableShape(s: Space, t: nat)
    requires Inv(s) && t in s.tables
    ensures |s.tables[t]| == ENTRIES
  {
  }

  lemma EntryPoints(s: Space, t: nat, i: nat)
    requires t in s.tables && t in s.level && s.level[t] > 0 && i < |s.tables[t]|
    ensures Valid(s.tables[t][i]) && !Leaf(s.tables[t][i]) <==> Points(s, t, i)
  {
  }

  lemma NewPoints(s: Space, t: nat, i: nat, q: nat)
    requires Inv(s) && Fresh(s, t, i, q)
    ensures t != q && t in s.tables && i < |s.tables[t]| && Points(WithTable(s, t, i, q), t, i)
  {
    TablePoints(s, t, i, q, t, i);
  }

  lemma FreshFrom(s: Space, t: nat, i: nat, q: nat)
    requires Inv(s) && t in s.tables && t in s.level && s.level[t] > 0 && i < ENTRIES && !Valid(s.tables[t][i])
        && q in s.free
    ensures Fresh(s, t, i, q) && q < 0x1000_0000_0000
  {
  }

  // ---- How many tables get_pte adds ----

  lemma MissingIs(s: Space, v: Vpn)
    requires Inv(s) && InRange(v) && NoHuge(s, v)
    ensures !Points(s, s.root, v.i2) <==> Missing(s, v) == 2
    ensures Points(s, s.root, v.i2) ==> (Points(s, Child(s, s.root, v.i2), v.i1) <==> Missing(s, v) == 0)
  {
    hide Rooted, Owned, Counted, Small;
  }

  /** An upper table added on the way leaves one more to add, for it is empty. */
  lemma MissingBehindTable(s: Space, v: Vpn, q: nat)
    requires Inv(s) && InRange(v) && Fresh(s, s.root, v.i2, q)
    ensures Missing(s, v) == 2 && Missing(WithTable(s, s.root, v.i2, q), v) == 1
  {
    hide Rooted, Owned, Counted, Mappers;
    TablePoints(s, s.root, v.i2, q, s.root, v.i2);
  }

  lemma MissingAfter(s: Space, v: Vpn, g: Space)
    requires Inv(s) && InRange(v) && NoHuge(s, v) && Inv(g) && Points(g, g.root, v.i2)
    requires g == s || (exists q :: Fresh(s, s.root, v.i2, q) && g == WithTable(s, s.root, v.i2, q))
    ensures |s.free| - |g.free| == Missing(s, v) - Missing(g, v)
    ensures !Points(g, Child(g, g.root, v.i2), v.i1) <==> Missing(g, v) == 1
    ensures Missing(g, v) <= 1
  {
    hide Tree, Rooted, Owned, Counted, Small, Mappers;
    if g != s {
      var q :| Fresh(s, s.root, v.i2, q) && g == WithTable(s, s.root, v.i2, q);
      MissingBehindTable(s, v, q);
      NewIsEmpty(s, s.root, v.i2, q, v.i1);
    } else {
      MissingIs(s, v);
    }
  }

  lemma NewIsEmpty(s: Space, t: nat, i: nat, q: nat, j: nat)
    requires Inv(s) && Fresh(s, t, i, q) && j < ENTRIES
    ensures var g := WithTable(s, t, i, q);
            Points(g, t, i) && Child(g, t, i) == q && !Points(g, q, j) && |g.free| == |s.free| - 1
  {
    TablePoints(s, t, i, q, t, i);
    TablePoints(s, t, i, q, q, j);
  }

  /** What one level does to the number of free pages. */
  lemma LevelTakes(s: Space, t: nat, i: nat, create: bool, g: Space, ok: bool)
    requires Inv(s) && i < ENTRIES && (ok ==> Points(g, t, i)) && (!ok ==> g == s && !Points(g, t, i))
    requires g == s || (create && exists q :: Fresh(s, t, i, q) && g == WithTable(s, t, i, q))
    ensures |g.free| == |s.free| - if ok && !Points(s, t, i) then 1 else 0
  {
    hide Tree, Rooted, Owned, Counted, Small;
    if g != s {
      var q :| Fresh(s, t, i, q) && g == WithTable(s, t, i, q);
      NewIsEmpty(s, t, i, q, 0);
    }
  }

  /** What get_pte with `create` answers and takes, in terms of the state it started from. */
  ghost predicate CountsRight(s: Space, v: Vpn, g: Space, found: bool) {
    && (found <==> |s.free| >= Missing(s, v))
    && |g.tables.Keys - s.tables.Keys| == Min(|s.free|, Missing(s, v))
  }

  lemma FirstLevelFails(s: Space, v: Vpn)
    requires Inv(s) && InRange(v) && NoHuge(s, v) && !Points(s, s.root, v.i2) && s.free == {}
    ensures CountsRight(s, v, s, false)
  {
    MissingIs(s, v);
    hide Inv;
    assert s.tables.Keys - s.tables.Keys == {};
  }

  lemma SecondLevelDone(s: Space, v: Vpn, s1: Space, g: Space, ok: bool)
    requires Inv(s) && InRange(v) && NoHuge(s, v) && Inv(s1) && Points(s1, s1.root, v.i2)
    requires s1 == s || (exists q :: Fresh(s, s.root, v.i2, q) && s1 == WithTable(s, s.root, v.i2, q))
    requires var t := Child(s1, s1.root, v.i2);
             && (if ok then Points(g, t, v.i1) else g == s1 && !Points(g, t, v.i1) && g.free == {})
             && (g == s1 || (exists q :: Fresh(s1, t, v.i1, q) && g == WithTable(s1, t, v.i1, q)))
    requires Grown(s, g)
    ensures CountsRight(s, v, g, ok)
  {
    MissingAfter(s, v, s1);
    LevelTakes(s1, Child(s1, s1.root, v.i2), v.i1, true, g, ok);
    TablesCounted(s, g);
  }

  lemma TablesCounted(s: Space, g: Space)
    requires Inv(s) && Inv(g) && g.free <= s.free && TablesFromFree(s, g)
    ensures |g.tables.Keys - s.tables.Keys| == |s.free| - |g.free|
  {
    assert g.tables.Keys - s.tables.Keys == s.free - g.free;
    assert |s.free - g.free| == |s.free| - |g.free|;
  }

  lemma WalkReaches(s: Space, v: Vpn)
    requires Inv(s) && InRange(v) && Points(s, s.root, v.i2) && Points(s, Child(s, s.root, v.i2), v.i1)
    ensures var t := Child(s, Child(s, s.root, v.i2), v.i1); Reaches(s, v, t) && LastLevel(s, t, v.i0)
  {
  }

  class PageDirectory {
    const root: nat
    var tables: map<nat, seq<nat>>
    var ref: map<nat, int>
    var free: set<nat>
    ghost var level: map<nat, nat>

    ghost function State(): Space
      reads this
    {
      Space(root, tables, level, ref, free)
    }

    /**
     The boot directory and the managed pages, all of them free.  The only valid entries of
     that directory are huge leaves.
     */
    constructor (root: nat, entries: seq<nat>, managed: set<nat>)
      requires |entries| == ENTRIES && forall i :: 0 <= i < ENTRIES ==> Valid(entries[i]) ==> Leaf(entries[i])
      requires root !in managed && forall p :: p in managed ==> p < 0x1000_0000_0000
      ensures Inv(State()) && free == managed && tables == map[root := entries] && this.root == root
    {
      this.root := root;
      tables, level := map[root := entries], map[root := 2];
      ref := map p | p in managed :: 0;
      free := managed;
      new;
      assert forall t, i :: !Points(State(), t, i);
    }

    /** alloc_page: some free page, or none when there is none. */
    method AllocPage() returns (q: Option<nat>)
      modifies this`free
      ensures q.None? ==> old(free) == {} && free == {}
      ensures q.Some? ==> q.value in old(free) && free == old(free) - {q.value}
      ensures old(Inv(State())) ==> Inv(State())
    {
      if free == {} {
        return None;
      }
      assert exists p :: p in free by {
        assert (forall p :: p !in free) ==> free == {};
      }
      var p :| p in free;
      if Inv(State()) {
        AllocKeepsInv(State(), p);
      }
      free := free - {p};
      return Some(p);
    }

    /** One level of get_pte: makes entry (t, i) point to a table, allocating an empty one if asked to. */
    method EnsureTable(t: nat, i: nat, create: bool) returns (ok: bool)
      requires Inv(State()) && t in tables && t in level && level[t] > 0 && i < ENTRIES
      requires i < |tables[t]| && (Valid(tables[t][i]) ==> !Leaf(tables[t][i]))
      modifies this
      ensures ok ==> Points(State(), t, i)
      ensures !ok ==> State() == old(State()) && !Points(State(), t, i) && (create ==> free == {})
      ensures
        || State() == old(State())
        || (create && exists q :: Fresh(old(State()), t, i, q) && State() == WithTable(old(State()), t, i, q))
    {
      TableShape(State(), t);
      EntryPoints(State(), t, i);
      hide Inv, Zeros, PteCreate, Ppn, Valid, Leaf, Points, Fresh;
      ghost var s := State();
      if !Valid(tables[t][i]) {
        if !create {
          return false;
        }
        var page := AllocPage();
        if page.None? {
          return false;
        }
        var q := page.value;
        FreshFrom(s, t, i, q);
        NewPoints(s, t, i, q);
        InstallTable(t, i, q);
      }
      return true;
    }

    /** Clears the new page q and makes entry (t, i) point to it. */
    method InstallTable(t: nat, i: nat, q: nat)
      requires t in tables && t in level && level[t] > 0 && i < |tables[t]| && q != t
      modifies this`tables, this`ref, this`level
      ensures State() == WithTable(old(State()), t, i, q).(free := free)
    {
      ref := ref[q := 1];
      tables := tables[q := Zeros()];
      var entries: seq<nat> := tables[t][i := PteCreate(q, PTE_U + 1)];
      tables := tables[t := entries];
      level := level[q := level[t] - 1];
      assert tables == WithTable(old(State()), t, i, q).tables;
    }

    /** get_pte; fails without `create` exactly when an upper entry is invalid, and with it only for lack of memory. */
    method GetPte(la: nat, create: bool) returns (r: Option<(nat, nat)>)
      requires Inv(State()) && NoHuge(State(), VpnOf(la))
      modifies this
      ensures Grown(old(State()), State()) && UpperWritten(old(State()), State())
      ensures r.Some? ==>
        && r.value.1 == VpnOf(la).i0 && Reaches(State(), VpnOf(la), r.value.0)
        && LastLevel(State(), r.value.0, r.value.1)
      ensures !create ==> State() == old(State()) && (r.Some? <==> exists t :: Reaches(State(), VpnOf(la), t))
      ensures create && r.None? ==> free == {}
      ensures create ==> (r.Some? <==> |old(free)| >= Missing(old(State()), VpnOf(la)))
      ensures create ==> |tables.Keys - old(tables).Keys| == Min(|old(free)|, Missing(old(State()), VpnOf(la)))
    {
      hide UpperWritten, TablesFromFree, Missing, Min, Mappers, Tree, Rooted, Owned, Counted, Translate, Small, NoHuge,
           Fresh, WithTable, Reaches, LastLevel, DataPage;
      var v := VpnOf(la);
      VpnDigits(la);
      hide VpnOf;
      ghost var s := State();
      UpperEntries(s, v);
      var ok := EnsureTable(root, v.i2, create);
      ghost var s1 := State();
      GrownByTable(s, root, v.i2, create, s1);
      if !ok {
        NotReached(s1, v);
        if create {
          FirstLevelFails(s, v);
        }
        return None;
      }
      var t1 := Ppn(tables[root][v.i2]);
      LowerEntries(s, s1, v);
      ok := EnsureTable(t1, v.i1, create);
      GrownByTable(s1, t1, v.i1, create, State());
      GrownTwice(s, s1, State());
      if create {
        SecondLevelDone(s, v, s1, State(), ok);
      }
      if !ok {
        NotReached(s1, v);
        return None;
      }
      KeepsPoints(s1, t1, v.i1, State(), root, v.i2);
      WalkReaches(State(), v);
      return Some((Ppn(tables[t1][v.i1]), v.i0));
    }

    /** get_page: the page that la is mapped to. */
    method GetPage(la: nat) returns (page: Option<nat>)
      requires Inv(State()) && NoHuge(State(), VpnOf(la))
      modifies this
      ensures State() == old(State())
      ensures page == match Translate(State(), VpnOf(la)) case Mapped(pte) => Some(Ppn(pte)) case _ => None
    {
      hide Mappers, Rooted, Owned, Counted, Small;
      var r := GetPte(la, false);
      if r.None? {
        NoMapping(State(), VpnOf(la));
        return None;
      }
      var (t, i) := r.value;
      ReachesLevel(State(), VpnOf(la), t);
      if Valid(tables[t][i]) {
        return Some(Ppn(tables[t][i]));
      }
      return None;
    }

    /** page_remove_pte. */
    method PageRemovePte(t: nat, i: nat)
      requires t in tables && i < |tables[t]| && (Valid(tables[t][i]) ==> Ppn(tables[t][i]) in ref)
      modifies this
      ensures State() == RemoveEntry(old(State()), t, i)
      ensures t in tables && |tables[t]| == |old(tables)[t]|
    {
      if Valid(tables[t][i]) {
        var page := Ppn(tables[t][i]);
        ref := ref[page := ref[page] - 1];
        if ref[page] == 0 {
          free := free + {page};
        }
        var entries: seq<nat> := tables[t][i := 0];
        tables := tables[t := entries];
      }
    }

    /** page_remove: deletes the mapping of la and nothing else, freeing the page with its last mapping. */
    method PageRemove(la: nat)
      requires Inv(State()) && NoHuge(State(), VpnOf(la))
      modifies this
      ensures Inv(State())
      ensures forall w :: InRange(w) ==>
        Translate(State(), w) == if w == VpnOf(la) then Unmapped else Translate(old(State()), w)
      ensures forall p :: DataPage(old(State()), p) ==> (p in free <==> LosesLast(old(State()), VpnOf(la), p))
      ensures old(State()).free <= free && UpperSame(old(State()), State())
      ensures LeafCleared(old(State()), State(), VpnOf(la))
    {
      ghost var s := State();
      hide Mappers, Tree, Rooted, Owned, Counted, Small, Translate, WithEntry;
      var r := GetPte(la, false);
      if r.None? {
        NoMapping(s, VpnOf(la));
        NothingCleared(s, VpnOf(la));
        return;
      }
      var (t, i) := r.value;
      RemoveEffect(s, VpnOf(la), t);
      PageRemovePte(t, i);
    }

    /**
     page_insert: maps la to the page, whatever it was mapped to before.  Without memory
     for a table it fails and changes no translation.
     */
    method PageInsert(page: nat, la: nat, perm: nat) returns (err: int)
      requires Inv(State()) && NoHuge(State(), VpnOf(la)) && DataPage(State(), page) && perm < 1024
      modifies this
      ensures Inv(State())
      ensures err == if |old(free)| >= Missing(old(State()), VpnOf(la)) then 0 else -E_NO_MEM
      ensures |tables.Keys - old(tables).Keys| == Min(|old(free)|, Missing(old(State()), VpnOf(la)))
      ensures err != 0 ==> free == {} && forall w :: InRange(w) ==> Translate(State(), w) == Translate(old(State()), w)
      ensures err != 0 ==> forall p :: DataPage(old(State()), p) ==> DataPage(State(), p) && ref[p] == old(ref)[p]
      ensures err == 0 ==> forall w :: InRange(w) ==>
        Translate(State(), w) == if w == VpnOf(la) then Mapped(PteCreate(page, perm)) else Translate(old(State()), w)
      ensures if err == 0 then LeafWritten(old(State()), State(), VpnOf(la), PteCreate(page, perm))
              else LeavesSame(old(State()), State())
      ensures err == 0 ==> forall p :: DataPage(old(State()), p) ==>
        (p in free <==> p != page && LosesLast(old(State()), VpnOf(la), p))
      ensures TablesFromFree(old(State()), State()) && UpperWritten(old(State()), State())
    {
      ghost var s := State();
      hide Mappers, Tree, Rooted, Owned, Counted, Small, Translate, WithEntry, PteCreate, Missing, Min,
          TablesFromFree, NoHuge, LosesLast, InsertEntry, Ppn, Valid;
      var r := GetPte(la, true);
      ghost var s1 := State();
      if r.None? {
        return -E_NO_MEM;
      }
      var (t, i) := r.value;
      InsertEffect(s, s1, VpnOf(la), t, page, perm);
      MapEntry(t, i, page, perm);
      return 0;
    }

    /** The part of page_insert behind get_pte: the counts, the old mapping, the new entry. */
    method MapEntry(t: nat, i: nat, page: nat, perm: nat)
      requires t in tables && i < |tables[t]| && page in ref
      requires Valid(tables[t][i]) ==> Ppn(tables[t][i]) in ref
      modifies this
      ensures State() == InsertEntry(old(State()), t, i, page, perm)
    {
      hide PteCreate, Ppn, Valid;
      ref := ref[page := ref[page] + 1];
      if Valid(tables[t][i]) {
        var p := Ppn(tables[t][i]);
        if p == page {
          ref := ref[page := ref[page] - 1];
        } else {
          PageRemovePte(t, i);
        }
      }
      StoreEntry(t, i, PteCreate(page, perm));
    }

    /** The assignment to *ptep. */
    method StoreEntry(t: nat, i: nat, pte: nat)
      requires t in tables && i < |tables[t]|
      modifies this`tables
      ensures State() == WithEntry(old(State()), t, i, pte)
    {
      var entries: seq<nat> := tables[t][i := pte];
      tables := tables[t := entries];
    }
  }

  // ---- The boot directory ----

  /** boot_page_table_sv39: 511 invalid entries, then a leaf that maps a gigabyte. */
  function BootDirectory(): (entries: seq<nat>)
    ensures |entries| == ENTRIES
    ensures forall i :: 0 <= i < ENTRIES ==> entries[i] == if i == 511 then 0x80000 * 1024 + 0xcf else 0
  {
    seq(ENTRIES, i => if i == 511 then 0x80000 * 1024 + 0xcf else 0)
  }

  /** The walks that get_pte misreads there are those through the last entry. */
  lemma BootLeafIsHuge(s: Space, v: Vpn)
    requires InRange(v) && s.root in s.tables && s.tables[s.root] == BootDirectory()
    ensures NoHuge(s, v) <==> v.i2 != 511
  {
    var boot := BootDirectory();
    assert Entry(s, s.root, v.i2) == boot[v.i2];
    assert Valid(0x80000 * 1024 + 0xcf) && Leaf(0x80000 * 1024 + 0xcf) && !Valid(0);
  }

  /** With a single page in the machine, mapping that page fails: there is none left for a table. */
  method InsertWithoutMemory() returns (err: int)
    ensures err == -E_NO_MEM
  {
    BootEntries();
    hide Inv, BootDirectory, NoHuge, Missing, Valid, Leaf, Translate, TablesFromFree, LosesLast, Min, VpnOf;
    var d := new PageDirectory(0x80203, BootDirectory(), {0x80400});
    BootMisses(d.State());
    ManagedFree(d.State(), 0x80400);
    ghost var s := d.State();
    var page := d.AllocPage();
    SameWalk(s, d.State(), VpnOf(0));
    err := d.PageInsert(page.value, 0, 0);
  }

  lemma BootEntries()
    ensures forall i :: 0 <= i < ENTRIES ==> Valid(BootDirectory()[i]) ==> Leaf(BootDirectory()[i])
  {
    assert Valid(0x80000 * 1024 + 0xcf) && Leaf(0x80000 * 1024 + 0xcf) && !Valid(0);
  }

  lemma BootMisses(s: Space)
    requires s.tables == map[s.root := BootDirectory()]
    ensures NoHuge(s, VpnOf(0)) && Missing(s, VpnOf(0)) == 2
  {
    BootLeafIsHuge(s, VpnOf(0));
  }

  lemma ManagedFree(s: Space, p: nat)
    requires Inv(s) && p in s.free
    ensures p in s.ref && p !in s.tables && p != s.root
  {
  }

  lemma SameWalk(s: Space, g: Space, v: Vpn)
    requires s.tables == g.tables && s.root == g.root
    ensures (NoHuge(s, v) <==> NoHuge(g, v)) && Missing(s, v) == Missing(g, v)
  {
  }

  /** A page taken from the free set becomes a data page that nothing maps. */
  lemma AllocKeepsInv(s: Space, p: nat)
    requires Inv(s) && p in s.free
    ensures Inv(s.(free := s.free - {p}))
  {
    hide Mappers, Tree, Rooted;
    var g := s.(free := s.free - {p});
    SameTree(s, g);
    FreeUnmapped(s, p);
    forall q ensures Mappers(g, q) == Mappers(s, q) {
      SameMappers(s, g, q);
    }
  }

  lemma FreeUnmapped(s: Space, p: nat)
    requires Inv(s) && p in s.free
    ensures Mappers(s, p) == {}
  {
  }

  lemma UpperEntries(s: Space, v: Vpn)
    requires Inv(s) && InRange(v) && NoHuge(s, v)
    ensures s.root in s.tables && s.root in s.level && s.level[s.root] == 2 && |s.tables[s.root]| == ENTRIES
    ensures Valid(s.tables[s.root][v.i2]) ==> !Leaf(s.tables[s.root][v.i2])
    ensures Grown(s, s)
  {
  }

  lemma NotReached(s: Space, v: Vpn)
    requires Inv(s) && InRange(v)
    requires !Points(s, s.root, v.i2) || !Points(s, Child(s, s.root, v.i2), v.i1)
    ensures forall t :: !Reaches(s, v, t)
  {
    forall t | Reaches(s, v, t) ensures false {
      ReachesLevel(s, v, t);
    }
  }

  lemma GrownByTable(s: Space, t: nat, i: nat, create: bool, g: Space)
    requires Inv(s)
    requires g == s || (create && exists q :: Fresh(s, t, i, q) && g == WithTable(s, t, i, q))
    ensures Grown(s, g)
  {
    if g != s {
      var q :| Fresh(s, t, i, q) && g == WithTable(s, t, i, q);
      TableGrows(s, t, i, q);
    }
  }

  lemma GrownTwice(s: Space, g: Space, h: Space)
    requires Inv(s) && Grown(s, g) && Grown(g, h)
    ensures Grown(s, h)
  {
    FromFreeTwice(s, g, h);
    WrittenTwice(s, g, h);
    LeavesTwice(s, g, h);
    hide Inv, Translate, Mappers, DataPage, UpperWritten, LeavesSame, TablesFromFree;
  }

  lemma LeavesTwice(s: Space, g: Space, h: Space)
    requires Inv(s) && Inv(g) && Inv(h) && LeavesSame(s, g) && LeavesSame(g, h) && UpperWritten(g, h)
    requires g.free <= s.free && s.tables.Keys <= g.tables.Keys
    ensures LeavesSame(s, h)
  {
    hide Mappers, Rooted, Owned, Counted, Small, Ppn, UpperOk;
    forall t, i | t in h.level && h.level[t] == 0 && 0 <= i < 512 ensures Entry(h, t, i) == Entry(s, t, i) {
      assert Entry(h, t, i) == Entry(g, t, i);
      assert t !in g.level ==> Entry(g, t, i) == 0 && Entry(s, t, i) == 0;
    }
  }

  lemma FromFreeTwice(s: Space, g: Space, h: Space)
    requires TablesFromFree(s, g) && TablesFromFree(g, h) && g.free <= s.free && h.free <= g.free
    ensures TablesFromFree(s, h) && s.tables.Keys <= g.tables.Keys
  {
  }

  lemma WrittenTwice(s: Space, g: Space, h: Space)
    requires Inv(s) && Inv(g) && Inv(h) && UpperWritten(s, g) && UpperWritten(g, h)
    requires g.free <= s.free && s.tables.Keys <= g.tables.Keys
    ensures UpperWritten(s, h)
  {
    hide Mappers, Rooted, Owned, Counted, Small, Ppn;
    forall t, i | t in h.level && h.level[t] > 0 && 0 <= i < 512 ensures UpperOk(s, h, t, i) {
      assert UpperOk(g, h, t, i);
      assert t in g.level ==> UpperOk(s, g, t, i);
      assert t !in g.level ==> Entry(g, t, i) == 0 && Entry(s, t, i) == 0;
    }
  }

  /** Below the root, the walk goes on in a table whose entry for v is not a huge leaf. */
  lemma LowerEntries(s: Space, g: Space, v: Vpn)
    requires Inv(s) && Inv(g) && InRange(v) && NoHuge(s, v) && Points(g, g.root, v.i2)
    requires g == s || (exists q :: Fresh(s, s.root, v.i2, q) && g == WithTable(s, s.root, v.i2, q))
    ensures var t := Child(g, g.root, v.i2);
            && t in g.tables && t in g.level && g.level[t] == 1 && |g.tables[t]| == ENTRIES && t != g.root
            && (Valid(g.tables[t][v.i1]) ==> !Leaf(g.tables[t][v.i1]))
  {
    if g != s {
      var q :| Fresh(s, s.root, v.i2, q) && g == WithTable(s, s.root, v.i2, q);
      TablePoints(s, s.root, v.i2, q, g.root, v.i2);
    }
  }

  lemma KeepsPoints(s: Space, t: nat, i: nat, g: Space, u: nat, j: nat)
    requires Inv(s) && Points(s, u, j)
    requires g == s || (exists q :: Fresh(s, t, i, q) && g == WithTable(s, t, i, q))
    ensures Points(g, u, j) && Child(g, u, j) == Child(s, u, j)
  {
    if g != s {
      var q :| Fresh(s, t, i, q) && g == WithTable(s, t, i, q);
      TablePoints(s, t, i, q, u, j);
    }
  }

  /** The mapping of v is the only one page p has. */
  ghost predicate LosesLast(s: Space, v: Vpn, p: nat) {
    Translate(s, v).Mapped? && Ppn(Translate(s, v).pte) == p && |Mappers(s, p)| == 1
  }

  lemma NoMapping(s: Space, v: Vpn)
    requires Inv(s) && InRange(v) && NoHuge(s, v) && forall t :: !Reaches(s, v, t)
    ensures Translate(s, v) == Unmapped
  {
    var e2 := Entry(s, s.root, v.i2);
    if Valid(e2) {
      var e1 := Entry(s, Ppn(e2), v.i1);
      assert !Reaches(s, v, Ppn(e1));
    }
  }

  /** The page freed by overwriting the entry that v ends at. */
  lemma OrphanIsLast(s: Space, v: Vpn, t: nat, pte: nat, p: nat)
    requires Inv(s) && InRange(v) && Reaches(s, v, t) && LastLevel(s, t, v.i0)
    ensures p in Orphan(s, t, v.i0, pte) <==> LosesLast(s, v, p) && !MapsTo(pte, p)
  {
    hide Rooted, Owned, Counted, Small;
    OrphanIsUnmapped(s, t, v.i0, pte, p);
    MapperCount(s, t, v.i0, pte, p);
    ReachesLevel(s, v, t);
    WriteMappers(s, t, v.i0, pte, p);
    hide Mappers, Tree, Rooted;
  }

  lemma RemoveEffect(s: Space, v: Vpn, t: nat)
    requires Inv(s) && InRange(v) && Reaches(s, v, t) && LastLevel(s, t, v.i0)
    ensures Valid(s.tables[t][v.i0]) ==> Ppn(s.tables[t][v.i0]) in s.ref
    ensures var g := RemoveEntry(s, t, v.i0);
            && Inv(g) && s.free <= g.free && UpperSame(s, g) && LeafCleared(s, g, v)
            && (forall w :: InRange(w) ==> Translate(g, w) == if w == v then Unmapped else Translate(s, w))
            && (forall p :: DataPage(s, p) ==> (p in g.free <==> LosesLast(s, v, p)))
  {
    var g := RemoveEntry(s, t, v.i0);
    RemoveIsRewrite(s, t, v.i0);
    ReachesLevel(s, v, t);
    if Valid(s.tables[t][v.i0]) {
      RewriteKeepsInv(s, t, v.i0, 0, g);
      RewriteEffect(s, v, t, 0, g);
      RewriteSparesUpper(s, t, v.i0, 0, g);
      RewriteLeaf(s, v, t, 0, g);
      ClearedIs(s, v, t, g);
    } else {
      NothingCleared(s, v);
    }
  }

  lemma NothingCleared(s: Space, v: Vpn)
    requires forall t :: Reaches(s, v, t) ==> Entry(s, t, v.i0) % 2 == 0
    ensures LeafCleared(s, s, v)
  {
    hide Reaches;
  }

  lemma ClearedIs(s: Space, v: Vpn, t: nat, g: Space)
    requires Reaches(s, v, t) && Entry(s, t, v.i0) % 2 == 1 && LeafWritten(s, g, v, 0)
    requires forall u :: Reaches(g, v, u) <==> u == t
    ensures LeafCleared(s, g, v)
  {
    hide Entry;
  }

  /** A write behind the walk of v changes that entry of a last-level table and no other. */
  lemma RewriteLeaf(s: Space, v: Vpn, t: nat, pte: nat, g: Space)
    requires Inv(s) && InRange(v) && Reaches(s, v, t) && LastLevel(s, t, v.i0) && Rewritten(s, t, v.i0, pte, g)
    ensures LeafWritten(s, g, v, pte) && forall u :: Reaches(g, v, u) <==> u == t
  {
    hide Mappers, Rooted, Owned, Counted, Small, Ppn, Leaf, Valid;
    ReachesLevel(s, v, t);
  }

  lemma LeafBehind(s: Space, s1: Space, g: Space, v: Vpn, pte: nat)
    requires LeavesSame(s, s1) && LeafWritten(s1, g, v, pte) && g.level == s1.level
    ensures LeafWritten(s, g, v, pte)
  {
    hide Reaches, Entry;
  }


  /** The entries of upper tables are bit for bit the same. */
  ghost predicate UpperSame(s: Space, g: Space) {
    g.level == s.level && g.tables.Keys == s.tables.Keys
    && forall t, i :: t in g.level && g.level[t] > 0 && 0 <= i < 512 ==> Entry(g, t, i) == Entry(s, t, i)
  }

  lemma RewriteSparesUpper(s: Space, t: nat, i: nat, pte: nat, g: Space)
    requires LastLevel(s, t, i) && Rewritten(s, t, i, pte, g)
    ensures UpperSame(s, g)
  {
  }

  lemma StillWritten(s: Space, s1: Space, g: Space)
    requires UpperWritten(s, s1) && UpperSame(s1, g)
    ensures UpperWritten(s, g)
  {
    forall t, i | t in g.level && g.level[t] > 0 && 0 <= i < 512 ensures UpperOk(s, g, t, i) {
      assert UpperOk(s, s1, t, i);
    }
  }

  lemma RewriteEffect(s: Space, v: Vpn, t: nat, pte: nat, g: Space)
    requires Inv(s) && InRange(v) && Reaches(s, v, t) && LastLevel(s, t, v.i0) && Rewritten(s, t, v.i0, pte, g)
    ensures forall w :: InRange(w) ==>
              Translate(g, w) == if w == v then (if Valid(pte) then Mapped(pte) else Unmapped) else Translate(s, w)
    ensures forall p :: DataPage(s, p) ==> (p in g.free <==> LosesLast(s, v, p) && !MapsTo(pte, p))
  {
    hide Mappers, Rooted, Owned, Counted, Small, Orphan, Reaches, LosesLast;
    forall w | InRange(w)
      ensures Translate(g, w) == if w == v then (if Valid(pte) then Mapped(pte) else Unmapped) else Translate(s, w) {
      WriteTranslates(s, v, t, pte, w);
      SameTranslation(WithEntry(s, t, v.i0, pte), g, w);
    }
    forall p | DataPage(s, p) ensures p in g.free <==> LosesLast(s, v, p) && !MapsTo(pte, p) {
      OrphanIsLast(s, v, t, pte, p);
    }
  }

  lemma SameTranslation(s: Space, g: Space, w: Vpn)
    requires s.tables == g.tables && s.root == g.root
    ensures Translate(s, w) == Translate(g, w)
  {
  }

  lemma InsertEffect(s: Space, s1: Space, v: Vpn, t: nat, page: nat, perm: nat)
    requires Inv(s) && Grown(s, s1) && InRange(v) && Reaches(s1, v, t) && LastLevel(s1, t, v.i0)
    requires DataPage(s, page) && perm < 1024
    ensures page in s1.ref && (Valid(s1.tables[t][v.i0]) ==> Ppn(s1.tables[t][v.i0]) in s1.ref)
    ensures var g := InsertEntry(s1, t, v.i0, page, perm);
            && Inv(g) && TablesFromFree(s, g) && g.tables.Keys == s1.tables.Keys && UpperWritten(s, g)
            && LeafWritten(s, g, v, PteCreate(page, perm))
            && (forall w :: InRange(w) ==>
                  Translate(g, w) == if w == v then Mapped(PteCreate(page, perm)) else Translate(s, w))
            && (forall p :: DataPage(s, p) ==> (p in g.free <==> p != page && LosesLast(s, v, p)))
  {
    hide Tree, Rooted, Owned, Counted, Small, Reaches, Translate, Mappers, PteCreate;
    var pte := PteCreate(page, perm);
    hide UpperWritten, LeavesSame, LeafWritten;
    InsertIsRewrite(s1, t, v.i0, page, perm);
    RewriteSparesUpper(s1, t, v.i0, pte, InsertEntry(s1, t, v.i0, page, perm));
    StillWritten(s, s1, InsertEntry(s1, t, v.i0, page, perm));
    RewriteLeaf(s1, v, t, pte, InsertEntry(s1, t, v.i0, page, perm));
    LeafBehind(s, s1, InsertEntry(s1, t, v.i0, page, perm), v, pte);
    var g := InsertEntry(s1, t, v.i0, page, perm);
    assert s1.free <= g.free && g.tables.Keys == s1.tables.Keys;
    hide InsertEntry, Rewritten;
    RewriteKeepsInv(s1, t, v.i0, pte, g);
    RewriteEffect(s1, v, t, pte, g);
  }
}
