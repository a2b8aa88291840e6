/**
 Three-level page tables with reference counts (kern/mm/pmm.c).

 A page is named by its physical page number.  The entries of the table pages, the
 reference counts and the set of free pages form one value; the walk over it is the
 address translation.
 */
module PageTableSpec {
  import opened PageEntries

  // ---- The state ----

  datatype Space = Space(
    root: nat,
    tables: map<nat, seq<nat>>,  // entries of the table pages, the root included
    level: map<nat, nat>,        // 2 for the root, 0 for the tables that hold the last entry of a walk
    ref: map<nat, int>,          // reference counts of the managed pages
    free: set<nat>)

  /** Entry (t, i) is a valid pointer to a lower table. */
  ghost predicate Points(s: Space, t: nat, i: nat) {
    && t in s.tables && t in s.level && s.level[t] > 0 && i < |s.tables[t]|
    && Valid(s.tables[t][i]) && !Leaf(s.tables[t][i])
  }

  ghost function Child(s: Space, t: nat, i: nat): nat
    requires Points(s, t, i)
  {
    Ppn(s.tables[t][i])
  }

  /** The tables form a tree: levels fall by one, and no table is pointed to twice. */
  ghost predicate Tree(s: Space) {
    && s.tables.Keys == s.level.Keys && s.root in s.tables && s.level[s.root] == 2
    && (forall t :: t in s.tables ==> |s.tables[t]| == ENTRIES && s.level[t] <= 2)
    && (forall t, i :: Points(s, t, i) ==> Child(s, t, i) in s.level && s.level[Child(s, t, i)] == s.level[t] - 1)
    && (forall t, i, u, j :: Points(s, t, i) && Points(s, u, j) && Child(s, t, i) == Child(s, u, j) ==>
          t == u && i == j)
  }

  ghost predicate PointedTo(s: Space, t: nat) {
    exists u, i :: Points(s, u, i) && Child(s, u, i) == t
  }

  /** Every table but the root hangs below another one. */
  ghost predicate Rooted(s: Space) {
    forall t :: t in s.tables && t != s.root ==> PointedTo(s, t)
  }

  predicate MapsTo(pte: nat, p: nat) {
    Valid(pte) && Ppn(pte) == p
  }

  /** The last-level entries that map page p. */
  ghost function Mappers(s: Space, p: nat): set<(nat, nat)> {
    set t, i |
      t in s.tables && t in s.level && s.level[t] == 0 && 0 <= i < |s.tables[t]| && MapsTo(s.tables[t][i], p)
      :: (t, i)
  }

  ghost predicate DataPage(s: Space, p: nat) {
    p in s.ref && p !in s.free && p !in s.tables && p != s.root
  }

  /** Last-level entries map data pages only. */
  ghost predicate Owned(s: Space) {
    && s.free <= s.ref.Keys && s.free !! s.tables.Keys
    && (forall t, i ::
          t in s.tables && t in s.level && s.level[t] == 0 && 0 <= i < |s.tables[t]| && Valid(s.tables[t][i]) ==>
            DataPage(s, Ppn(s.tables[t][i])))
  }

  /** Free pages count 0, tables 1, and a data page the entries that map it. */
  ghost predicate Counted(s: Space) {
    && (forall p :: p in s.free && p in s.ref ==> s.ref[p] == 0)
    && (forall p :: p in s.tables && p != s.root && p in s.ref ==> s.ref[p] == 1)
    && (forall p :: DataPage(s, p) ==> s.ref[p] == |Mappers(s, p)|)
  }

  ghost predicate Small(s: Space) {
    forall p :: p in s.ref ==> p < 0x1000_0000_0000
  }

  ghost predicate Inv(s: Space) {
    Tree(s) && Rooted(s) && Owned(s) && Counted(s) && Small(s)
  }

  // ---- Translation ----

  datatype Mapping = Unmapped | Huge(level: nat, pte: nat) | Mapped(pte: nat)

  function Entry(s: Space, t: nat, i: nat): nat {
    if t in s.tables && i < |s.tables[t]| then s.tables[t][i] else 0
  }

  /** The walk, for any value of the tables. */
  function Translate(s: Space, v: Vpn): Mapping {
    var e2 := Entry(s, s.root, v.i2);
    if !Valid(e2) then Unmapped
    else if Leaf(e2) then Huge(2, e2)
    else
      var e1 := Entry(s, Ppn(e2), v.i1);
      if !Valid(e1) then Unmapped
      else if Leaf(e1) then Huge(1, e1)
      else
        var e0 := Entry(s, Ppn(e1), v.i0);
        if Valid(e0) then Mapped(e0) else Unmapped
  }

  /** The valid upper entries on the way are table pointers, as get_pte takes for granted. */
  predicate NoHuge(s: Space, v: Vpn) {
    var e2 := Entry(s, s.root, v.i2);
    Valid(e2) ==> !Leaf(e2) && (var e1 := Entry(s, Ppn(e2), v.i1); Valid(e1) ==> !Leaf(e1))
  }

  /** How many tables are missing on the way to the entry of v. */
  function Missing(s: Space, v: Vpn): nat {
    var e2 := Entry(s, s.root, v.i2);
    if !Valid(e2) then 2 else if !Valid(Entry(s, Ppn(e2), v.i1)) then 1 else 0
  }

  /** The walk gets as far as last-level table t. */
  predicate Reaches(s: Space, v: Vpn, t: nat) {
    var e2 := Entry(s, s.root, v.i2);
    && Valid(e2) && !Leaf(e2)
    && var e1 := Entry(s, Ppn(e2), v.i1);
       Valid(e1) && !Leaf(e1) && Ppn(e1) == t
  }

  /** The walk of a linear address, by the bits of the address: 30 to 38, 21 to 29, 12 to 20. */
  lemma WalkByBits(s: Space, la: nat)
    ensures var e2 := Entry(s, s.root, la / 0x4000_0000 % 512);
            var e1 := Entry(s, Ppn(e2), la / 0x20_0000 % 512);
            var e0 := Entry(s, Ppn(e1), la / 0x1000 % 512);
            Translate(s, VpnOf(la)).Mapped? <==>
              e2 % 2 == 1 && e2 / 2 % 8 == 0 && e1 % 2 == 1 && e1 / 2 % 8 == 0 && e0 % 2 == 1
    ensures Translate(s, VpnOf(la)).Mapped? ==>
      Translate(s, VpnOf(la)).pte
      == Entry(s, Ppn(Entry(s, Ppn(Entry(s, s.root, la / 0x4000_0000 % 512)), la / 0x20_0000 % 512)), la / 0x1000 % 512)
  {
  }

  predicate InRange(v: Vpn) {
    v.i2 < ENTRIES && v.i1 < ENTRIES && v.i0 < ENTRIES
  }

  lemma ReachesLevel(s: Space, v: Vpn, t: nat)
    requires Tree(s) && InRange(v) && Reaches(s, v, t)
    ensures t in s.tables && s.level[t] == 0 && t != s.root && |s.tables[t]| == ENTRIES
    ensures Points(s, s.root, v.i2) && Points(s, Child(s, s.root, v.i2), v.i1)
        && Child(s, Child(s, s.root, v.i2), v.i1) == t
    ensures Translate(s, v) == if Valid(s.tables[t][v.i0]) then Mapped(s.tables[t][v.i0]) else Unmapped
  {
    assert Points(s, s.root, v.i2);
    assert Points(s, Child(s, s.root, v.i2), v.i1);
  }

  /** Different virtual pages end at different entries. */
  lemma ReachesOnce(s: Space, v: Vpn, w: Vpn, t: nat)
    requires Tree(s) && InRange(v) && InRange(w) && Reaches(s, v, t) && Reaches(s, w, t)
    ensures v.i2 == w.i2 && v.i1 == w.i1
  {
    ReachesLevel(s, v, t);
    ReachesLevel(s, w, t);
  }

  // ---- Writing one entry ----

  function WithEntry(s: Space, t: nat, i: nat, pte: nat): Space
    requires t in s.tables && i < |s.tables[t]|
  {
    var entries: seq<nat> := s.tables[t][i := pte];
    s.(tables := s.tables[t := entries])
  }

  lemma WriteTree(s: Space, t: nat, i: nat, pte: nat)
    requires Tree(s) && t in s.tables && i < ENTRIES && s.level[t] == 0
    ensures Tree(WithEntry(s, t, i, pte)) && (Rooted(s) ==> Rooted(WithEntry(s, t, i, pte)))
  {
    var g := WithEntry(s, t, i, pte);
    assert forall u, j :: Points(g, u, j) ==> Points(s, u, j) && Child(g, u, j) == Child(s, u, j);
    forall c | PointedTo(s, c) ensures PointedTo(g, c) {
      var u, j :| Points(s, u, j) && Child(s, u, j) == c;
      assert Points(g, u, j) && Child(g, u, j) == c;
    }
  }

  /** A write to the entry that v ends at changes the translation of v, and of nothing else. */
  lemma WriteTranslates(s: Space, v: Vpn, t: nat, pte: nat, w: Vpn)
    requires Tree(s) && InRange(v) && InRange(w) && Reaches(s, v, t) && t in s.tables && |s.tables[t]| == ENTRIES
    ensures Translate(WithEntry(s, t, v.i0, pte), w)
            == if w == v then (if Valid(pte) then Mapped(pte) else Unmapped) else Translate(s, w)
  {
    ReachesLevel(s, v, t);
    assert Entry(WithEntry(s, t, v.i0, pte), s.root, w.i2) == Entry(s, s.root, w.i2);
    if Points(s, s.root, w.i2) {
      var u := Child(s, s.root, w.i2);
      assert u != t;
      if Points(s, u, w.i1) && Child(s, u, w.i1) == t {
        ReachesOnce(s, v, w, t);
      }
    }
  }

  lemma WriteMappers(s: Space, t: nat, i: nat, pte: nat, p: nat)
    requires t in s.tables && t in s.level && s.level[t] == 0 && i < |s.tables[t]|
    ensures Mappers(WithEntry(s, t, i, pte), p)
            == Mappers(s, p) - {(t, i)} + (if MapsTo(pte, p) then {(t, i)} else {})
    ensures (t, i) in Mappers(s, p) <==> MapsTo(s.tables[t][i], p)
  {
  }

  // ---- The kernel's operations, as functions ----

  /** page_ref_dec, and free_page when the count has reached zero. */
  function DropRef(s: Space, p: nat): Space
    requires p in s.ref
  {
    var g := s.(ref := s.ref[p := s.ref[p] - 1]);
    if g.ref[p] == 0 then g.(free := g.free + {p}) else g
  }

  /** page_remove_pte. */
  function RemoveEntry(s: Space, t: nat, i: nat): Space
    requires t in s.tables && i < |s.tables[t]|
    requires Valid(s.tables[t][i]) ==> Ppn(s.tables[t][i]) in s.ref
  {
    if Valid(s.tables[t][i]) then WithEntry(DropRef(s, Ppn(s.tables[t][i])), t, i, 0) else s
  }

  /** The part of page_insert behind get_pte. */
  function InsertEntry(s: Space, t: nat, i: nat, page: nat, perm: nat): Space
    requires t in s.tables && i < |s.tables[t]| && page in s.ref
    requires Valid(s.tables[t][i]) ==> Ppn(s.tables[t][i]) in s.ref
  {
    var one := s.(ref := s.ref[page := s.ref[page] + 1]);
    var two := if !Valid(s.tables[t][i]) then one
               else if Ppn(s.tables[t][i]) == page then one.(ref := one.ref[page := one.ref[page] - 1])
               else RemoveEntry(one, t, i);
    WithEntry(two, t, i, PteCreate(page, perm))
  }

  ghost predicate LastLevel(s: Space, t: nat, i: nat) {
    t in s.tables && t in s.level && s.level[t] == 0 && i < ENTRIES && |s.tables[t]| == ENTRIES
  }

  function Unit(b: bool): int {
    if b then 1 else 0
  }

  lemma MapperCount(s: Space, t: nat, i: nat, pte: nat, p: nat)
    requires t in s.tables && t in s.level && s.level[t] == 0 && i < |s.tables[t]|
    ensures |Mappers(WithEntry(s, t, i, pte), p)|
            == |Mappers(s, p)| - Unit(MapsTo(s.tables[t][i], p)) + Unit(MapsTo(pte, p))
    ensures MapsTo(s.tables[t][i], p) ==> |Mappers(s, p)| >= 1 && (|Mappers(s, p)| == 1 <==> Mappers(s, p) == {(t, i)})
  {
    WriteMappers(s, t, i, pte, p);
    hide Mappers;
    var ms, x := Mappers(s, p), (t, i);
    assert ms - {x} + {x} == ms || x !in ms;
  }

  lemma SameMappers(s: Space, g: Space, p: nat)
    requires s.tables == g.tables && s.level == g.level
    ensures Mappers(s, p) == Mappers(g, p)
  {
  }

  /** The page that loses its last mapping when entry (t, i) is overwritten. */
  function Orphan(s: Space, t: nat, i: nat, pte: nat): set<nat>
    requires t in s.tables && i < |s.tables[t]|
  {
    var q := Ppn(s.tables[t][i]);
    if Valid(s.tables[t][i]) && !MapsTo(pte, q) && q in s.ref && s.ref[q] == 1 then {q} else {}
  }

  /** g is s with entry (t, i) overwritten, the counts adjusted and an orphaned page freed. */
  ghost predicate Rewritten(s: Space, t: nat, i: nat, pte: nat, g: Space)
    requires t in s.tables && i < |s.tables[t]|
  {
    && g.tables == WithEntry(s, t, i, pte).tables && g.root == s.root && g.level == s.level
    && g.ref.Keys == s.ref.Keys
    && (forall p :: p in s.ref ==> g.ref[p] == s.ref[p] - Unit(MapsTo(s.tables[t][i], p)) + Unit(MapsTo(pte, p)))
    && g.free == s.free + Orphan(s, t, i, pte)
  }

  lemma RewriteCounts(s: Space, t: nat, i: nat, pte: nat, g: Space, p: nat)
    requires Inv(s) && LastLevel(s, t, i) && (Valid(pte) ==> DataPage(s, Ppn(pte))) && Rewritten(s, t, i, pte, g)
    requires p in s.ref
    ensures DataPage(g, p) ==> DataPage(s, p) && g.ref[p] == |Mappers(g, p)|
    ensures p in g.free ==> g.ref[p] == 0 && |Mappers(g, p)| == 0
    ensures p in g.tables && p != g.root ==> g.ref[p] == 1
  {
    MapperCount(s, t, i, pte, p);
    SameMappers(WithEntry(s, t, i, pte), g, p);
    assert p in s.free ==> Mappers(s, p) == {};
    hide Mappers, Tree, Rooted;
  }

  /** Such a step keeps every count right and frees nothing that is still mapped. */
  lemma RewriteKeepsInv(s: Space, t: nat, i: nat, pte: nat, g: Space)
    requires Inv(s) && LastLevel(s, t, i) && (Valid(pte) ==> DataPage(s, Ppn(pte))) && Rewritten(s, t, i, pte, g)
    ensures Inv(g)
  {
    hide Mappers, Valid, Leaf, Ppn, WithEntry, Rewritten, LastLevel, Tree, Rooted;
    RewriteTree(s, t, i, pte, g);
    forall p | p in s.ref
      ensures DataPage(g, p) ==> g.ref[p] == |Mappers(g, p)|
      ensures p in g.free ==> g.ref[p] == 0
      ensures p in g.tables && p != g.root ==> g.ref[p] == 1 {
      RewriteCounts(s, t, i, pte, g, p);
    }
    forall u, j | u in g.tables && u in g.level && g.level[u] == 0 && 0 <= j < |g.tables[u]| && Valid(g.tables[u][j])
      ensures DataPage(g, Ppn(g.tables[u][j])) {
      RewriteOwned(s, t, i, pte, g, u, j);
    }
  }

  lemma RewriteTree(s: Space, t: nat, i: nat, pte: nat, g: Space)
    requires Inv(s) && LastLevel(s, t, i) && (Valid(pte) ==> DataPage(s, Ppn(pte))) && Rewritten(s, t, i, pte, g)
    ensures Tree(g) && Rooted(g) && g.ref.Keys == s.ref.Keys && g.tables.Keys == s.tables.Keys
    ensures g.free <= g.ref.Keys && g.free !! g.tables.Keys
  {
    hide Mappers, Tree, Rooted, Counted;
    WriteTree(s, t, i, pte);
    SameTree(WithEntry(s, t, i, pte), g);
  }

  lemma SameTree(s: Space, g: Space)
    requires Tree(s) && s.tables == g.tables && s.level == g.level && s.root == g.root
    ensures Tree(g) && (Rooted(s) ==> Rooted(g))
  {
    assert forall t, i :: Points(g, t, i) ==> Points(s, t, i) && Child(g, t, i) == Child(s, t, i);
    forall c | PointedTo(s, c) ensures PointedTo(g, c) {
      var u, j :| Points(s, u, j) && Child(s, u, j) == c;
      assert Points(g, u, j) && Child(g, u, j) == c;
    }
  }

  lemma RewriteOwned(s: Space, t: nat, i: nat, pte: nat, g: Space, u: nat, j: nat)
    requires Inv(s) && LastLevel(s, t, i) && (Valid(pte) ==> DataPage(s, Ppn(pte))) && Rewritten(s, t, i, pte, g)
    requires u in g.tables && u in g.level && g.level[u] == 0 && 0 <= j < |g.tables[u]| && Valid(g.tables[u][j])
    ensures DataPage(g, Ppn(g.tables[u][j]))
  {
    var p := Ppn(g.tables[u][j]);
    assert (u, j) in Mappers(g, p);
    if (u, j) != (t, i) {
      assert g.tables[u][j] == s.tables[u][j];
    }
    RewriteCounts(s, t, i, pte, g, p);
  }

  /**
   page_remove_pte keeps the counts right, and frees the page exactly when the entry was
   the last one to map it.
   */
  lemma RemoveIsRewrite(s: Space, t: nat, i: nat)
    requires Inv(s) && LastLevel(s, t, i)
    ensures Valid(s.tables[t][i]) ==> DataPage(s, Ppn(s.tables[t][i]))
    ensures Valid(s.tables[t][i]) ==> Rewritten(s, t, i, 0, RemoveEntry(s, t, i))
    ensures !Valid(s.tables[t][i]) ==> RemoveEntry(s, t, i) == s
  {
    hide Mappers, Tree, Rooted, Ppn, Small;
  }

  lemma InsertIsRewrite(s: Space, t: nat, i: nat, page: nat, perm: nat)
    requires Inv(s) && LastLevel(s, t, i) && DataPage(s, page) && perm < 1024
    ensures Valid(s.tables[t][i]) ==> DataPage(s, Ppn(s.tables[t][i]))
    ensures MapsTo(PteCreate(page, perm), page)
    ensures Rewritten(s, t, i, PteCreate(page, perm), InsertEntry(s, t, i, page, perm))
  {
    EntryRoundTrip(page, perm);
    var pte := PteCreate(page, perm);
    hide Mappers, Tree, Rooted, PteCreate, Ppn, Valid, Counted, Small;
    if !Valid(s.tables[t][i]) {
      InsertIntoEmpty(s, t, i, page, pte);
    } else if Ppn(s.tables[t][i]) == page {
      InsertSame(s, t, i, page, pte);
    } else {
      InsertOver(s, t, i, page, pte);
    }
  }

  lemma InsertIntoEmpty(s: Space, t: nat, i: nat, page: nat, pte: nat)
    requires LastLevel(s, t, i) && page in s.ref && !Valid(s.tables[t][i]) && MapsTo(pte, page)
    ensures Rewritten(s, t, i, pte, WithEntry(s.(ref := s.ref[page := s.ref[page] + 1]), t, i, pte))
  {
  }

  lemma InsertSame(s: Space, t: nat, i: nat, page: nat, pte: nat)
    requires LastLevel(s, t, i) && page in s.ref && MapsTo(s.tables[t][i], page) && MapsTo(pte, page)
    ensures var one := s.(ref := s.ref[page := s.ref[page] + 1]);
            Rewritten(s, t, i, pte, WithEntry(one.(ref := one.ref[page := one.ref[page] - 1]), t, i, pte))
  {
    assert s.ref[page := s.ref[page] + 1][page := s.ref[page]] == s.ref;
  }

  lemma InsertOver(s: Space, t: nat, i: nat, page: nat, pte: nat)
    requires LastLevel(s, t, i) && page in s.ref && Valid(s.tables[t][i]) && MapsTo(pte, page)
    requires Ppn(s.tables[t][i]) in s.ref && Ppn(s.tables[t][i]) != page
    ensures Rewritten(s, t, i, pte, WithEntry(RemoveEntry(s.(ref := s.ref[page := s.ref[page] + 1]), t, i), t, i, pte))
  {
    hide Ppn, Valid;
    var one := s.(ref := s.ref[page := s.ref[page] + 1]);
    var entries: seq<nat> := s.tables[t][i := 0];
    assert entries[i := pte] == s.tables[t][i := pte];
    assert s.tables[t := entries][t := entries[i := pte]] == s.tables[t := entries[i := pte]];
  }

  /** The orphan in terms of mappings. */
  lemma OrphanIsUnmapped(s: Space, t: nat, i: nat, pte: nat, p: nat)
    requires Inv(s) && LastLevel(s, t, i)
    ensures p in Orphan(s, t, i, pte) <==> Mappers(s, p) == {(t, i)} && !MapsTo(pte, p)
  {
    MapperCount(s, t, i, pte, p);
  }

  // ---- Adding a table ----

  function Zeros(): seq<nat> {
    seq(ENTRIES, i => 0)
  }

  /** What get_pte does with a fresh page q at an invalid upper entry (t, i). */
  function WithTable(s: Space, t: nat, i: nat, q: nat): Space
    requires t in s.tables && i < |s.tables[t]| && t in s.level && s.level[t] > 0 && q != t
  {
    var entries: seq<nat> := s.tables[t][i := PteCreate(q, PTE_U + 1)];
    Space(s.root, s.tables[t := entries][q := Zeros()], s.level[q := s.level[t] - 1], s.ref[q := 1], s.free - {q})
  }

  ghost predicate Fresh(s: Space, t: nat, i: nat, q: nat) {
    && t in s.tables && t in s.level && s.level[t] > 0 && i < ENTRIES && |s.tables[t]| == ENTRIES
    && !Valid(s.tables[t][i]) && q in s.free && q in s.ref && q != t && q !in s.tables
  }

  lemma FreshPointer(q: nat)
    requires q < 0x1000_0000_0000
    ensures var pte := PteCreate(q, PTE_U + 1); Valid(pte) && !Leaf(pte) && Ppn(pte) == q
  {
    EntryRoundTrip(q, PTE_U + 1);
  }

  lemma TablePoints(s: Space, t: nat, i: nat, q: nat, u: nat, j: nat)
    requires Tree(s) && Fresh(s, t, i, q) && Small(s)
    ensures var g := WithTable(s, t, i, q);
            && (Points(g, u, j) <==> Points(s, u, j) || (u == t && j == i))
            && (Points(s, u, j) ==> Child(g, u, j) == Child(s, u, j) && Child(s, u, j) != q)
            && (u == t && j == i ==> Child(g, u, j) == q)
  {
    FreshPointer(q);
    hide PteCreate, Ppn, Valid, Leaf;
  }

  lemma TableTree(s: Space, t: nat, i: nat, q: nat)
    requires Tree(s) && Fresh(s, t, i, q) && Small(s)
    ensures Tree(WithTable(s, t, i, q))
  {
    var g := WithTable(s, t, i, q);
    forall u, j | Points(g, u, j) ensures Child(g, u, j) in g.level && g.level[Child(g, u, j)] == g.level[u] - 1 {
      TablePoints(s, t, i, q, u, j);
    }
    forall u, j, w, k | Points(g, u, j) && Points(g, w, k) && Child(g, u, j) == Child(g, w, k)
      ensures u == w && j == k {
      TablePoints(s, t, i, q, u, j);
      TablePoints(s, t, i, q, w, k);
    }
  }

  lemma TableRooted(s: Space, t: nat, i: nat, q: nat)
    requires Tree(s) && Rooted(s) && Fresh(s, t, i, q) && Small(s)
    ensures Rooted(WithTable(s, t, i, q))
  {
    hide Tree, PteCreate, Ppn, Valid;
    var g := WithTable(s, t, i, q);
    TablePoints(s, t, i, q, t, i);
    forall c | c in g.tables && c != g.root && c != q ensures PointedTo(g, c) {
      assert PointedTo(s, c);
      var u, j :| Points(s, u, j) && Child(s, u, j) == c;
      TablePoints(s, t, i, q, u, j);
    }
  }

  lemma TableMappers(s: Space, t: nat, i: nat, q: nat, p: nat)
    requires Fresh(s, t, i, q)
    ensures Mappers(WithTable(s, t, i, q), p) == Mappers(s, p)
  {
  }

  /** Installing an empty table keeps the invariant. */
  lemma TableKeepsInv(s: Space, t: nat, i: nat, q: nat)
    requires Inv(s) && Fresh(s, t, i, q)
    ensures Inv(WithTable(s, t, i, q))
  {
    hide Mappers, Tree, Rooted, PteCreate, Ppn, Valid, Owned, Counted;
    TableTree(s, t, i, q);
    TableRooted(s, t, i, q);
    TableOwned(s, t, i, q);
    TableCounted(s, t, i, q);
  }

  lemma TableOwned(s: Space, t: nat, i: nat, q: nat)
    requires Owned(s) && Fresh(s, t, i, q)
    ensures Owned(WithTable(s, t, i, q))
  {
    hide Ppn, PteCreate;
    var g := WithTable(s, t, i, q);
    forall u, j | u in g.tables && u in g.level && g.level[u] == 0 && 0 <= j < |g.tables[u]| && Valid(g.tables[u][j])
      ensures DataPage(g, Ppn(g.tables[u][j])) {
      assert u in s.tables && s.level[u] == 0 && (u != t ==> g.tables[u] == s.tables[u]);
    }
  }

  lemma TableCounted(s: Space, t: nat, i: nat, q: nat)
    requires Counted(s) && Fresh(s, t, i, q)
    ensures Counted(WithTable(s, t, i, q))
  {
    var g := WithTable(s, t, i, q);
    forall p { TableMappers(s, t, i, q, p); }
    hide Mappers, PteCreate, Valid;
  }

  /** ... and changes no translation. */
  lemma TableTranslates(s: Space, t: nat, i: nat, q: nat, w: Vpn)
    requires Inv(s) && Fresh(s, t, i, q) && InRange(w)
    ensures Translate(WithTable(s, t, i, q), w) == Translate(s, w)
  {
    hide Mappers, Rooted, Owned, Counted;
    var g := WithTable(s, t, i, q);
    FreshPointer(q);
    TablePoints(s, t, i, q, s.root, w.i2);
    if Points(s, s.root, w.i2) {
      var u := Child(s, s.root, w.i2);
      TablePoints(s, t, i, q, u, w.i1);
      assert Points(s, u, w.i1) ==> Child(s, u, w.i1) != t;
    }
    hide PteCreate, Ppn, Leaf;
  }
}
