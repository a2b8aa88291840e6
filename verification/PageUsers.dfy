/**
 Reference counts against translations (kern/mm/pmm.c): what a count of last-level entries
 says about the virtual pages that use a physical page.
 */
module PageUsers {
  import opened PageEntries
  import opened PageTableSpec
  import opened PageTable

  /** Virtual page v is mapped to physical page p. */
  predicate Uses(s: Space, v: Vpn, p: nat) {
    Translate(s, v).Mapped? && Ppn(Translate(s, v).pte) == p
  }

  ghost function Users(s: Space, p: nat): set<Vpn> {
    set i2, i1, i0 | 0 <= i2 < ENTRIES && 0 <= i1 < ENTRIES && 0 <= i0 < ENTRIES && Uses(s, Vpn(i2, i1, i0), p)
      :: Vpn(i2, i1, i0)
  }

  /** The entry at which the walk of v ends. */
  function EndEntry(s: Space, v: Vpn): (nat, nat) {
    (Ppn(Entry(s, Ppn(Entry(s, s.root, v.i2)), v.i1)), v.i0)
  }

  /** Every last-level table is reached by some virtual page. */
  lemma ReachedFrom(s: Space, t: nat, i0: nat) returns (v: Vpn)
    requires Tree(s) && Rooted(s) && t in s.tables && s.level[t] == 0 && i0 < ENTRIES
    ensures InRange(v) && v.i0 == i0 && Reaches(s, v, t)
  {
    assert PointedTo(s, t);
    var u, i1 :| Points(s, u, i1) && Child(s, u, i1) == t;
    assert u != s.root && PointedTo(s, u);
    var w, i2 :| Points(s, w, i2) && Child(s, w, i2) == u;
    assert w != s.root ==> PointedTo(s, w);
    v := Vpn(i2, i1, i0);
  }

  lemma UserEnds(s: Space, v: Vpn, p: nat)
    requires Tree(s) && InRange(v) && Uses(s, v, p)
    ensures EndEntry(s, v) in Mappers(s, p) && Reaches(s, v, EndEntry(s, v).0)
  {
    ReachesLevel(s, v, EndEntry(s, v).0);
  }

  lemma MapperUsed(s: Space, e: (nat, nat), p: nat) returns (v: Vpn)
    requires Tree(s) && Rooted(s) && e in Mappers(s, p)
    ensures InRange(v) && Uses(s, v, p) && EndEntry(s, v) == e
  {
    v := ReachedFrom(s, e.0, e.1);
    ReachesLevel(s, v, e.0);
  }

  lemma EndsApart(s: Space, v: Vpn, w: Vpn, p: nat)
    requires Tree(s) && InRange(v) && InRange(w) && Uses(s, v, p) && Uses(s, w, p) && EndEntry(s, v) == EndEntry(s, w)
    ensures v == w
  {
    UserEnds(s, v, p);
    UserEnds(s, w, p);
    ReachesOnce(s, v, w, EndEntry(s, v).0);
  }

  lemma {:induction false} Paired(s: Space, users: set<Vpn>, entries: set<(nat, nat)>)
    requires forall v :: v in users ==> EndEntry(s, v) in entries
    requires forall v, w :: v in users && w in users && EndEntry(s, v) == EndEntry(s, w) ==> v == w
    requires forall e :: e in entries ==> exists v :: v in users && EndEntry(s, v) == e
    ensures |users| == |entries|
    decreases users
  {
    if users == {} {
      assert entries == {};
    } else {
      var v :| v in users;
      var rest := entries - {EndEntry(s, v)};
      forall e | e in rest ensures exists w :: w in users - {v} && EndEntry(s, w) == e {
        var w :| w in users && EndEntry(s, w) == e;
        assert w in users - {v};
      }
      Paired(s, users - {v}, rest);
    }
  }

  /** As many virtual pages use a page as last-level entries map it. */
  lemma UsersAreMappers(s: Space, p: nat)
    requires Inv(s)
    ensures |Users(s, p)| == |Mappers(s, p)|
  {
    hide Tree, Rooted, Owned, Counted, Small, Mappers, EndEntry, Uses;
    var users, entries := Users(s, p), Mappers(s, p);
    forall v | v in users ensures EndEntry(s, v) in entries {
      UserEnds(s, v, p);
    }
    forall v, w | v in users && w in users && EndEntry(s, v) == EndEntry(s, w) ensures v == w {
      EndsApart(s, v, w, p);
    }
    forall e | e in entries ensures exists v :: v in users && EndEntry(s, v) == e {
      var v := MapperUsed(s, e, p);
      assert v == Vpn(v.i2, v.i1, v.i0);
    }
    Paired(s, users, entries);
  }

  /** The reference count of a data page is the number of virtual pages mapped to it. */
  lemma RefIsUsers(s: Space, p: nat)
    requires Inv(s) && DataPage(s, p)
    ensures s.ref[p] == |Users(s, p)|
  {
    UsersAreMappers(s, p);
  }

  /** Nothing is mapped to a free page or to a table. */
  lemma OnlyDataUsed(s: Space, p: nat)
    requires Inv(s) && !DataPage(s, p)
    ensures Users(s, p) == {}
  {
    hide Rooted, Counted, Small, Uses;
    forall v | v in Users(s, p) ensures false {
      UserEnds(s, v, p);
    }
  }

  /** A page loses its last mapping with v exactly when v is its one user. */
  lemma LastIsOnlyUser(s: Space, v: Vpn, p: nat)
    requires Inv(s) && InRange(v)
    ensures LosesLast(s, v, p) <==> Users(s, p) == {v}
  {
    UsersAreMappers(s, p);
    var users := Users(s, p);
    assert v == Vpn(v.i2, v.i1, v.i0);
    assert v in users <==> Uses(s, v, p);
    if v in users && |users| == 1 {
      assert |users - {v}| == 0;
      assert users == {v};
    }
  }
}
