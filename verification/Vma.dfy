/**
 The list of virtual memory areas of a process, with its one-entry cache (kern/mm/vmm.c).
 */
module Vma {
  import opened Wrappers

  /** An area [start, end), named by the address of its record. */
  datatype Area = Area(id: nat, start: nat, end: nat, flags: nat)

  predicate Holds(a: Area, addr: nat) {
    a.start <= addr < a.end
  }

  /** Two areas have no address in common. */
  ghost predicate Disjoint(a: Area, b: Area) {
    forall addr: nat :: !(Holds(a, addr) && Holds(b, addr))
  }

  ghost predicate Sorted(list: seq<Area>) {
    && (forall i :: 0 <= i < |list| ==> list[i].start < list[i].end)
    && (forall i, j :: 0 <= i < j < |list| ==> list[i].end <= list[j].start)
  }

  /** The uncached search: the first listed area that holds the address. */
  function Search(list: seq<Area>, addr: nat): Option<Area> {
    if list == [] then None
    else if Holds(list[0], addr) then Some(list[0])
    else Search(list[1..], addr)
  }

  /** On a sorted list, the search finds the one area that holds the address, wherever it stands. */
  lemma {:induction false} SearchFinds(list: seq<Area>, addr: nat)
    requires Sorted(list)
    ensures forall a :: a in list && Holds(a, addr) <==> Search(list, addr) == Some(a)
  {
    if list != [] {
      assert list == [list[0]] + list[1..];
      SearchFinds(list[1..], addr);
    }
  }

  lemma {:induction false} SearchBehind(list: seq<Area>, addr: nat, i: nat)
    requires i <= |list| && forall j :: 0 <= j < i ==> !Holds(list[j], addr)
    ensures Search(list, addr) == Search(list[i..], addr)
    decreases i
  {
    if i > 0 {
      SearchBehind(list[1..], addr, i - 1);
      assert list[1..][i - 1..] == list[i..];
    } else {
      assert list[0..] == list;
    }
  }

  lemma DisjointIntervals(a: Area, b: Area)
    requires a.start < a.end && b.start < b.end
    ensures Disjoint(a, b) <==> a.end <= b.start || b.end <= a.start
  {
    if a.start <= b.start < a.end {
      assert Holds(a, b.start) && Holds(b, b.start);
    } else if b.start <= a.start < b.end {
      assert Holds(a, a.start) && Holds(b, a.start);
    }
  }

  function Placed(list: seq<Area>, k: nat, a: Area): seq<Area>
    requires k <= |list|
  {
    list[..k] + [a] + list[k..]
  }

  /** The checks against the two neighbours pass exactly when the area is disjoint from every listed one. */
  lemma NeighboursSuffice(list: seq<Area>, k: nat, a: Area)
    requires Sorted(list) && a.start < a.end && k <= |list|
    requires forall i :: 0 <= i < k ==> list[i].start <= a.start
    requires k < |list| ==> list[k].start > a.start
    ensures (k > 0 ==> list[k - 1].end <= a.start) && (k < |list| ==> a.end <= list[k].start)
            <==> forall i :: 0 <= i < |list| ==> Disjoint(list[i], a)
    ensures (k > 0 ==> list[k - 1].end <= a.start) && (k < |list| ==> a.end <= list[k].start)
        ==> Sorted(Placed(list, k, a))
  {
    forall i | 0 <= i < |list| ensures Disjoint(list[i], a) <==> list[i].end <= a.start || a.end <= list[i].start {
      DisjointIntervals(list[i], a);
    }
  }

  class Mm {
    var mmapList: seq<Area>
    var mmapCache: Option<Area>
    var mapCount: int

    ghost predicate Valid()
      reads this
    {
      Sorted(mmapList) && mapCount == |mmapList| && (mmapCache.Some? ==> mmapCache.value in mmapList)
    }

    /** mm_create. */
    constructor ()
      ensures Valid() && mmapList == []
    {
      mmapList, mmapCache, mapCount := [], None, 0;
    }

    /** find_vma with a descriptor: cached or not, the answer is that of the search of the whole list. */
    method Find(addr: nat) returns (vma: Option<Area>)
      requires Valid()
      modifies this`mmapCache
      ensures Valid() && vma == Search(mmapList, addr)
      ensures mmapCache == if vma.Some? then vma else old(mmapCache)
    {
      SearchFinds(mmapList, addr);
      vma := mmapCache;
      if !(vma.Some? && vma.value.start <= addr && vma.value.end > addr) {
        var found := false;
        var i := 0;
        while i < |mmapList|
          invariant 0 <= i <= |mmapList| && !found
          invariant forall j :: 0 <= j < i ==> !Holds(mmapList[j], addr)
        {
          vma := Some(mmapList[i]);
          if vma.value.start <= addr < vma.value.end {
            found := true;
            break;
          }
          i := i + 1;
        }
        if !found {
          SearchBehind(mmapList, addr, |mmapList|);
          vma := None;
        }
      }
      if vma.Some? {
        mmapCache := vma;
      }
    }

    /** insert_vma_struct; `ok` is false where an assertion stops the kernel, before anything is written. */
    method InsertVma(vma: Area) returns (ok: bool, ghost k: nat)
      requires Valid()
      modifies this`mmapList, this`mapCount
      ensures Valid()
      ensures ok <==> vma.start < vma.end && forall i :: 0 <= i < |old(mmapList)| ==> Disjoint(old(mmapList)[i], vma)
      ensures ok ==> k <= |old(mmapList)| && mmapList == Placed(old(mmapList), k, vma)
      ensures !ok ==> mmapList == old(mmapList) && mapCount == old(mapCount)
    {
      k := 0;
      if vma.start >= vma.end {
        return false, k;
      }
      var prev := 0;  // the number of areas up to and including le_prev
      while prev < |mmapList|
        invariant 0 <= prev <= |mmapList| && forall i :: 0 <= i < prev ==> mmapList[i].start <= vma.start
      {
        if mmapList[prev].start > vma.start {
          break;
        }
        prev := prev + 1;
      }
      k := prev;
      NeighboursSuffice(mmapList, k, vma);
      if prev != 0 && !OverlapCheck(mmapList[prev - 1], vma) {
        return false, k;
      }
      if prev != |mmapList| && !OverlapCheck(vma, mmapList[prev]) {
        return false, k;
      }
      mmapList := mmapList[..prev] + [vma] + mmapList[prev..];
      mapCount := mapCount + 1;
      return true, k;
    }

    /** mm_destroy: every area is given back once, in list order. */
    method Destroy() returns (freed: seq<Area>)
      requires Valid()
      modifies this`mmapList
      ensures mmapList == [] && freed == old(mmapList)
    {
      freed := [];
      while mmapList != []
        invariant freed + mmapList == old(mmapList)
        decreases |mmapList|
      {
        var vma := mmapList[0];
        mmapList := mmapList[1..];
        freed := freed + [vma];
      }
    }
  }

  /** find_vma: nothing without a descriptor, else what the search of the whole list finds. */
  method FindVma(mm: Mm?, addr: nat) returns (vma: Option<Area>)
    requires mm != null ==> mm.Valid()
    modifies if mm == null then {} else {mm}`mmapCache
    ensures mm == null ==> vma == None
    ensures mm != null ==> mm.Valid() && vma == Search(mm.mmapList, addr)
    ensures mm != null ==> mm.mmapCache == if vma.Some? then vma else old(mm.mmapCache)
  {
    vma := None;
    if mm != null {
      vma := mm.Find(addr);
    }
  }

  /** The three assertions of check_vma_overlap. */
  predicate OverlapCheck(prev: Area, next: Area) {
    prev.start < prev.end && prev.end <= next.start && next.start < next.end
  }
}
