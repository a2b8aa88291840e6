/**
 PIDs, the PID hash and round-robin choice, over values (kern/process/proc.c,
 kern/schedule/sched.c, libs/hash.c).
 */
module ProcSpec {

  const MAX_PROCESS := 4096
  const MAX_PID := 8192
  const HASH_LIST_SIZE := 1024

  // ---- PIDs ----

  predicate IsPid(x: int) {
    1 <= x < MAX_PID
  }

  /** The PID after x, wrapping around to 1. */
  function NextPid(x: int): int {
    if x + 1 >= MAX_PID then 1 else x + 1
  }

  /** How many steps of NextPid lead from PID s to PID x. */
  function PidSteps(s: int, x: int): int {
    if x >= s then x - s else x - s + MAX_PID - 1
  }

  /** No PID in use lies strictly between last and safe, and safe is itself in use or the end of the range. */
  ghost predicate WindowOk(pids: seq<int>, last: int, safe: int) {
    && 1 <= last <= MAX_PID && safe <= MAX_PID
    && (safe == MAX_PID || safe in pids)
    && forall i :: 0 <= i < |pids| ==> !(last < pids[i] < safe)
  }

  /** Every PID met before x, going round from s, is in use. */
  ghost predicate UsedUpTo(pids: seq<int>, s: int, x: int) {
    forall y :: IsPid(y) && PidSteps(s, y) < PidSteps(s, x) ==> y in pids
  }

  /** x is the first unused PID after `last`, in cyclic order. */
  ghost predicate NextUnused(pids: seq<int>, last: int, x: int) {
    IsPid(x) && x !in pids && UsedUpTo(pids, NextPid(last), x)
  }

  lemma NextUnusedUnique(pids: seq<int>, last: int, x: int, y: int)
    requires 1 <= last <= MAX_PID && NextUnused(pids, last, x) && NextUnused(pids, last, y)
    ensures x == y
  {
    assert PidSteps(NextPid(last), x) == PidSteps(NextPid(last), y);
  }

  /**
   In plain words: the least unused PID above `last`, or if there is none the least unused PID;
   PIDs run from 1 to 8191.
   */
  lemma NextUnusedByOrder(pids: seq<int>, last: int, x: int)
    requires 1 <= last <= MAX_PID && NextUnused(pids, last, x)
    ensures 1 <= x < 8192 && x !in pids
    ensures x > last ==> forall y :: last < y < x ==> y in pids
    ensures x <= last ==> (forall y :: last < y < 8192 ==> y in pids) && (forall y :: 1 <= y < x ==> y in pids)
  {
    forall y | 1 <= y < 8192 && PidSteps(NextPid(last), y) < PidSteps(NextPid(last), x) ensures y in pids {
      assert IsPid(y);
    }
  }

  /** With fewer than MAX_PID - 1 PIDs in use, some PID is unused. */
  lemma SomePidUnused(pids: seq<int>)
    requires |pids| < MAX_PID - 1
    ensures exists x :: IsPid(x) && x !in pids
  {
    if forall x :: IsPid(x) ==> x in pids {
      var all := set x | 1 <= x < MAX_PID && IsPid(x);
      PidCount(MAX_PID);
      var used := set x | x in pids;
      SetOfSeq(pids);
      SubsetCount(all, used);
    }
  }

  lemma {:induction false} PidCount(n: nat)
    requires 1 <= n <= MAX_PID
    ensures |set x | 1 <= x < n && IsPid(x)| == n - 1
    decreases n
  {
    var s := set x | 1 <= x < n && IsPid(x);
    if n == 1 {
      assert s == {};
    } else {
      PidCount(n - 1);
      assert s == (set x | 1 <= x < n - 1 && IsPid(x)) + {n - 1};
    }
  }

  lemma {:induction false} SetOfSeq(s: seq<int>)
    ensures |set x | x in s| <= |s|
  {
    if s == [] {
      assert (set x | x in s) == {};
    } else {
      var rest := s[1..];
      SetOfSeq(rest);
      assert s == [s[0]] + rest;
      assert (set x | x in s) == (set x | x in rest) + {s[0]};
    }
  }

  lemma SubsetCount(a: set<int>, b: set<int>)
    requires a <= b
    ensures |a| <= |b|
  {
    assert b == a + (b - a);
  }

  // ---- The hash ----

  /** hash32(pid, 10): the top ten bits of the 32-bit product with the golden-ratio prime. */
  function PidHash(pid: int): (h: nat)
    ensures h < HASH_LIST_SIZE
  {
    pid * 0x9e37_0001 % 0x1_0000_0000 / 0x40_0000
  }

  /** The bucket is the bits 22 to 31 of the product. */
  lemma HashBits(pid: nat) returns (high: nat, low: nat)
    ensures low < 0x40_0000 && pid * 0x9e37_0001 == high * 0x1_0000_0000 + PidHash(pid) * 0x40_0000 + low
  {
    var product := pid * 0x9e37_0001;
    var word := product % 0x1_0000_0000;
    high, low := product / 0x1_0000_0000, word % 0x40_0000;
  }

  // ---- Round robin ----

  /**
   Positions on the ring of listed processes: 0 to n - 1, and -1 for the list head, which
   stands for the idle process.
   */
  predicate IsPosition(n: nat, c: int) {
    -1 <= c < n
  }

  /** How many listed processes lie from behind position c up to position q. */
  function RingSteps(n: nat, c: int, q: int): int {
    if q > c then q - c else q - c + n
  }

  /** The first runnable process behind c in cyclic order, c itself coming last; idle if there is none. */
  ghost predicate IsPick(runnable: seq<bool>, c: int, p: int) {
    var n := |runnable|;
    && IsPosition(n, c) && IsPosition(n, p)
    && (p == -1 ==> forall q :: 0 <= q < n ==> !runnable[q])
    && (p >= 0 ==> runnable[p] && forall q :: 0 <= q < n && RingSteps(n, c, q) < RingSteps(n, c, p) ==> !runnable[q])
  }

  /**
   In plain words: the first runnable process behind c in the list, or if there is none the
   first runnable one of the list, or if there is none idle.
   */
  lemma PickByPosition(runnable: seq<bool>, c: int, p: int)
    requires IsPick(runnable, c, p)
    ensures -1 <= p < |runnable| && (p >= 0 ==> runnable[p])
    ensures p == -1 ==> forall q :: 0 <= q < |runnable| ==> !runnable[q]
    ensures p > c ==> forall q :: c < q < p ==> !runnable[q]
    ensures 0 <= p <= c ==> (forall q :: c < q < |runnable| ==> !runnable[q]) && forall q :: 0 <= q < p ==> !runnable[q]
  {
  }

  lemma PickUnique(runnable: seq<bool>, c: int, p: int, q: int)
    requires IsPick(runnable, c, p) && IsPick(runnable, c, q)
    ensures p == q
  {
  }

  /** One call brings the turn strictly closer to a runnable process, or gives it the turn. */
  lemma PickApproaches(runnable: seq<bool>, c: int, p: int, q: int)
    requires IsPick(runnable, c, p) && 0 <= q < |runnable| && runnable[q]
    ensures 0 <= p && 1 <= RingSteps(|runnable|, c, p) <= |runnable|
    ensures p == q || RingSteps(|runnable|, p, q) <= RingSteps(|runnable|, c, q) - 1
  {
  }

  /** turns[k + 1] is what schedule chooses when turns[k] is running, whatever the states are by then. */
  ghost predicate Turns(n: nat, runnable: seq<seq<bool>>, turns: seq<int>) {
    && |turns| == |runnable| + 1
    && (forall k :: 0 <= k < |runnable| ==> |runnable[k]| == n)
    && forall k :: 0 <= k < |runnable| ==> IsPick(runnable[k], turns[k], turns[k + 1])
  }

  /**
   No starvation: with no insertions, a process that is runnable at each of n successive
   calls, n being the number of listed processes, gets one of those turns, however the
   states of the others change.
   */
  lemma Fair(n: nat, runnable: seq<seq<bool>>, turns: seq<int>, q: int)
    requires Turns(n, runnable, turns) && 0 <= q < n && |runnable| >= n
    requires forall k :: 0 <= k < |runnable| ==> runnable[k][q]
    ensures exists k :: 1 <= k <= n && turns[k] == q
  {
    assert IsPick(runnable[0], turns[0], turns[1]);
    FairWithin(n, runnable, turns, q, 0);
  }

  lemma {:induction false} FairWithin(n: nat, runnable: seq<seq<bool>>, turns: seq<int>, q: int, k: nat)
    requires Turns(n, runnable, turns) && 0 <= q < n && k < |runnable|
    requires forall j :: 0 <= j < |runnable| ==> runnable[j][q]
    requires k + RingSteps(n, turns[k], q) <= |runnable|
    ensures exists j :: k < j <= k + RingSteps(n, turns[k], q) && turns[j] == q
    decreases RingSteps(n, turns[k], q)
  {
    assert IsPick(runnable[k], turns[k], turns[k + 1]);
    PickApproaches(runnable[k], turns[k], turns[k + 1], q);
    if turns[k + 1] != q {
      FairWithin(n, runnable, turns, q, k + 1);
    }
  }
}
