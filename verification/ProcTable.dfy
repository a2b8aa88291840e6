/**
 Process management (kern/process/proc.c, kern/schedule/sched.c): PID allocation, fork, the
 PID hash, lookup and scheduling.

 A process record is named by its address.  The answers of kmalloc and alloc_pages are
 parameters.
 */
module ProcTable {
  import opened Wrappers
  import opened ProcSpec

  datatype State = Uninit | Sleeping | Runnable | Zombie

  datatype Proc = Proc(state: State, pid: int, runs: int, kstack: int, needResched: bool, parent: Option<nat>)

  type Procs = map<nat, Proc>

  function PidsOf(procs: Procs, list: seq<nat>): (pids: seq<int>)
    requires forall a :: a in list ==> a in procs
    ensures |pids| == |list| && forall i :: 0 <= i < |list| ==> pids[i] == procs[list[i]].pid
  {
    if list == [] then [] else [procs[list[0]].pid] + PidsOf(procs, list[1..])
  }

  class ProcTable {
    var procs: Procs            // every record obtained from kmalloc and not given back
    var stacks: set<int>        // kernel stacks obtained from alloc_pages and not given back
    var procList: seq<nat>      // proc_list, newest first
    var hashList: seq<seq<nat>> // the buckets of hash_list
    var nrProcess: int
    var lastPid: int            // the two static variables of get_pid
    var nextSafe: int
    var current: nat
    var idle: nat

    ghost predicate Valid()
      reads this
    {
      && ListOk(procs, procList, idle) && HashOk(procs, procList, hashList) && StacksOk(procs, procList, stacks)
      && nrProcess == |procList| + 1 && nrProcess <= MAX_PROCESS
      && WindowOk(PidsOf(procs, procList), lastPid, nextSafe)
      && current in procs
    }

    /** proc_init: the idle process, then a fork that makes the first listed process, with PID 1. */
    constructor (idleAddr: nat, initAddr: nat, initStack: int)
      requires idleAddr != initAddr
      ensures Valid() && idle == current == idleAddr && procList == [initAddr]
      ensures nrProcess == 2 && stacks == {initStack} && lastPid == 1
      ensures procs == map[idleAddr := Proc(Runnable, 0, 0, 0, true, None),
                           initAddr := Proc(Runnable, 1, 0, initStack, false, Some(idleAddr))]
    {
      procList, hashList, stacks := [], [], {};
      procs := map[idleAddr := Proc(Uninit, -1, 0, 0, false, None)];
      nrProcess, lastPid, nextSafe := 0, MAX_PID, MAX_PID;
      current, idle := idleAddr, idleAddr;
      new;
      var i := 0;
      while i < HASH_LIST_SIZE
        modifies this`hashList
        invariant 0 <= i <= HASH_LIST_SIZE && |hashList| == i && forall b :: 0 <= b < i ==> hashList[b] == []
      {
        hashList := hashList + [[]];
        i := i + 1;
      }
      procs := procs[idle := procs[idle].(pid := 0, state := Runnable, needResched := true)];
      nrProcess := nrProcess + 1;
      assert procs == map[idle := Proc(Runnable, 0, 0, 0, true, None)];
      hide NextUnused, PidHash;
      var pid := DoFork(Some(initAddr), Some(initStack));
      FirstPid(pid);
      var init := FindProc(pid);
    }

    /**
     do_fork.  `kmem` and `kstack` are what kmalloc and alloc_pages answer.  A failing fork
     changes nothing; a successful one lists a new runnable process under an unused PID.
     */
    method DoFork(kmem: Option<nat>, kstack: Option<int>) returns (ret: int)
      requires Valid()
      requires kmem.Some? ==> kmem.value !in procs
      requires kstack.Some? ==> kstack.value !in stacks
      modifies this
      ensures Valid() && idle == old(idle) && current == old(current)
      ensures ret == -E_NO_FREE_PROC <==> old(nrProcess) >= MAX_PROCESS
      ensures ret == -E_NO_MEM <==> old(nrProcess) < MAX_PROCESS && (kmem.None? || kstack.None?)
      ensures ret == -E_NO_FREE_PROC || ret == -E_NO_MEM || IsPid(ret)
      ensures old(nrProcess) < 4096 && kmem.Some? && kstack.Some? <==> 1 <= ret < 8192
      ensures ret < 0 ==>
        procs == old(procs) && stacks == old(stacks) && procList == old(procList) && hashList == old(hashList)
        && nrProcess == old(nrProcess) && lastPid == old(lastPid) && nextSafe == old(nextSafe)
      ensures |old(hashList)| == HASH_LIST_SIZE
      ensures ret >= 0 ==>
        && kmem.Some? && kstack.Some?
        && NextUnused(PidsOf(old(procs), old(procList)), old(lastPid), ret) && lastPid == ret
        && hashList == old(hashList)[PidHash(ret) := [kmem.value] + old(hashList)[PidHash(ret)]]
        && procList == [kmem.value] + old(procList) && stacks == old(stacks) + {kstack.value}
        && procs == old(procs)[kmem.value := Proc(Runnable, ret, 0, kstack.value, false, Some(old(current)))]
    {
      HashSize(procs, procList, hashList);
      if nrProcess >= MAX_PROCESS {
        return -E_NO_FREE_PROC;
      }
      if kmem.None? {
        return -E_NO_MEM;
      }
      hide ListOk, HashOk, StacksOk, WindowOk, NextUnused, PidsOf;
      KeysOf(procs, procList, idle);
      ghost var procs0, stacks0 := procs, stacks;
      var proc := kmem.value;
      AllocProc(proc);
      ghost var x := Proc(Uninit, -1, 0, 0, false, Some(current));
      Overwritten(procs0, proc, procs[proc], x);
      procs := procs[proc := procs[proc].(parent := Some(current))];
      if kstack.None? {
        Overwritten(procs0, proc, x, x);
        procs := procs - {proc};  // kfree
        return -E_NO_MEM;
      }
      Overwritten(procs0, proc, x, x.(kstack := kstack.value));
      stacks := stacks + {kstack.value};
      procs := procs[proc := procs[proc].(kstack := kstack.value)];
      assert stacks - {kstack.value} == stacks0;
      ret := Enlist(proc, procs0);
    }

    /** alloc_proc: a cleared record at the address kmalloc gave. */
    method AllocProc(proc: nat)
      modifies this`procs
      ensures procs == old(procs)[proc := Proc(Uninit, -1, 0, 0, false, None)]
    {
      procs := procs[proc := Proc(Uninit, -1, 0, 0, false, None)];
    }

    /** The end of do_fork: PID, hash bucket, list, count and state of a prepared record. */
    method Enlist(proc: nat, ghost procs0: Procs) returns (pid: int)
      requires ListOk(procs0, procList, idle) && HashOk(procs0, procList, hashList)
      requires proc in procs && proc !in procs0 && procs == procs0[proc := procs[proc]] && procs[proc].state == Uninit
      requires StacksOk(procs0, procList, stacks - {procs[proc].kstack}) && procs[proc].kstack in stacks
      requires nrProcess == |procList| + 1 && nrProcess < MAX_PROCESS
      requires WindowOk(PidsOf(procs0, procList), lastPid, nextSafe) && current in procs0
      modifies this`procs, this`procList, this`hashList, this`nrProcess, this`lastPid, this`nextSafe
      ensures Valid() && NextUnused(PidsOf(procs0, old(procList)), old(lastPid), pid) && lastPid == pid
      ensures |old(hashList)| == HASH_LIST_SIZE
      ensures procList == [proc] + old(procList)
      ensures hashList == old(hashList)[PidHash(pid) := [proc] + old(hashList)[PidHash(pid)]]
      ensures procs == procs0[proc := old(procs)[proc].(pid := pid, state := Runnable)]
    {
      hide ListOk, HashOk, StacksOk, WindowOk, NextUnused, PidsOf;
      ghost var list0, hash0, x := procList, hashList, procs[proc];
      KeysOf(procs0, procList, idle);
      HashSize(procs0, procList, hashList);
      SamePids(procs0, procs, procList);
      SomePidUnused(PidsOf(procs0, procList));
      pid := GetPid();
      NextUnusedIs(PidsOf(procs0, procList), old(lastPid), pid);
      procs := procs[proc := procs[proc].(pid := pid)];
      hashList := hashList[PidHash(pid) := [proc] + hashList[PidHash(pid)]];
      procList := [proc] + procList;
      nrProcess := nrProcess + 1;
      WakeupProc(proc);
      ghost var y := x.(pid := pid, state := Runnable);
      assert procs == procs0[proc := y];
      ForkKeeps(procs0, list0, hash0, stacks - {x.kstack}, idle, proc, y, lastPid, nextSafe);
      assert stacks - {x.kstack} + {x.kstack} == stacks;
    }

    method WakeupProc(proc: nat)
      requires proc in procs && procs[proc].state != Zombie && procs[proc].state != Runnable
      modifies this`procs
      ensures procs == old(procs)[proc := old(procs)[proc].(state := Runnable)]
    {
      procs := procs[proc := procs[proc].(state := Runnable)];
    }

    /** find_proc: searching one bucket is as good as searching the whole list. */
    method FindProc(pid: int) returns (r: Option<nat>)
      requires Valid()
      ensures r.Some? ==> r.value in procList && procs[r.value].pid == pid
      ensures r.None? ==> forall a :: a in procList ==> procs[a].pid != pid
    {
      hide ListOk, HashOk, StacksOk, WindowOk, PidsOf, PidHash;
      BucketFinds(procs, procList, hashList, idle, pid);
      if 0 < pid < MAX_PID {
        var bucket := hashList[PidHash(pid)];
        var i := 0;
        while i < |bucket|
          invariant 0 <= i <= |bucket| && forall j :: 0 <= j < i ==> procs[bucket[j]].pid != pid
        {
          if procs[bucket[i]].pid == pid {
            return Some(bucket[i]);
          }
          i := i + 1;
        }
      }
      return None;
    }

    /** schedule: gives the turn to the first runnable process in cyclic order, or to idle. */
    method Schedule()
      requires Valid()
      modifies this`procs, this`current
      ensures Valid() && Chooses(old(procs), procList, old(current), current)
      ensures procs.Keys == old(procs).Keys
      ensures forall a :: a in procs ==>
        procs[a] == old(procs)[a].(needResched := old(procs)[a].needResched && a != old(current),
                                   runs := old(procs)[a].runs + if a == current then 1 else 0)
    {
      hide ListOk, HashOk, StacksOk, WindowOk, PidsOf, IsPick, Runnables, Position;
      KeysOf(procs, procList, idle);
      PositionsOf(procs, procList, idle);
      ghost var procs0 := procs;
      ClearResched(current);
      var last := if current == idle then -1 else Position(procList, current);
      SameStates(procs0, procs, procList);
      var le, next := Walk(last);
      if next.None? || procs[next.value].state != Runnable {
        next := Some(idle);
      }
      CountRun(next.value);
      if next.value != current {
        current := next.value;  // proc_run
      }
      TablesKept(procs0, procs, procList, hashList, stacks, idle);
      SamePids(procs0, procs, procList);
    }

    method ClearResched(a: nat)
      requires a in procs
      modifies this`procs
      ensures procs.Keys == old(procs).Keys
      ensures forall b :: b in procs ==> procs[b] == old(procs)[b].(needResched := old(procs)[b].needResched && b != a)
    {
      procs := procs[a := procs[a].(needResched := false)];
    }

    method CountRun(a: nat)
      requires a in procs
      modifies this`procs
      ensures procs.Keys == old(procs).Keys
      ensures forall b :: b in procs ==>
        procs[b] == old(procs)[b].(runs := old(procs)[b].runs + if b == a then 1 else 0)
    {
      procs := procs[a := procs[a].(runs := procs[a].runs + 1)];
    }

    /**
     The do-while loop of schedule.  A link of proc_list is its position, the head being -1;
     `next` is the process last looked at.
     */
    method Walk(last: int) returns (le: int, next: Option<nat>)
      requires (forall a :: a in procList ==> a in procs) && IsPosition(|procList|, last)
      ensures if next.Some? && next.value in procs && procs[next.value].state == Runnable
              then 0 <= le < |procList| && next.value == procList[le] && IsPick(Runnables(procs, procList), last, le)
              else IsPick(Runnables(procs, procList), last, -1)
      ensures next.Some? ==> next.value in procs
    {
      hide IsPick, Passed;
      ghost var run, n, wrapped := Runnables(procs, procList), |procList|, false;
      le, next := last, None;
      NothingPassed(run, last);
      while true
        invariant -1 <= le < n && (wrapped ==> le < last) && Passed(run, last, le, wrapped)
        invariant next.Some? ==> next.value in procList && procs[next.value].state != Runnable
        decreases !wrapped, if wrapped then last - le else n - le
      {
        PassedStep(run, last, le, wrapped);
        if le + 1 == |procList| {
          le := -1;
          wrapped := true;
        } else {
          le := le + 1;
        }
        if le != -1 {
          next := Some(procList[le]);
          if procs[next.value].state == Runnable {
            assert run[le];
            return;
          }
        }
        if le == last {
          return;
        }
      }
    }

    /** get_pid: the first unused PID in cyclic order behind last_pid, scanning or not. */
    method GetPid() returns (pid: int)
      requires forall a :: a in procList ==> a in procs
      requires WindowOk(PidsOf(procs, procList), lastPid, nextSafe)
      requires exists x :: IsPid(x) && x !in PidsOf(procs, procList)
      modifies this`lastPid, this`nextSafe
      ensures pid == lastPid < nextSafe && NextUnused(PidsOf(procs, procList), old(lastPid), pid)
      ensures WindowOk(PidsOf(procs, procList), lastPid, nextSafe)
    {
      hide UsedUpTo, PidsOf, WindowOk, Scanned, NextPid, PidSteps;
      ghost var pids := PidsOf(procs, procList);
      ghost var f :| IsPid(f) && f !in pids;
      ghost var start := NextPid(lastPid);
      FirstStep(pids, lastPid, nextSafe, f);
      lastPid := lastPid + 1;
      var inside := false;
      if lastPid >= MAX_PID {
        lastPid := 1;
        inside := true;
      } else if lastPid >= nextSafe {
        inside := true;
      }
      if inside {
        nextSafe := MAX_PID;
        var j := 0;
        while j < |procList|
          invariant 0 <= j <= |procList| && Scanned(pids, j, lastPid, nextSafe)
          invariant UsedUpTo(pids, start, lastPid) && PidSteps(start, lastPid) <= PidSteps(start, f)
          decreases PidSteps(lastPid, f), |procList| - j
        {
          ScanStep(pids, j, lastPid, nextSafe);
          var p := procs[procList[j]].pid;
          j := j + 1;
          if p == lastPid {
            StepUsed(pids, start, lastPid, f);
            lastPid := lastPid + 1;
            if lastPid >= nextSafe {
              if lastPid >= MAX_PID {
                lastPid := 1;
              }
              nextSafe := MAX_PID;
              j := 0;  // goto repeat
            }
          } else if p > lastPid && nextSafe > p {
            nextSafe := p;
          }
        }
        ScanEnds(pids, start, lastPid, nextSafe);
      }
      return lastPid;
    }
  }

  ghost predicate ListOk(procs: Procs, list: seq<nat>, idle: nat) {
    && procs.Keys == (set a | a in list) + {idle}
    && idle !in list && procs[idle].pid == 0
    && (forall i, j :: 0 <= i < j < |list| ==> list[i] != list[j])
    && (forall a :: a in list ==> IsPid(procs[a].pid))
    && (forall a, b :: a in list && b in list && procs[a].pid == procs[b].pid ==> a == b)
  }

  /** A bucket holds exactly the listed processes that hash to it, each once. */
  ghost predicate BucketOk(procs: Procs, list: seq<nat>, bucket: seq<nat>, b: nat)
    requires forall a :: a in list ==> a in procs
  {
    && (forall a :: a in bucket <==> a in list && PidHash(procs[a].pid) == b)
    && (forall i, j :: 0 <= i < j < |bucket| ==> bucket[i] != bucket[j])
  }

  ghost predicate HashOk(procs: Procs, list: seq<nat>, hash: seq<seq<nat>>)
    requires forall a :: a in list ==> a in procs
  {
    |hash| == HASH_LIST_SIZE && forall b :: 0 <= b < |hash| ==> BucketOk(procs, list, hash[b], b)
  }

  /** Every listed process has a kernel stack of its own, and there are no other stacks. */
  ghost predicate StacksOk(procs: Procs, list: seq<nat>, stacks: set<int>)
    requires forall a :: a in list ==> a in procs
  {
    && stacks == (set a | a in list :: procs[a].kstack)
    && (forall a, b :: a in list && b in list && procs[a].kstack == procs[b].kstack ==> a == b)
  }

  /** Writing a new record twice is writing it once, and taking it out again undoes that. */
  lemma Overwritten(procs: Procs, a: nat, x: Proc, y: Proc)
    requires a !in procs
    ensures procs[a := x] - {a} == procs
    ensures procs[a := x][a := y] == procs[a := y]
  {
  }

  lemma HashSize(procs: Procs, list: seq<nat>, hash: seq<seq<nat>>)
    requires (forall a :: a in list ==> a in procs) && HashOk(procs, list, hash)
    ensures |hash| == HASH_LIST_SIZE
  {
  }

  lemma SamePids(procs: Procs, procs': Procs, list: seq<nat>)
    requires forall a :: a in list ==> a in procs && a in procs' && procs'[a].pid == procs[a].pid
    ensures PidsOf(procs', list) == PidsOf(procs, list)
  {
  }

  lemma KeysOf(procs: Procs, list: seq<nat>, idle: nat)
    requires ListOk(procs, list, idle)
    ensures (forall a :: a in list ==> a in procs) && idle in procs && idle !in list
    ensures forall a :: a in procs ==> a == idle || a in list
  {
  }

  /**
   The first turn: after proc_init the process running asks for scheduling, and schedule, which
   cpu_idle then calls, runs init and takes that request back.
   */
  method FirstTurn(idleAddr: nat, initAddr: nat, initStack: int)
    returns (asked: bool, next: nat, pid: int, runs: int, asks: bool)
    requires idleAddr != initAddr
    ensures asked && next == initAddr && pid == 1 && runs == 1 && !asks
  {
    hide ListOk, HashOk, StacksOk, WindowOk, PidsOf;
    var t := new ProcTable(idleAddr, initAddr, initStack);
    asked := t.procs[t.current].needResched;
    ghost var procs := t.procs;
    t.Schedule();
    OnlyChoice(procs, idleAddr, initAddr, t.current);
    next, pid, runs := t.current, t.procs[t.current].pid, t.procs[t.current].runs;
    asks := t.procs[idleAddr].needResched;
  }

  lemma OnlyChoice(procs: Procs, idle: nat, a: nat, next: nat)
    requires Chooses(procs, [a], idle, next) && a != idle && procs[a].state == Runnable
    ensures next == a
  {
    assert Runnables(procs, [a])[0];
    assert Position([a], idle) == -1;
  }

  /** schedule gives the turn of `current` to `next`. */
  ghost predicate Chooses(procs: Procs, list: seq<nat>, current: nat, next: nat) {
    && (forall a :: a in list ==> a in procs)
    && IsPick(Runnables(procs, list), Position(list, current), Position(list, next))
  }

  /**
   No starvation, over calls of schedule: states[k] is what the processes are at call k, which
   turns turns[k] into turns[k + 1].  With no insertions, a process that is runnable at every
   call gets one of the first |list| turns.
   */
  lemma NoStarvation(list: seq<nat>, states: seq<Procs>, turns: seq<nat>, a: nat)
    requires |turns| == |states| + 1 && |states| >= |list| && a in list
    requires forall k :: 0 <= k < |states| ==> Chooses(states[k], list, turns[k], turns[k + 1])
    requires forall k :: 0 <= k < |states| ==> a in states[k] && states[k][a].state == Runnable
    ensures exists k :: 1 <= k <= |list| && turns[k] == a
  {
    assert forall k :: 0 <= k < |states| ==> Chooses(states[k], list, turns[k], turns[k + 1]);
    var runnable := seq(|states|, k requires 0 <= k < |states| && Chooses(states[k], list, turns[k], turns[k + 1]) =>
      Runnables(states[k], list));
    var places := seq(|turns|, k requires 0 <= k < |turns| => Position(list, turns[k]));
    var q := Position(list, a);
    hide IsPick;
    assert Turns(|list|, runnable, places);
    Fair(|list|, runnable, places, q);
    var k :| 1 <= k <= |list| && places[k] == q;
    assert turns[k] == list[q];
  }

  /** Nothing from behind last up to le is runnable; wrapped says whether the way led past the end. */
  ghost predicate Passed(run: seq<bool>, last: int, le: int, wrapped: bool) {
    && IsPosition(|run|, last) && IsPosition(|run|, le) && (if wrapped then le < last else last <= le)
    && forall q :: 0 <= q < |run| && (if wrapped then q > last || q <= le else last < q <= le) ==> !run[q]
  }

  lemma NothingPassed(run: seq<bool>, last: int)
    requires IsPosition(|run|, last)
    ensures Passed(run, last, last, false)
  {
  }

  /** One more step of the walk: it has found the process to run, or come round, or goes on. */
  lemma PassedStep(run: seq<bool>, last: int, le: int, wrapped: bool)
    requires Passed(run, last, le, wrapped)
    ensures -1 <= le < |run|
    ensures var le', wrapped' := if le + 1 == |run| then -1 else le + 1, wrapped || le + 1 == |run|;
            && (wrapped' ==> le' <= last)
            && (le' >= 0 && run[le'] ==> IsPick(run, last, le'))
            && (!(le' >= 0 && run[le']) ==>
                  if le' == last then IsPick(run, last, -1) else Passed(run, last, le', wrapped'))
  {
  }

  lemma PositionsOf(procs: Procs, list: seq<nat>, idle: nat)
    requires ListOk(procs, list, idle)
    ensures forall i :: 0 <= i < |list| ==> Position(list, list[i]) == i
    ensures Position(list, idle) == -1
  {
  }

  /** The bucket of a PID holds every listed process with that PID, and listed processes only. */
  lemma BucketFinds(procs: Procs, list: seq<nat>, hash: seq<seq<nat>>, idle: nat, pid: int)
    requires ListOk(procs, list, idle) && HashOk(procs, list, hash)
    ensures |hash| == HASH_LIST_SIZE && forall a :: a in list ==> a in procs
    ensures forall i :: 0 <= i < |hash[PidHash(pid)]| ==> hash[PidHash(pid)][i] in list
    ensures forall a :: a in list && procs[a].pid == pid ==> IsPid(pid) && a in hash[PidHash(pid)]
  {
    hide PidHash;
    assert BucketOk(procs, list, hash[PidHash(pid)], PidHash(pid));
  }

  lemma NextUnusedIs(pids: seq<int>, last: int, x: int)
    requires NextUnused(pids, last, x)
    ensures IsPid(x) && x !in pids
  {
  }

  /** Run counts, states and scheduling requests matter to none of the tables. */
  lemma TablesKept(procs: Procs, procs': Procs, list: seq<nat>, hash: seq<seq<nat>>, stacks: set<int>, idle: nat)
    requires ListOk(procs, list, idle) && HashOk(procs, list, hash) && StacksOk(procs, list, stacks)
    requires procs'.Keys == procs.Keys
    requires forall a :: a in procs ==> procs'[a].pid == procs[a].pid && procs'[a].kstack == procs[a].kstack
    ensures ListOk(procs', list, idle) && HashOk(procs', list, hash) && StacksOk(procs', list, stacks)
  {
    hide PidHash;
    forall b | 0 <= b < |hash| ensures BucketOk(procs', list, hash[b], b) {
      assert BucketOk(procs, list, hash[b], b);
    }
    assert (set a | a in list :: procs'[a].kstack) == (set a | a in list :: procs[a].kstack);
  }

  lemma SameStates(procs: Procs, procs': Procs, list: seq<nat>)
    requires forall a :: a in list ==> a in procs && a in procs' && procs'[a].state == procs[a].state
    ensures Runnables(procs', list) == Runnables(procs, list)
  {
  }

  lemma ForkList(procs: Procs, list: seq<nat>, idle: nat, a: nat, x: Proc)
    requires ListOk(procs, list, idle) && a !in procs && IsPid(x.pid) && x.pid !in PidsOf(procs, list)
    ensures ListOk(procs[a := x], [a] + list, idle)
  {
    hide PidsOf;
    forall b | b in list ensures procs[b].pid != x.pid {
      PidIn(procs, list, b);
    }
    var procs', list' := procs[a := x], [a] + list;
    assert procs'.Keys == (set b | b in list') + {idle} by {
      assert procs'.Keys == procs.Keys + {a};
      assert (set b | b in list') == (set b | b in list) + {a};
    }
    assert forall b :: b in list' <==> b == a || b in list;
  }

  lemma PidIn(procs: Procs, list: seq<nat>, b: nat)
    requires (forall a :: a in list ==> a in procs) && b in list
    ensures procs[b].pid in PidsOf(procs, list)
  {
    var i :| 0 <= i < |list| && list[i] == b;
    assert PidsOf(procs, list)[i] == procs[b].pid;
  }

  lemma ForkBucket(procs: Procs, list: seq<nat>, bucket: seq<nat>, b: nat, a: nat, x: Proc)
    requires forall c :: c in list ==> c in procs
    requires BucketOk(procs, list, bucket, b) && a !in procs
    ensures BucketOk(procs[a := x], [a] + list, if PidHash(x.pid) == b then [a] + bucket else bucket, b)
  {
    hide PidHash;
    var procs', list', new' := procs[a := x], [a] + list, if PidHash(x.pid) == b then [a] + bucket else bucket;
    forall c ensures c in new' <==> c in list' && PidHash(procs'[c].pid) == b {
    }
  }

  lemma ForkHash(procs: Procs, list: seq<nat>, hash: seq<seq<nat>>, a: nat, x: Proc)
    requires forall c :: c in list ==> c in procs
    requires HashOk(procs, list, hash) && a !in procs
    ensures HashOk(procs[a := x], [a] + list, hash[PidHash(x.pid) := [a] + hash[PidHash(x.pid)]])
  {
    hide BucketOk;
    var hash' := hash[PidHash(x.pid) := [a] + hash[PidHash(x.pid)]];
    forall b | 0 <= b < |hash'| ensures BucketOk(procs[a := x], [a] + list, hash'[b], b) {
      ForkBucket(procs, list, hash[b], b, a, x);
    }
  }

  lemma ForkStacks(procs: Procs, list: seq<nat>, stacks: set<int>, a: nat, x: Proc)
    requires forall c :: c in list ==> c in procs
    requires StacksOk(procs, list, stacks) && a !in procs && x.kstack !in stacks
    ensures StacksOk(procs[a := x], [a] + list, stacks + {x.kstack})
  {
    var procs', list' := procs[a := x], [a] + list;
    forall k ensures k in stacks + {x.kstack} <==> exists c :: c in list' && procs'[c].kstack == k {
      if k == x.kstack {
        assert a in list' && procs'[a].kstack == k;
      } else if k in stacks {
        var c :| c in list && procs[c].kstack == k;
        assert c in list' && procs'[c].kstack == k;
      }
    }
  }

  lemma ForkWindow(procs: Procs, list: seq<nat>, a: nat, x: Proc, last: int, safe: int)
    requires forall c :: c in list ==> c in procs
    requires WindowOk(PidsOf(procs, list), last, safe) && a !in procs && x.pid == last
    ensures WindowOk(PidsOf(procs[a := x], [a] + list), last, safe)
  {
    var procs', list' := procs[a := x], [a] + list;
    SamePids(procs, procs', list);
    assert PidsOf(procs', list') == [last] + PidsOf(procs, list) by {
      assert list'[1..] == list;
    }
    hide PidsOf;
    WindowMore(PidsOf(procs, list), last, safe);
  }

  lemma WindowMore(pids: seq<int>, last: int, safe: int)
    requires WindowOk(pids, last, safe)
    ensures WindowOk([last] + pids, last, safe)
  {
    assert forall i :: 1 <= i < |pids| + 1 ==> ([last] + pids)[i] == pids[i - 1];
  }

  /** Listing a new process under an unused PID keeps list, hash, stacks and window in order. */
  lemma ForkKeeps(procs: Procs, list: seq<nat>, hash: seq<seq<nat>>, stacks: set<int>, idle: nat,
                  a: nat, x: Proc, last: int, safe: int)
    requires ListOk(procs, list, idle) && HashOk(procs, list, hash) && StacksOk(procs, list, stacks)
    requires a !in procs && x.pid == last && IsPid(last) && last !in PidsOf(procs, list) && x.kstack !in stacks
    requires WindowOk(PidsOf(procs, list), last, safe)
    ensures var procs', list' := procs[a := x], [a] + list;
            && ListOk(procs', list', idle) && StacksOk(procs', list', stacks + {x.kstack})
            && HashOk(procs', list', hash[PidHash(x.pid) := [a] + hash[PidHash(x.pid)]])
            && WindowOk(PidsOf(procs', list'), last, safe)
  {
    hide PidsOf, StacksOk, WindowOk, PidHash;
    ForkList(procs, list, idle, a, x);
    ForkHash(procs, list, hash, a, x);
    ForkStacks(procs, list, stacks, a, x);
    ForkWindow(procs, list, a, x, last, safe);
  }

  /** The very first PID is 1. */
  lemma FirstPid(pid: int)
    requires NextUnused([], MAX_PID, pid)
    ensures pid == 1
  {
    assert PidSteps(NextPid(MAX_PID), 1) == 0;
  }

  /** The place of a process in the list, or -1. */
  function Position(list: seq<nat>, a: nat): (p: int)
    ensures IsPosition(|list|, p) && (p >= 0 ==> list[p] == a) && (p == -1 ==> a !in list)
  {
    if list == [] then -1
    else if list[0] == a then 0
    else
      var p := Position(list[1..], a);
      if p == -1 then -1 else p + 1
  }

  function Runnables(procs: Procs, list: seq<nat>): (r: seq<bool>)
    requires forall a :: a in list ==> a in procs
    ensures |r| == |list| && forall i :: 0 <= i < |list| ==> (r[i] <==> procs[list[i]].state == Runnable)
  {
    if list == [] then [] else [procs[list[0]].state == Runnable] + Runnables(procs, list[1..])
  }

  /** The first j PIDs have been seen, and none of them lies from last up to before safe. */
  ghost predicate Scanned(pids: seq<int>, j: nat, last: int, safe: int) {
    && j <= |pids| && IsPid(last) && last < safe <= MAX_PID && (safe == MAX_PID || safe in pids)
    && forall i :: 0 <= i < j ==> !(last <= pids[i] < safe)
  }

  /** Where the search starts, and why the path without a scan is right. */
  lemma FirstStep(pids: seq<int>, last: int, safe: int, f: int)
    requires WindowOk(pids, last, safe) && IsPid(f)
    ensures UsedUpTo(pids, NextPid(last), NextPid(last))
        && PidSteps(NextPid(last), NextPid(last)) <= PidSteps(NextPid(last), f)
    ensures last + 1 < MAX_PID ==> NextPid(last) == last + 1
    ensures last + 1 >= MAX_PID ==> NextPid(last) == 1
    ensures Scanned(pids, 0, NextPid(last), MAX_PID)
    ensures last + 1 < MAX_PID && last + 1 < safe ==> NextUnused(pids, last, last + 1) && WindowOk(pids, last + 1, safe)
  {
  }

  /** One more PID looked at, in each of the three cases of the loop body. */
  lemma ScanStep(pids: seq<int>, j: nat, last: int, safe: int)
    requires Scanned(pids, j, last, safe) && j < |pids|
    ensures IsPid(last) && last < safe <= MAX_PID
    ensures pids[j] == last && last + 1 < safe ==> Scanned(pids, j + 1, last + 1, safe) && NextPid(last) == last + 1
    ensures pids[j] == last && last + 1 >= safe ==> Scanned(pids, 0, NextPid(last), MAX_PID)
    ensures NextPid(last) == if last + 1 >= MAX_PID then 1 else last + 1
    ensures pids[j] > last && safe > pids[j] ==> Scanned(pids, j + 1, last, pids[j])
    ensures pids[j] != last && !(pids[j] > last && safe > pids[j]) ==> Scanned(pids, j + 1, last, safe)
    ensures pids[j] in pids
  {
    hide UsedUpTo;
  }

  lemma ScanEnds(pids: seq<int>, start: int, last: int, safe: int)
    requires Scanned(pids, |pids|, last, safe) && UsedUpTo(pids, start, last)
    ensures last < safe && WindowOk(pids, last, safe) && IsPid(last) && last !in pids
  {
  }

  /** Leaving a PID in use brings the search closer to any unused one. */
  lemma StepUsed(pids: seq<int>, s: int, x: int, f: int)
    requires IsPid(s) && IsPid(x) && IsPid(f) && x in pids && f !in pids
    requires UsedUpTo(pids, s, x) && PidSteps(s, x) <= PidSteps(s, f)
    ensures UsedUpTo(pids, s, NextPid(x)) && PidSteps(s, NextPid(x)) <= PidSteps(s, f)
    ensures 0 <= PidSteps(NextPid(x), f) < PidSteps(x, f)
  {
  }
}
