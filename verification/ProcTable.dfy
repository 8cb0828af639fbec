/** The process table as the kernel keeps it: every operation scans and updates the
    entries in place, and takes exactly one step of the process machine. */
module ProcTable {
  import opened Common
  import opened ProcSpec
  import opened ProcInv

  class Ptable {
    var proc: seq<Proc>
    var minPriority: int
    var weight: int
    var nextpid: int
    var running: Option<nat>
    const initproc: nat
    ghost var exited: seq<int>
    ghost var reaped: seq<int>

    ghost function View(): Sys
      reads this
    {
      Sys(proc, minPriority, weight, nextpid, running, initproc, exited, reaped)
    }

    /** pinit and userinit. */
    constructor (n: nat)
      requires n > 0
      ensures View() == Boot(n) && Inv(View())
      ensures |proc| == n && proc[0].state == RUNNABLE && proc[0].pid == 1 && proc[0].parent == NO_PARENT
      ensures proc[0].priority == minPriority == 3 && proc[0].weight == 1 && weight == nextpid == 2
      ensures running.None? && initproc == 0 && forall i :: 1 <= i < n ==> proc[i].state == UNUSED
    {
      initproc := 0;
      proc := Boot(n).procs;
      minPriority, weight, nextpid, running := 3, 2, 2, None;
      exited, reaped := [], [];
      new;
      BootInv(n);
    }

    method Wakeup1(chan: Chan)
      modifies `proc
      ensures proc == ProcSpec.Wakeup1(old(proc), chan, minPriority) && |proc| == |old(proc)|
      ensures forall i :: 0 <= i < |proc| ==>
        if old(proc)[i].state == SLEEPING && old(proc)[i].chan == chan
        then proc[i] == old(proc)[i].(state := RUNNABLE, priority := minPriority)
        else proc[i] == old(proc)[i]
    {
      ghost var ps := proc;
      var i := 0;
      while i < |proc|
        invariant 0 <= i <= |proc| == |ps|
        invariant forall k :: 0 <= k < i ==> proc[k] == Woken(ps[k], chan, minPriority)
        invariant forall k :: i <= k < |ps| ==> proc[k] == ps[k]
      {
        if proc[i].state == SLEEPING && proc[i].chan == chan {
          proc := proc[i := proc[i].(state := RUNNABLE, priority := minPriority)];
        }
        i := i + 1;
      }
    }

    method Wakeup(chan: Chan)
      requires Inv(View())
      modifies `proc
      ensures View() == Apply(old(View()), Step.Wakeup(chan)) && Inv(View()) && |proc| == |old(proc)|
      ensures forall i :: 0 <= i < |proc| ==> !(proc[i].state == SLEEPING && proc[i].chan == chan)
      ensures forall i :: 0 <= i < |proc| ==>
        if old(proc)[i].state == SLEEPING && old(proc)[i].chan == chan
        then proc[i] == old(proc)[i].(state := RUNNABLE, priority := minPriority)
        else proc[i] == old(proc)[i]
    {
      WakeupInv(View(), chan);
      Wakeup1(chan);
    }

    /** The scheduler's choice: the first RUNNABLE entry whose priority is the minimum. */
    method Schedule()
      requires Inv(View()) && Enabled(View(), Step.Schedule)
      modifies `proc, `running
      ensures View() == Apply(old(View()), Step.Schedule) && Inv(View())
      ensures running.Some? <==> exists i :: 0 <= i < |old(proc)| && old(proc)[i].state == RUNNABLE
      ensures running.None? ==> proc == old(proc)
      ensures running.Some? ==> var r := running.value;
        && r < |old(proc)| && old(proc)[r].state == RUNNABLE
        && (forall i :: 0 <= i < |proc| && old(proc)[i].state == RUNNABLE ==>
              old(proc)[r].priority <= old(proc)[i].priority)
        && proc == old(proc)[r := old(proc)[r].(state := RUNNING, chan := NoChan)]
    {
      ScheduleInv(View());
      ScanFinds(proc, minPriority);
      var i := 0;
      while i < |proc|
        invariant 0 <= i <= |proc|
        invariant FirstOfPriority(proc, minPriority, 0) == FirstOfPriority(proc, minPriority, i)
      {
        if proc[i].state == RUNNABLE && proc[i].priority == minPriority { break; }
        i := i + 1;
      }
      if i < |proc| {
        proc := proc[i := proc[i].(state := RUNNING, chan := NoChan)];
        running := Some(i);
      }
    }

    method MinScan() returns (min: Option<int>)
      ensures min == LeastPriority(proc)
    {
      min := None;
      var i := 0;
      while i < |proc|
        invariant 0 <= i <= |proc|
        invariant min == LeastPriority(proc[..i])
      {
        assert proc[..i+1][..i] == proc[..i];
        if proc[i].state == RUNNABLE {
          if min.None? || proc[i].priority < min.value { min := Some(proc[i].priority); }
        }
        i := i + 1;
      }
      assert proc[..|proc|] == proc;
    }

    /** The running process pays for its time slice. */
    method Charge()
      requires running.Some? && running.value < |proc|
      modifies `proc
      ensures var r := running.value;
        proc == old(proc)[r := Charged(old(proc)[r])]
    {
      var r := running.value;
      var charged := proc[r].priority + Stride(proc[r].weight);
      proc := proc[r := proc[r].(priority := charged)];
    }

    /** The scheduler after the switch back: charge the process, find the new minimum. */
    method Resume()
      requires running.Some? && running.value < |proc|
      modifies `proc, `running, `minPriority
      ensures View() == Tail(old(View())) && running.None?
      ensures var r := old(running).value;
        proc == old(proc)[r := Charged(old(proc)[r])]
      ensures minPriority == if LeastPriority(proc).Some? then LeastPriority(proc).value else old(minPriority)
    {
      Charge();
      ghost var ps := proc;
      var min := MinScan();
      if min.Some? { minPriority := min.value; }
      running := None;
      assert proc == ps && View() == old(View()).(procs := ps, min := minPriority, running := None);
    }

    method Yield()
      requires Inv(View()) && Enabled(View(), Step.Yield)
      modifies `proc, `running, `minPriority
      ensures View() == Apply(old(View()), Step.Yield) && Inv(View()) && running.None?
      ensures var r := old(running).value;
        proc == old(proc)[r := Charged(old(proc)[r].(state := RUNNABLE))]
    {
      YieldInv(View());
      proc := SetState(proc, running.value, RUNNABLE);
      Resume();
    }

    /** sleep: the running process gives up the CPU until it is woken on `chan`. */
    method SleepOn(chan: Chan)
      requires running.Some? && running.value < |proc|
      modifies `proc, `running, `minPriority
      ensures View() == ApplySleep(old(View()), chan) && running.None?
      ensures var r := old(running).value;
        proc == old(proc)[r := Charged(old(proc)[r].(state := SLEEPING, chan := chan))]
    {
      var r := running.value;
      proc := proc[r := proc[r].(state := SLEEPING, chan := chan)];
      Resume();
    }

    method Sleep(addr: nat)
      requires Inv(View()) && Enabled(View(), Step.Sleep(addr))
      modifies `proc, `running, `minPriority
      ensures View() == Apply(old(View()), Step.Sleep(addr)) && Inv(View()) && running.None?
      ensures var r := old(running).value;
        proc == old(proc)[r := Charged(old(proc)[r].(state := SLEEPING, chan := OnAddr(addr)))]
    {
      SleepInv(View(), addr);
      SleepOn(OnAddr(addr));
    }

    /** allocproc on behalf of fork; returns the slot, or None when the table is full. */
    method Allocproc() returns (e: Option<nat>)
      requires Inv(View()) && Enabled(View(), Alloc)
      modifies `proc, `nextpid, `weight
      ensures View() == Apply(old(View()), Alloc) && Inv(View())
      ensures e.None? <==> forall i :: 0 <= i < |old(proc)| ==> old(proc)[i].state != UNUSED
      ensures e.None? ==> View() == old(View())
      ensures e.Some? ==> var r, i := running.value, e.value;
        && i < |old(proc)| && old(proc)[i].state == UNUSED
        && proc == old(proc)[i := old(proc)[i].(
             state := EMBRYO, pid := old(nextpid), weight := old(weight), priority := minPriority)]
             [r := old(proc)[r].(embryo := e)]
        && nextpid == old(nextpid) + 1 && weight == old(weight) + 1
    {
      AllocInv(View());
      var i := 0;
      while i < |proc| && proc[i].state != UNUSED
        invariant 0 <= i <= |proc|
        invariant forall k :: 0 <= k < i ==> proc[k].state != UNUSED
      {
        i := i + 1;
      }
      assert i == FirstUnused(proc, 0);
      if i == |proc| { return None; }
      proc := proc[i := proc[i].(state := EMBRYO, pid := nextpid, weight := weight, priority := minPriority)];
      nextpid, weight := nextpid + 1, weight + 1;
      var r := running.value;
      proc := proc[r := proc[r].(embryo := Some(i))];
      e := Some(i);
    }

    /** fork when there is no kernel stack or no memory for the child: give the slot back. */
    method ForkFail()
      requires Inv(View()) && Enabled(View(), Step.ForkFail)
      modifies `proc
      ensures View() == Apply(old(View()), Step.ForkFail) && Inv(View())
      ensures var r := running.value;
        var e := old(proc)[r].embryo.value;
        proc == old(proc)[e := old(proc)[e].(state := UNUSED)][r := old(proc)[r].(embryo := None)]
    {
      ForkEndInv(View(), Step.ForkFail);
      var r := running.value;
      proc := SetState(proc, proc[r].embryo.value, UNUSED);
      proc := proc[r := proc[r].(embryo := None)];
    }

    /** The middle of fork, outside the lock: the child gets its parent. */
    method ForkParent()
      requires Inv(View()) && Enabled(View(), Step.ForkParent)
      modifies `proc
      ensures View() == Apply(old(View()), Step.ForkParent) && Inv(View())
      ensures var r := running.value;
        var e := old(proc)[r].embryo.value;
        proc == old(proc)[e := old(proc)[e].(parent := r)]
    {
      ForkParentInv(View());
      var r := running.value;
      var e := proc[r].embryo.value;
      proc := proc[e := proc[e].(parent := r)];
    }

    /** The last part of fork. */
    method ForkDone() returns (pid: int)
      requires Inv(View()) && Enabled(View(), Step.ForkDone)
      modifies `proc
      ensures View() == Apply(old(View()), Step.ForkDone) && Inv(View())
      ensures var r := running.value;
        var e := old(proc)[r].embryo.value;
        && pid == old(proc)[e].pid
        && proc == old(proc)[e := old(proc)[e].(state := RUNNABLE)][r := old(proc)[r].(embryo := None)]
    {
      ForkEndInv(View(), Step.ForkDone);
      var r := running.value;
      var e := proc[r].embryo.value;
      pid := proc[e].pid;
      proc := SetState(proc, e, RUNNABLE);
      proc := proc[r := proc[r].(embryo := None)];
    }

    /** The loop of exit that hands the children over and wakes init for each ZOMBIE. */
    method PassChildren(r: nat)
      requires r < |proc|
      modifies `proc
      ensures var ps := old(proc);
        proc == if HasZombieKids(ps, r) then ProcSpec.Wakeup1(Reparent(ps, r, initproc), OnProc(initproc), minPriority)
                else Reparent(ps, r, initproc)
    {
      ghost var ps, woken := proc, false;
      var i := 0;
      while i < |proc|
        invariant 0 <= i <= |proc| == |ps|
        invariant woken <==> exists k :: 0 <= k < i && ps[k].parent == r && ps[k].state == ZOMBIE
        invariant forall k :: 0 <= k < |ps| ==> proc[k] == Passed(ps[k], r, initproc, minPriority, k < i, woken)
      {
        if proc[i].parent == r {
          proc := proc[i := proc[i].(parent := initproc)];
          if proc[i].state == ZOMBIE {
            woken := true;
            Wakeup1(OnProc(initproc));
          }
        }
        i := i + 1;
      }
      assert woken <==> HasZombieKids(ps, r);
      assert woken ==> proc == ProcSpec.Wakeup1(Reparent(ps, r, initproc), OnProc(initproc), minPriority);
      assert !woken ==> proc == Reparent(ps, r, initproc);
    }

    method Exit()
      requires Inv(View()) && Enabled(View(), Step.Exit)
      modifies `proc, `running, `minPriority, `exited
      ensures View() == Apply(old(View()), Step.Exit) && Inv(View())
    {
      ExitInv(View());
      var r := running.value;
      exited := exited + [proc[r].pid];
      Wakeup1(ParentChan(proc[r]));
      PassChildren(r);
      proc := SetState(proc, r, ZOMBIE);
      Resume();
    }

    /** One pass of wait: the pid of an exited child, -1, or None when the caller went to sleep. */
    method Wait() returns (pid: Option<int>)
      requires Inv(View()) && Enabled(View(), Step.Wait)
      modifies `proc, `running, `minPriority, `reaped
      ensures View() == Apply(old(View()), Step.Wait) && Inv(View())
      ensures pid.Some? && pid.value != -1 ==> reaped == old(reaped) + [pid.value]
      ensures pid == Some(-1) ==> unchanged(this)
      ensures pid.None? ==> reaped == old(reaped) && running.None?
    {
      WaitInv(View());
      var r := running.value;
      var havekids := false;
      var i := 0;
      while i < |proc|
        invariant 0 <= i <= |proc| && View() == old(View())
        invariant havekids <==> exists k :: 0 <= k < i && proc[k].parent == r
        invariant FirstZombieChild(proc, r, 0) == FirstZombieChild(proc, r, i)
      {
        if proc[i].parent == r {
          havekids := true;
          if proc[i].state == ZOMBIE {
            assert PidAt(View(), i);
            pid := Some(proc[i].pid);
            reaped := reaped + [proc[i].pid];
            proc := proc[i := Reaped(proc[i])];
            return;
          }
        }
        i := i + 1;
      }
      if !havekids || proc[r].killed { return Some(-1); }
      SleepOn(OnProc(r));
      pid := None;
    }

    method Kill(pid: int) returns (ret: int)
      requires Inv(View()) && Enabled(View(), Step.Kill(pid))
      modifies `proc
      ensures View() == Apply(old(View()), Step.Kill(pid)) && Inv(View())
      ensures ret == 0 <==> exists i :: 0 <= i < |old(proc)| && old(proc)[i].pid == pid
      ensures ret != 0 ==> ret == -1 && proc == old(proc)
    {
      KillInv(View(), pid);
      var i := 0;
      while i < |proc|
        invariant 0 <= i <= |proc|
        invariant forall k :: 0 <= k < i ==> proc[k].pid != pid
      {
        if proc[i].pid == pid {
          assert i == FirstWithPid(proc, pid, 0);
          proc := proc[i := proc[i].(killed := true)];
          if proc[i].state == SLEEPING { proc := proc[i := proc[i].(state := RUNNABLE)]; }
          return 0;
        }
        i := i + 1;
      }
      ret := -1;
    }

    method DoWeightset(w: int)
      requires Inv(View()) && Enabled(View(), WeightSet(w))
      modifies `proc
      ensures View() == Apply(old(View()), WeightSet(w)) && Inv(View())
      ensures proc == old(proc)[running.value := old(proc)[running.value].(weight := w)]
    {
      WeightSetInv(View(), w);
      proc := proc[running.value := proc[running.value].(weight := w)];
    }
  }

  /** An entry while exit passes children on: adopted once reached, woken once init was. */
  ghost function Passed(p: Proc, r: int, init: nat, min: int, reached: bool, woken: bool): Proc {
    var q := if reached then Adopted(p, r, init) else p;
    if woken then Woken(q, OnProc(init), min) else q
  }
}
