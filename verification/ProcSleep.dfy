/** Sleeping and waking: what kill, exit and wait do to every entry, which steps wake a
    sleeper, and that a wakeup on its channel reaches it however much later it comes. */
module ProcSleep {
  import opened Common
  import opened ProcSpec
  import opened ProcInv

  /** kill marks the process of that pid and no other, and makes it RUNNABLE if it sleeps. */
  lemma KillEntry(s: Sys, pid: int, i: nat)
    requires Inv(s) && Enabled(s, Kill(pid)) && i < |s.procs| && s.procs[i].state != UNUSED
    ensures var p, q := s.procs[i], Apply(s, Kill(pid)).procs[i];
      q == if p.pid != pid then p
           else if p.state == SLEEPING then p.(killed := true, state := RUNNABLE)
           else p.(killed := true)
  {
    var k := FirstWithPid(s.procs, pid, 0);
    if k < |s.procs| && s.procs[i].pid == pid { assert PairAt(s.procs, k, i); }
  }

  /** Process `i` waits for its children, and the exit of the running process ends that: it is
      the parent, or it is init and gets a ZOMBIE. */
  ghost predicate ExitReaches(s: Sys, i: nat)
    requires s.running.Some? && s.running.value < |s.procs| && i < |s.procs|
  {
    var r, p := s.running.value, s.procs[i];
    && p.state == SLEEPING && p.chan.OnProc?
    && (p.chan.slot == s.procs[r].parent || (p.chan.slot == s.init && HasZombieKids(s.procs, r)))
  }

  /** exit: the process is a ZOMBIE, its children are init's, whoever waits for this is
      RUNNABLE at the minimum priority, and everything else is as before. */
  lemma ExitEntry(s: Sys, i: nat)
    requires Inv(s) && Enabled(s, Exit) && i < |s.procs|
    ensures var r, p, q := s.running.value, s.procs[i], Apply(s, Exit).procs[i];
      && q.parent == (if p.parent == r then s.init else p.parent)
      && q.state == (if i == r then ZOMBIE else if ExitReaches(s, i) then RUNNABLE else p.state)
      && q.priority == (if i == r then p.priority + Stride(p.weight)
                        else if ExitReaches(s, i) then s.min else p.priority)
      && q == p.(parent := q.parent, state := q.state, priority := q.priority)
  {
    ExitTableEntry(s, i);
  }

  lemma ExitTableEntry(s: Sys, i: nat)
    requires Inv(s) && Enabled(s, Exit) && i < |s.procs|
    ensures var r, p, q := s.running.value, s.procs[i], ExitTable(s)[i];
      && |ExitTable(s)| == |s.procs|
      && q.parent == (if p.parent == r then s.init else p.parent)
      && q.state == (if i == r then ZOMBIE else if ExitReaches(s, i) then RUNNABLE else p.state)
      && q.priority == (if i != r && ExitReaches(s, i) then s.min else p.priority)
      && q == p.(parent := q.parent, state := q.state, priority := q.priority)
  {
    var r := s.running.value;
    assert TreeAt(s.procs, s.init, r);
    SameZombieKids(s.procs, ParentChan(s.procs[r]), s.min, r);
  }

  /** wait: a ZOMBIE child is reaped and nothing else happens; or there is none, and the
      caller goes to sleep on itself exactly if it has children and was not killed. */
  lemma WaitOutcome(s: Sys)
    requires Inv(s) && Enabled(s, Wait)
    ensures var r, t := s.running.value, Apply(s, Wait);
      if HasZombieKids(s.procs, r) then
        exists z :: Reaps(s, z, t)
      else if HasKids(s.procs, r) && !s.procs[r].killed then
        && t.running.None? && t.reaped == s.reaped
        && t.procs == s.procs[r := Charged(s.procs[r].(state := SLEEPING, chan := OnProc(r)))]
      else t == s
  {
    var r := s.running.value;
    var z := FirstZombieChild(s.procs, r, 0);
    if z < |s.procs| { assert Reaps(s, z, Apply(s, Wait)); }
  }

  /** `t` is `s` once the running process has reaped its child in slot `z`. */
  ghost predicate Reaps(s: Sys, z: int, t: Sys) {
    && 0 <= z < |s.procs| && s.running.Some? && s.procs[z].parent == s.running.value && s.procs[z].state == ZOMBIE
    && t == s.(procs := t.procs, reaped := s.reaped + [s.procs[z].pid])
    && t.procs == s.procs[z := s.procs[z].(state := UNUSED, pid := 0, parent := NO_PARENT, killed := false)]
  }

  // ------------------------------------------------------------------- waking up

  /** A step wakes a sleeper if and only if it is a wakeup on its channel, a kill of its pid, or
      an exit that it waits for. A sleeper that is not woken stays on its channel. */
  lemma WakesIff(s: Sys, step: Step, i: nat)
    requires Inv(s) && Enabled(s, step) && i < |s.procs| && s.procs[i].state == SLEEPING
    ensures var p, q := s.procs[i], Apply(s, step).procs[i];
      var woken := step == Wakeup(p.chan) || step == Kill(p.pid) || (step == Exit && ExitReaches(s, i));
      && q.state == (if woken then RUNNABLE else SLEEPING) && q.chan == p.chan && q.pid == p.pid
      && (woken && !step.Kill? ==> q.priority == s.min)
  {
    assert s.running.Some? ==> s.running.value != i;
    match step
    case Kill(pid) => KillEntry(s, pid, i);
    case Exit => ExitEntry(s, i);
    case Alloc =>
    case ForkFail => assert EmbryoAt(s.procs, s.running.value);
    case ForkParent => assert EmbryoAt(s.procs, s.running.value);
    case ForkDone => assert EmbryoAt(s.procs, s.running.value);
    case Wait => WaitOutcome(s);
    case _ =>
  }

  /** The process `pid` in slot `i` sleeps on `addr`. */
  ghost predicate AsleepOn(s: Sys, i: nat, addr: nat, pid: int) {
    && Inv(s) && i < |s.procs| && s.procs[i].state == SLEEPING
    && s.procs[i].chan == OnAddr(addr) && s.procs[i].pid == pid
  }

  ghost predicate Disturbs(step: Step, addr: nat, pid: int) {
    step == Wakeup(OnAddr(addr)) || step == Kill(pid)
  }

  lemma SleepsThrough(s: Sys, step: Step, i: nat, addr: nat, pid: int)
    requires AsleepOn(s, i, addr, pid) && Enabled(s, step) && !Disturbs(step, addr, pid)
    ensures AsleepOn(Apply(s, step), i, addr, pid)
  {
    StepInv(s, step);
    WakesIff(s, step, i);
  }

  lemma {:induction false} SleepsOn(s: Sys, steps: seq<Step>, t: Sys, i: nat, addr: nat, pid: int)
    requires AsleepOn(s, i, addr, pid) && Run(s, steps, t)
    requires forall k :: 0 <= k < |steps| ==> !Disturbs(steps[k], addr, pid)
    ensures AsleepOn(t, i, addr, pid)
    decreases |steps|
  {
    if steps != [] {
      SleepsThrough(s, steps[0], i, addr, pid);
      SleepsOn(Apply(s, steps[0]), steps[1..], t, i, addr, pid);
    }
  }

  lemma SleepStarts(s: Sys, addr: nat)
    requires Inv(s) && Enabled(s, Sleep(addr))
    ensures AsleepOn(Apply(s, Sleep(addr)), s.running.value, addr, s.procs[s.running.value].pid)
  {
    StepInv(s, Sleep(addr));
  }

  /** A process that went to sleep on `addr` sleeps through all steps but a wakeup on `addr` and
      a kill, and then a wakeup on `addr` makes it RUNNABLE at the minimum priority. */
  lemma SleepThenWakeup(s: Sys, addr: nat, steps: seq<Step>, t: Sys)
    requires Inv(s) && Enabled(s, Sleep(addr)) && Run(Apply(s, Sleep(addr)), steps, t)
    requires forall k :: 0 <= k < |steps| ==>
      steps[k] != Wakeup(OnAddr(addr)) && steps[k] != Kill(s.procs[s.running.value].pid)
    ensures var r := s.running.value;
      && r < |t.procs| && t.procs[r].state == SLEEPING
      && var q := Apply(t, Wakeup(OnAddr(addr))).procs[r];
      && q.state == RUNNABLE && q.priority == t.min && q.pid == s.procs[r].pid
  {
    var r := s.running.value;
    SleepStarts(s, addr);
    SleepsOn(Apply(s, Sleep(addr)), steps, t, r, addr, s.procs[r].pid);
    WakesIff(t, Wakeup(OnAddr(addr)), r);
  }
}
