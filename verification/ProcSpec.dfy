/** The process table and the weighted-priority scheduler on one CPU, as a machine
    whose steps are the regions that run under the table lock. */
module ProcSpec {
  import opened Common

  datatype State = UNUSED | EMBRYO | SLEEPING | RUNNABLE | RUNNING | ZOMBIE

  /** What a process sleeps on: nothing, a process (wait sleeps on the waiting process
      itself), or some other kernel address. */
  datatype Chan = NoChan | OnProc(slot: nat) | OnAddr(addr: nat)

  const NO_PARENT := -1
  const TIME_SLICE := 10000000

  /** `embryo` is the child a process is still building inside fork. */
  datatype Proc = Proc(state: State, pid: int, parent: int, chan: Chan, killed: bool,
                       priority: int, weight: int, embryo: Option<nat>)

  /** `exited` and `reaped` record the pids passed to exit and returned by wait. */
  datatype Sys = Sys(procs: seq<Proc>, min: int, weight: int, nextpid: int,
                     running: Option<nat>, init: nat, exited: seq<int>, reaped: seq<int>)

  /** C division of TIME_SLICE, which truncates toward zero. No process ever has
      weight 0 (`ProcInv.PidAt` says so), so the value given to it is never used. */
  function Stride(weight: int): int {
    if weight > 0 then TIME_SLICE / weight
    else if weight < 0 then -(TIME_SLICE / -weight)
    else 0
  }

  /** It is the quotient, and has the sign of the weight. */
  lemma StrideIs(weight: int)
    ensures var d := Stride(weight);
      && (weight > 0 ==> 0 <= d && d * weight <= TIME_SLICE < (d + 1) * weight)
      && (weight < 0 ==> d <= 0 && d * weight <= TIME_SLICE < (d - 1) * weight)
  {
    if weight < 0 {
      var q := TIME_SLICE / -weight;
      assert q * -weight <= TIME_SLICE < (q + 1) * -weight;
    }
  }

  predicate LiveState(st: State) { st == SLEEPING || st == RUNNABLE || st == RUNNING }

  predicate Alive(ps: seq<Proc>, i: int) {
    0 <= i < |ps| && LiveState(ps[i].state)
  }

  // ------------------------------------------------------------------- scans

  /** wakeup1 on one entry. */
  function Woken(p: Proc, chan: Chan, min: int): Proc {
    if p.state == SLEEPING && p.chan == chan then p.(state := RUNNABLE, priority := min) else p
  }

  function Wakeup1(ps: seq<Proc>, chan: Chan, min: int): (r: seq<Proc>)
    ensures |r| == |ps| && forall i :: 0 <= i < |ps| ==> r[i] == Woken(ps[i], chan, min)
  {
    seq(|ps|, i requires 0 <= i < |ps| => Woken(ps[i], chan, min))
  }

  /** The first RUNNABLE entry of the given priority at or after `i`, or |ps|. */
  function FirstOfPriority(ps: seq<Proc>, min: int, i: nat): (r: nat)
    requires i <= |ps|
    ensures i <= r <= |ps|
    ensures r < |ps| ==> ps[r].state == RUNNABLE && ps[r].priority == min
    ensures forall k :: i <= k < r ==> !(ps[k].state == RUNNABLE && ps[k].priority == min)
    decreases |ps| - i
  {
    if i == |ps| || (ps[i].state == RUNNABLE && ps[i].priority == min) then i
    else FirstOfPriority(ps, min, i + 1)
  }

  /** The least priority of a RUNNABLE entry, if there is one. */
  function LeastPriority(ps: seq<Proc>): (r: Option<int>)
    ensures r.None? <==> forall i :: 0 <= i < |ps| ==> ps[i].state != RUNNABLE
    ensures r.Some? ==> exists i :: 0 <= i < |ps| && ps[i].state == RUNNABLE && ps[i].priority == r.value
    ensures r.Some? ==> forall i :: 0 <= i < |ps| && ps[i].state == RUNNABLE ==> r.value <= ps[i].priority
  {
    if ps == [] then None
    else
      var rest, p := LeastPriority(ps[..|ps|-1]), ps[|ps|-1];
      if p.state == RUNNABLE && (rest.None? || p.priority < rest.value) then Some(p.priority) else rest
  }

  function FirstZombieChild(ps: seq<Proc>, cur: int, i: nat): (r: nat)
    requires i <= |ps|
    ensures i <= r <= |ps|
    ensures r < |ps| ==> ps[r].parent == cur && ps[r].state == ZOMBIE
    ensures forall k :: i <= k < r ==> !(ps[k].parent == cur && ps[k].state == ZOMBIE)
    decreases |ps| - i
  {
    if i == |ps| || (ps[i].parent == cur && ps[i].state == ZOMBIE) then i
    else FirstZombieChild(ps, cur, i + 1)
  }

  predicate HasKids(ps: seq<Proc>, cur: int) {
    exists i :: 0 <= i < |ps| && ps[i].parent == cur
  }

  predicate HasZombieKids(ps: seq<Proc>, cur: int) {
    exists i :: 0 <= i < |ps| && ps[i].parent == cur && ps[i].state == ZOMBIE
  }

  function FirstUnused(ps: seq<Proc>, i: nat): (r: nat)
    requires i <= |ps|
    ensures i <= r <= |ps|
    ensures r < |ps| ==> ps[r].state == UNUSED
    ensures forall k :: i <= k < r ==> ps[k].state != UNUSED
    decreases |ps| - i
  {
    if i == |ps| || ps[i].state == UNUSED then i else FirstUnused(ps, i + 1)
  }

  function FirstWithPid(ps: seq<Proc>, pid: int, i: nat): (r: nat)
    requires i <= |ps|
    ensures i <= r <= |ps|
    ensures r < |ps| ==> ps[r].pid == pid
    ensures forall k :: i <= k < r ==> ps[k].pid != pid
    decreases |ps| - i
  {
    if i == |ps| || ps[i].pid == pid then i else FirstWithPid(ps, pid, i + 1)
  }

  function Adopted(p: Proc, cur: int, init: nat): Proc {
    if p.parent == cur then p.(parent := init) else p
  }

  function Reparent(ps: seq<Proc>, cur: int, init: nat): (r: seq<Proc>)
    ensures |r| == |ps| && forall i :: 0 <= i < |ps| ==> r[i] == Adopted(ps[i], cur, init)
  {
    seq(|ps|, i requires 0 <= i < |ps| => Adopted(ps[i], cur, init))
  }

  // ------------------------------------------------------------------- steps

  datatype Step =
    | Schedule | Yield | Sleep(addr: nat) | Exit | Wait
    | Alloc | ForkFail | ForkParent | ForkDone
    | Wakeup(chan: Chan) | Kill(pid: int) | WeightSet(w: int)

  /** Who may take a step: the scheduler when no process runs, interrupts at any time,
      and the running process; a process inside fork neither exits nor waits. */
  predicate Enabled(s: Sys, step: Step) {
    if step.Wakeup? then true
    else if step.Schedule? then s.running.None?
    else
      && s.running.Some? && s.running.value < |s.procs|
      && var p := s.procs[s.running.value];
      && match step
         case Exit => s.running.value != s.init && p.embryo.None?
         case Wait => p.embryo.None?
         case Alloc => p.embryo.None?
         case ForkFail => p.embryo.Some? && p.embryo.value < |s.procs| && s.procs[p.embryo.value].parent == NO_PARENT
         case ForkParent => p.embryo.Some? && p.embryo.value < |s.procs|
         case ForkDone => p.embryo.Some? && p.embryo.value < |s.procs|
                          && s.procs[p.embryo.value].parent == s.running.value
         case WeightSet(w) => w != 0
         case _ => true
  }

  /** A process that has paid for its time slice. */
  function Charged(p: Proc): Proc { p.(priority := p.priority + Stride(p.weight)) }

  /** What the scheduler does when the running process has switched back to it. */
  function Tail(s: Sys): Sys
    requires s.running.Some? && s.running.value < |s.procs|
  {
    var r := s.running.value;
    var ps := s.procs[r := Charged(s.procs[r])];
    var least := LeastPriority(ps);
    s.(procs := ps, min := if least.Some? then least.value else s.min, running := None)
  }

  function Apply(s: Sys, step: Step): Sys
    requires Enabled(s, step)
  {
    match step
    case Wakeup(chan) => s.(procs := Wakeup1(s.procs, chan, s.min))
    case Schedule => ApplySchedule(s)
    case Yield => Tail(s.(procs := SetState(s.procs, s.running.value, RUNNABLE)))
    case Sleep(addr) => ApplySleep(s, OnAddr(addr))
    case Exit => ApplyExit(s)
    case Wait => ApplyWait(s)
    case Alloc => ApplyAlloc(s)
    case ForkFail => ApplyFork(s, UNUSED)
    case ForkParent =>
      var r := s.running.value;
      var e := s.procs[r].embryo.value;
      s.(procs := s.procs[e := s.procs[e].(parent := r)])
    case ForkDone => ApplyFork(s, RUNNABLE)
    case Kill(pid) => ApplyKill(s, pid)
    case WeightSet(w) =>
      s.(procs := s.procs[s.running.value := s.procs[s.running.value].(weight := w)])
  }

  function SetState(ps: seq<Proc>, i: nat, st: State): seq<Proc>
    requires i < |ps|
  {
    ps[i := ps[i].(state := st)]
  }

  function ApplySchedule(s: Sys): Sys {
    var r := FirstOfPriority(s.procs, s.min, 0);
    if r == |s.procs| then s
    else s.(procs := s.procs[r := s.procs[r].(state := RUNNING, chan := NoChan)], running := Some(r))
  }

  function ApplySleep(s: Sys, chan: Chan): Sys
    requires s.running.Some? && s.running.value < |s.procs|
  {
    var r := s.running.value;
    Tail(s.(procs := s.procs[r := s.procs[r].(state := SLEEPING, chan := chan)]))
  }

  function ParentChan(p: Proc): Chan {
    if p.parent >= 0 then OnProc(p.parent) else NoChan
  }

  /** The part of exit before the switch: wake the parent, hand the children to init. */
  function ExitTable(s: Sys): seq<Proc>
    requires s.running.Some? && s.running.value < |s.procs|
  {
    var r := s.running.value;
    var ps := Wakeup1(s.procs, ParentChan(s.procs[r]), s.min);
    var ps' := Reparent(ps, r, s.init);
    var ps'' := if HasZombieKids(ps, r) then Wakeup1(ps', OnProc(s.init), s.min) else ps';
    SetState(ps'', r, ZOMBIE)
  }

  function ApplyExit(s: Sys): Sys
    requires s.running.Some? && s.running.value < |s.procs|
  {
    var r := s.running.value;
    var ps := ExitTable(s);
    Tail(s.(procs := ps, exited := s.exited + [s.procs[r].pid]))
  }

  function Reaped(p: Proc): Proc {
    p.(state := UNUSED, pid := 0, parent := NO_PARENT, killed := false)
  }

  function ApplyWait(s: Sys): Sys
    requires s.running.Some? && s.running.value < |s.procs|
  {
    var r := s.running.value;
    var z := FirstZombieChild(s.procs, r, 0);
    if z < |s.procs| then
      s.(procs := s.procs[z := Reaped(s.procs[z])], reaped := s.reaped + [s.procs[z].pid])
    else if !HasKids(s.procs, r) || s.procs[r].killed then s
    else ApplySleep(s, OnProc(r))
  }

  function ApplyAlloc(s: Sys): Sys
    requires s.running.Some? && s.running.value < |s.procs|
  {
    var r, e := s.running.value, FirstUnused(s.procs, 0);
    if e == |s.procs| then s
    else
      var child := s.procs[e].(state := EMBRYO, pid := s.nextpid, weight := s.weight, priority := s.min);
      var ps := s.procs[e := child];
      s.(procs := ps[r := ps[r].(embryo := Some(e))],
         nextpid := s.nextpid + 1, weight := s.weight + 1)
  }

  function ApplyFork(s: Sys, st: State): Sys
    requires s.running.Some? && s.running.value < |s.procs|
    requires s.procs[s.running.value].embryo.Some? && s.procs[s.running.value].embryo.value < |s.procs|
  {
    var r := s.running.value;
    var ps := SetState(s.procs, s.procs[r].embryo.value, st);
    s.(procs := ps[r := ps[r].(embryo := None)])
  }

  function ApplyKill(s: Sys, pid: int): Sys {
    var i := FirstWithPid(s.procs, pid, 0);
    if i == |s.procs| then s
    else
      var p := s.procs[i];
      s.(procs := s.procs[i := p.(killed := true, state := if p.state == SLEEPING then RUNNABLE else p.state)])
  }

  /** The state once the steps were taken in order. */
  ghost predicate Run(s: Sys, steps: seq<Step>, t: Sys)
    decreases |steps|
  {
    if steps == [] then s == t
    else Enabled(s, steps[0]) && Run(Apply(s, steps[0]), steps[1..], t)
  }

  /** After userinit: one process, RUNNABLE at priority 3, in slot 0. */
  function Boot(n: nat): Sys
    requires n > 0
  {
    var free := Proc(UNUSED, 0, NO_PARENT, NoChan, false, 0, 0, None);
    Sys(seq(n, i => if i == 0 then Proc(RUNNABLE, 1, NO_PARENT, NoChan, false, 3, 1, None) else free),
        3, 2, 2, None, 0, [], [])
  }
}
