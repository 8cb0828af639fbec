/** What every step of the process machine keeps: the process tree, the exact minimum
    priority, and that every exit is reported by exactly one wait. */
module ProcInv {
  import opened Common
  import opened ProcSpec

  // -------------------------------------------------------------- invariants

  /** The parent of every process is alive; only init and half-built children lack one. */
  ghost predicate TreeAt(ps: seq<Proc>, init: nat, i: nat)
    requires i < |ps|
  {
    && (ps[i].state != UNUSED && ps[i].parent != NO_PARENT ==> Alive(ps, ps[i].parent))
    && (ps[i].state == UNUSED || i == init ==> ps[i].parent == NO_PARENT)
    && ps[i].parent != i
    && ((LiveState(ps[i].state) || ps[i].state == ZOMBIE) && i != init ==> ps[i].parent != NO_PARENT)
  }

  /** A process inside fork is alive, and its EMBRYO points back to it or has no parent yet. */
  ghost predicate EmbryoAt(ps: seq<Proc>, i: nat)
    requires i < |ps|
  {
    && (ps[i].embryo.Some? ==>
         && LiveState(ps[i].state) && ps[i].embryo.value < |ps|
         && var e := ps[i].embryo.value;
            ps[e].state == EMBRYO && (ps[e].parent == NO_PARENT || ps[e].parent == i))
    && (ps[i].state == EMBRYO && ps[i].parent != NO_PARENT ==>
         0 <= ps[i].parent < |ps| && ps[ps[i].parent].embryo == Some(i))
  }

  /** No other entry, not even a free one, has the pid of a process; two processes do not share
      an EMBRYO, and neither misses the other's exit. */
  ghost predicate PairAt(ps: seq<Proc>, i: nat, j: nat)
    requires i < |ps| && j < |ps|
  {
    && (i != j && ps[i].embryo.Some? ==> ps[i].embryo != ps[j].embryo)
    && (i != j && ps[j].state != UNUSED ==> ps[i].pid != ps[j].pid)
    && (ps[i].state == SLEEPING && ps[i].chan == OnProc(i) && ps[j].state == ZOMBIE ==> ps[j].parent != i)
  }

  /** A process has a pid handed out before and a weight that can be divided by;
      its pid has exited exactly when it is a ZOMBIE, and was not returned by wait yet. */
  ghost predicate PidAt(s: Sys, i: nat)
    requires i < |s.procs|
  {
    var p := s.procs[i];
    && p.pid < s.nextpid && (p.state != UNUSED ==> 0 < p.pid && p.weight != 0)
    && (p.state == ZOMBIE ==> p.pid in s.exited && p.pid !in s.reaped)
    && (p.state != ZOMBIE && p.state != UNUSED ==> p.pid !in s.exited)
  }

  ghost predicate IsZombie(ps: seq<Proc>, i: int, pid: int) {
    0 <= i < |ps| && ps[i].state == ZOMBIE && ps[i].pid == pid
  }

  /** An exit that no wait has returned yet is still there as a ZOMBIE. */
  ghost predicate PendingAt(s: Sys, pid: int) {
    pid in s.exited && pid !in s.reaped ==> exists i :: IsZombie(s.procs, i, pid)
  }

  ghost predicate Core(s: Sys) {
    && Alive(s.procs, s.init) && s.weight > 0 && s.nextpid > 0
    && (forall i :: 0 <= i < |s.procs| ==> TreeAt(s.procs, s.init, i))
    && (forall i :: 0 <= i < |s.procs| ==> EmbryoAt(s.procs, i))
    && (forall i, j :: 0 <= i < |s.procs| && 0 <= j < |s.procs| ==> PairAt(s.procs, i, j))
    && (forall i :: 0 <= i < |s.procs| ==> PidAt(s, i))
    && (forall pid :: PendingAt(s, pid))
    && Distinct(s.exited) && Distinct(s.reaped)
    && (forall pid :: pid in s.exited ==> pid < s.nextpid)
    && (forall pid :: pid in s.reaped ==> pid in s.exited)
  }

  /** Exactly the running process is RUNNING. */
  ghost predicate OneRunning(ps: seq<Proc>, running: Option<nat>) {
    && (running.Some? ==> running.value < |ps| && ps[running.value].state == RUNNING)
    && (forall i :: 0 <= i < |ps| && ps[i].state == RUNNING ==> running == Some(i))
  }

  ghost predicate LeastAt(ps: seq<Proc>, i: int, min: int) {
    0 <= i < |ps| && ps[i].state == RUNNABLE && ps[i].priority == min
  }

  /** With some process RUNNABLE, `min` is the least RUNNABLE priority. */
  ghost predicate ExactMin(ps: seq<Proc>, min: int) {
    forall i :: 0 <= i < |ps| && ps[i].state == RUNNABLE ==>
      min <= ps[i].priority && exists k :: LeastAt(ps, k, min)
  }

  ghost predicate Inv(s: Sys) {
    && Core(s)
    && OneRunning(s.procs, s.running)
    && (s.running.None? ==> ExactMin(s.procs, s.min))
  }

  // -------------------------------------------- entries that differ harmlessly

  /** `q` is `p` up to priority, chan, killed, weight and a switch among the live states,
      and does not newly sleep in wait. */
  ghost predicate Similar(p: Proc, q: Proc, i: nat) {
    && q.pid == p.pid && q.parent == p.parent && q.embryo == p.embryo
    && (p.state != UNUSED && p.weight != 0 ==> q.weight != 0)
    && (q.state == p.state || (LiveState(p.state) && LiveState(q.state)))
    && (q.state == SLEEPING && q.chan == OnProc(i) ==> p.state == SLEEPING && p.chan == OnProc(i))
  }

  lemma SimilarCore(s: Sys, t: Sys)
    requires Core(s) && |t.procs| == |s.procs|
    requires forall i :: 0 <= i < |s.procs| ==> Similar(s.procs[i], t.procs[i], i)
    requires t == s.(procs := t.procs, min := t.min, running := t.running)
    ensures Core(t)
  {
    var ps, qs := s.procs, t.procs;
    forall i | 0 <= i < |ps|
      ensures TreeAt(qs, t.init, i) && EmbryoAt(qs, i) && PidAt(t, i)
    {
      assert TreeAt(ps, s.init, i) && EmbryoAt(ps, i) && PidAt(s, i) && Similar(ps[i], qs[i], i);
    }
    forall i, j | 0 <= i < |ps| && 0 <= j < |ps| ensures PairAt(qs, i, j) {
      assert PairAt(ps, i, j) && Similar(ps[i], qs[i], i) && Similar(ps[j], qs[j], j);
    }
    forall pid ensures PendingAt(t, pid) {
      assert PendingAt(s, pid);
      if pid in s.exited && pid !in s.reaped {
        var i :| IsZombie(ps, i, pid);
        assert Similar(ps[i], qs[i], i) && IsZombie(qs, i, pid);
      }
    }
  }

  // ------------------------------------------------------------------ the tail

  lemma LeastIsExact(ps: seq<Proc>, min: int)
    requires LeastPriority(ps).Some? ==> min == LeastPriority(ps).value
    ensures ExactMin(ps, min)
  {
    if LeastPriority(ps).Some? {
      var k :| 0 <= k < |ps| && ps[k].state == RUNNABLE && ps[k].priority == LeastPriority(ps).value;
      assert LeastAt(ps, k, min);
    }
  }

  /** Handing the CPU back establishes the exact minimum. */
  lemma TailInv(s: Sys)
    requires Core(s) && s.running.Some? && s.running.value < |s.procs|
    requires forall i :: 0 <= i < |s.procs| ==> s.procs[i].state != RUNNING
    ensures Inv(Tail(s)) && Tail(s).running == None
  {
    var t := Tail(s);
    SimilarCore(s, t);
    LeastIsExact(t.procs, t.min);
  }

  lemma SetAsideInv(s: Sys, p: Proc)
    requires Inv(s) && s.running.Some? && p.state != RUNNING
    requires var t := s.(procs := s.procs[s.running.value := p]); Core(t)
    ensures Inv(Tail(s.(procs := s.procs[s.running.value := p])))
  {
    TailInv(s.(procs := s.procs[s.running.value := p]));
  }

  lemma YieldInv(s: Sys)
    requires Inv(s) && Enabled(s, Yield)
    ensures Inv(Apply(s, Yield))
  {
    var p := s.procs[s.running.value].(state := RUNNABLE);
    SimilarCore(s, s.(procs := s.procs[s.running.value := p]));
    SetAsideInv(s, p);
  }

  lemma SleepInv(s: Sys, addr: nat)
    requires Inv(s) && Enabled(s, Sleep(addr))
    ensures Inv(Apply(s, Sleep(addr)))
  {
    var p := s.procs[s.running.value].(state := SLEEPING, chan := OnAddr(addr));
    SimilarCore(s, s.(procs := s.procs[s.running.value := p]));
    SetAsideInv(s, p);
  }

  // --------------------------------------------------- scheduler and interrupts

  /** The equality scan finds a process exactly when one is RUNNABLE, and one of least priority. */
  lemma ScanFinds(ps: seq<Proc>, min: int)
    requires ExactMin(ps, min)
    ensures var r := FirstOfPriority(ps, min, 0);
      && (r < |ps| <==> exists i :: 0 <= i < |ps| && ps[i].state == RUNNABLE)
      && (r < |ps| ==> forall i :: 0 <= i < |ps| && ps[i].state == RUNNABLE ==> ps[r].priority <= ps[i].priority)
  {
    if i :| 0 <= i < |ps| && ps[i].state == RUNNABLE {
      var k :| LeastAt(ps, k, min);
    }
  }

  lemma ScheduleInv(s: Sys)
    requires Inv(s) && Enabled(s, Schedule)
    ensures Inv(Apply(s, Schedule))
  {
    var r := FirstOfPriority(s.procs, s.min, 0);
    if r < |s.procs| {
      SimilarCore(s, Apply(s, Schedule));
    }
  }

  lemma WakeupMin(ps: seq<Proc>, chan: Chan, min: int)
    requires ExactMin(ps, min)
    ensures ExactMin(Wakeup1(ps, chan, min), min)
  {
    var qs := Wakeup1(ps, chan, min);
    forall i | 0 <= i < |qs| && qs[i].state == RUNNABLE
      ensures min <= qs[i].priority && exists k :: LeastAt(qs, k, min)
    {
      assert qs[i] == Woken(ps[i], chan, min);
      if ps[i].state == RUNNABLE {
        var k :| LeastAt(ps, k, min);
        assert qs[k] == Woken(ps[k], chan, min) && LeastAt(qs, k, min);
      } else {
        assert LeastAt(qs, i, min);
      }
    }
  }

  lemma WakeupInv(s: Sys, chan: Chan)
    requires Inv(s)
    ensures Inv(Apply(s, Wakeup(chan)))
  {
    var t := Apply(s, Wakeup(chan));
    forall i | 0 <= i < |s.procs|
      ensures Similar(s.procs[i], t.procs[i], i) && (t.procs[i].state == RUNNING <==> s.procs[i].state == RUNNING)
    {
      assert t.procs[i] == Woken(s.procs[i], chan, s.min);
    }
    SimilarCore(s, t);
    if s.running.None? { WakeupMin(s.procs, chan, s.min); }
  }

  /** Steps of the running process that change one entry harmlessly. */
  lemma EntryInv(s: Sys, i: nat, q: Proc)
    requires Inv(s) && s.running.Some? && i < |s.procs| && Similar(s.procs[i], q, i)
    requires q.state == RUNNING <==> s.procs[i].state == RUNNING
    ensures Inv(s.(procs := s.procs[i := q]))
  {
    SimilarCore(s, s.(procs := s.procs[i := q]));
  }

  lemma KillInv(s: Sys, pid: int)
    requires Inv(s) && Enabled(s, Kill(pid))
    ensures Inv(Apply(s, Kill(pid)))
  {
    var i := FirstWithPid(s.procs, pid, 0);
    if i < |s.procs| {
      EntryInv(s, i, Apply(s, Kill(pid)).procs[i]);
    }
  }

  lemma WeightSetInv(s: Sys, w: int)
    requires Inv(s) && Enabled(s, WeightSet(w))
    ensures Inv(Apply(s, WeightSet(w)))
  {
    EntryInv(s, s.running.value, s.procs[s.running.value].(weight := w));
  }

  // ---------------------------------------------------------------------- fork

  lemma SamePending(s: Sys, t: Sys)
    requires forall pid :: PendingAt(s, pid)
    requires t.exited == s.exited && t.reaped == s.reaped
    requires forall i :: 0 <= i < |s.procs| && s.procs[i].state == ZOMBIE ==>
      i < |t.procs| && t.procs[i].state == ZOMBIE && t.procs[i].pid == s.procs[i].pid
    ensures forall pid :: PendingAt(t, pid)
  {
    forall pid ensures PendingAt(t, pid) {
      assert PendingAt(s, pid);
      if pid in s.exited && pid !in s.reaped {
        var i :| IsZombie(s.procs, i, pid);
        assert IsZombie(t.procs, i, pid);
      }
    }
  }

  lemma AllocEntries(s: Sys, t: Sys, r: nat, e: nat)
    requires Core(s) && e < |s.procs| && r < |s.procs| && |t.procs| == |s.procs|
    requires s.procs[e].state == UNUSED && LiveState(s.procs[r].state) && s.procs[r].embryo.None?
    requires t.procs[e] == s.procs[e].(state := EMBRYO, pid := s.nextpid, weight := s.weight, priority := s.min)
    requires t.procs[r] == s.procs[r].(embryo := Some(e))
    requires forall i :: 0 <= i < |s.procs| && i != e && i != r ==> t.procs[i] == s.procs[i]
    requires t.init == s.init && t.nextpid == s.nextpid + 1 && t.exited == s.exited && t.reaped == s.reaped
    ensures forall i :: 0 <= i < |t.procs| ==> TreeAt(t.procs, t.init, i) && EmbryoAt(t.procs, i) && PidAt(t, i)
  {
    var ps, qs := s.procs, t.procs;
    assert EmbryoAt(ps, e) && TreeAt(ps, s.init, e);
    forall i | 0 <= i < |ps| ensures TreeAt(qs, t.init, i) && EmbryoAt(qs, i) && PidAt(t, i) {
      assert TreeAt(ps, s.init, i) && EmbryoAt(ps, i) && PidAt(s, i);
    }
  }

  lemma AllocPairs(s: Sys, t: Sys, r: nat, e: nat)
    requires Core(s) && e < |s.procs| && r < |s.procs| && |t.procs| == |s.procs|
    requires s.procs[e].state == UNUSED && LiveState(s.procs[r].state) && s.procs[r].embryo.None?
    requires t.procs[e] == s.procs[e].(state := EMBRYO, pid := s.nextpid, weight := s.weight, priority := s.min)
    requires t.procs[r] == s.procs[r].(embryo := Some(e))
    requires forall i :: 0 <= i < |s.procs| && i != e && i != r ==> t.procs[i] == s.procs[i]
    ensures forall i, j :: 0 <= i < |t.procs| && 0 <= j < |t.procs| ==> PairAt(t.procs, i, j)
  {
    var ps, qs := s.procs, t.procs;
    forall i, j | 0 <= i < |ps| && 0 <= j < |ps| ensures PairAt(qs, i, j) {
      assert PairAt(ps, i, j) && PidAt(s, i) && PidAt(s, j) && EmbryoAt(ps, i) && EmbryoAt(ps, j);
      assert EmbryoAt(ps, e);
    }
  }

  lemma AllocInv(s: Sys)
    requires Inv(s) && Enabled(s, Alloc)
    ensures Inv(Apply(s, Alloc))
  {
    var t, r, e := Apply(s, Alloc), s.running.value, FirstUnused(s.procs, 0);
    if e < |s.procs| {
      AllocEntries(s, t, r, e);
      AllocPairs(s, t, r, e);
      SamePending(s, t);
    }
  }

  lemma ForkParentInv(s: Sys)
    requires Inv(s) && Enabled(s, ForkParent)
    ensures Inv(Apply(s, ForkParent))
  {
    var t, r := Apply(s, ForkParent), s.running.value;
    var e, ps, qs := s.procs[r].embryo.value, s.procs, t.procs;
    assert EmbryoAt(ps, r);
    forall i | 0 <= i < |ps| ensures TreeAt(qs, t.init, i) && EmbryoAt(qs, i) && PidAt(t, i) {
      assert TreeAt(ps, s.init, i) && EmbryoAt(ps, i) && PidAt(s, i) && PairAt(ps, i, r);
    }
    forall i, j | 0 <= i < |ps| && 0 <= j < |ps| ensures PairAt(qs, i, j) {
      assert PairAt(ps, i, j);
    }
    SamePending(s, t);
  }

  lemma ForkEndEntries(s: Sys, t: Sys, r: nat, e: nat)
    requires Core(s) && r < |s.procs| && e < |s.procs| && e != r && |t.procs| == |s.procs|
    requires LiveState(s.procs[r].state) && s.procs[r].embryo == Some(e)
    requires t.procs[r] == s.procs[r].(embryo := None)
    requires || (t.procs[e] == s.procs[e].(state := RUNNABLE) && s.procs[e].parent == r)
             || (t.procs[e] == s.procs[e].(state := UNUSED) && s.procs[e].parent == NO_PARENT)
    requires forall i :: 0 <= i < |s.procs| && i != e && i != r ==> t.procs[i] == s.procs[i]
    requires t == s.(procs := t.procs)
    ensures Core(t)
  {
    var ps, qs := s.procs, t.procs;
    assert EmbryoAt(ps, r) && EmbryoAt(ps, e);
    forall i | 0 <= i < |ps| ensures TreeAt(qs, t.init, i) && EmbryoAt(qs, i) && PidAt(t, i) {
      assert TreeAt(ps, s.init, i) && EmbryoAt(ps, i) && PidAt(s, i) && PairAt(ps, i, r) && PairAt(ps, r, i);
    }
    forall i, j | 0 <= i < |ps| && 0 <= j < |ps| ensures PairAt(qs, i, j) {
      assert PairAt(ps, i, j);
    }
    SamePending(s, t);
  }

  lemma ForkEndInv(s: Sys, step: Step)
    requires Inv(s) && Enabled(s, step) && (step == ForkFail || step == ForkDone)
    ensures Inv(Apply(s, step))
  {
    var t, r := Apply(s, step), s.running.value;
    assert EmbryoAt(s.procs, r);
    ForkEndEntries(s, t, r, s.procs[r].embryo.value);
  }

  // ---------------------------------------------------------------------- exit

  /** What exit leaves of one entry. */
  ghost predicate ExitAt(ps: seq<Proc>, qs: seq<Proc>, r: nat, init: nat, i: nat)
    requires r < |ps| && i < |ps| == |qs|
  {
    var p, q := ps[i], qs[i];
    && q.pid == p.pid && q.embryo == p.embryo && q.weight == p.weight && q.chan == p.chan
    && q.parent == (if p.parent == r then init else p.parent)
    && (i == r ==> q.state == ZOMBIE)
    && (i != r ==> q.state == p.state || (p.state == SLEEPING && q.state == RUNNABLE))
    && (i != r && p.state == SLEEPING && p.chan == ParentChan(ps[r]) ==> q.state == RUNNABLE)
    && (i != r && p.state == SLEEPING && p.chan == OnProc(init) && HasZombieKids(ps, r) ==> q.state == RUNNABLE)
  }

  lemma SameZombieKids(ps: seq<Proc>, chan: Chan, min: int, r: int)
    ensures HasZombieKids(Wakeup1(ps, chan, min), r) <==> HasZombieKids(ps, r)
  {
    var qs := Wakeup1(ps, chan, min);
    forall i | 0 <= i < |ps|
      ensures qs[i].parent == ps[i].parent && (qs[i].state == ZOMBIE <==> ps[i].state == ZOMBIE)
    {
      assert qs[i] == Woken(ps[i], chan, min);
    }
    if HasZombieKids(ps, r) {
      var i :| 0 <= i < |ps| && ps[i].parent == r && ps[i].state == ZOMBIE;
      assert qs[i].parent == r && qs[i].state == ZOMBIE;
    }
  }

  lemma ExitEntry(s: Sys, i: nat)
    requires s.running.Some? && s.running.value < |s.procs| && i < |s.procs|
    ensures |ExitTable(s)| == |s.procs| && ExitAt(s.procs, ExitTable(s), s.running.value, s.init, i)
  {
    var r := s.running.value;
    var ps := Wakeup1(s.procs, ParentChan(s.procs[r]), s.min);
    assert ps[i] == Woken(s.procs[i], ParentChan(s.procs[r]), s.min);
    SameZombieKids(s.procs, ParentChan(s.procs[r]), s.min, r);
    var ps' := Reparent(ps, r, s.init);
    assert ps'[i] == Adopted(ps[i], r, s.init);
    if HasZombieKids(ps, r) {
      assert Wakeup1(ps', OnProc(s.init), s.min)[i] == Woken(ps'[i], OnProc(s.init), s.min);
    }
  }

  lemma ExitEntries(s: Sys, t: Sys, r: nat)
    requires Core(s) && r < |s.procs| && s.procs[r].state == RUNNING && s.procs[r].embryo.None? && r != s.init
    requires |t.procs| == |s.procs| && forall i :: 0 <= i < |s.procs| ==> ExitAt(s.procs, t.procs, r, s.init, i)
    requires t == s.(procs := t.procs, exited := s.exited + [s.procs[r].pid])
    ensures Alive(t.procs, t.init)
    ensures forall i :: 0 <= i < |t.procs| ==> TreeAt(t.procs, t.init, i) && EmbryoAt(t.procs, i) && PidAt(t, i)
  {
    var ps, qs := s.procs, t.procs;
    assert ExitAt(ps, qs, r, s.init, s.init);
    assert PidAt(s, r);
    forall i | 0 <= i < |ps| ensures TreeAt(qs, t.init, i) && EmbryoAt(qs, i) && PidAt(t, i) {
      assert TreeAt(ps, s.init, i) && EmbryoAt(ps, i) && PidAt(s, i);
      assert PairAt(ps, i, r) && ExitAt(ps, qs, r, s.init, i);
      if ps[i].embryo.Some? { assert ExitAt(ps, qs, r, s.init, ps[i].embryo.value); }
      if 0 <= ps[i].parent < |ps| { assert ExitAt(ps, qs, r, s.init, ps[i].parent); }
    }
  }

  lemma ExitPairs(s: Sys, t: Sys, r: nat)
    requires Core(s) && r < |s.procs| && s.procs[r].state == RUNNING
    requires |t.procs| == |s.procs| && forall i :: 0 <= i < |s.procs| ==> ExitAt(s.procs, t.procs, r, s.init, i)
    ensures forall i, j :: 0 <= i < |t.procs| && 0 <= j < |t.procs| ==> PairAt(t.procs, i, j)
  {
    var ps, qs := s.procs, t.procs;
    assert TreeAt(ps, s.init, r);
    forall i, j | 0 <= i < |ps| && 0 <= j < |ps| ensures PairAt(qs, i, j) {
      assert PairAt(ps, i, j) && ExitAt(ps, qs, r, s.init, i) && ExitAt(ps, qs, r, s.init, j);
      if qs[i].state == SLEEPING && qs[i].chan == OnProc(i) && qs[j].state == ZOMBIE && j != r && ps[j].parent == r {
        assert HasZombieKids(ps, r);
      }
    }
  }

  lemma ExitPending(s: Sys, t: Sys, r: nat)
    requires Core(s) && r < |s.procs| && s.procs[r].state == RUNNING
    requires |t.procs| == |s.procs| && forall i :: 0 <= i < |s.procs| ==> ExitAt(s.procs, t.procs, r, s.init, i)
    requires t == s.(procs := t.procs, exited := s.exited + [s.procs[r].pid])
    ensures forall pid :: PendingAt(t, pid)
    ensures Distinct(t.exited) && forall pid :: pid in t.exited ==> pid < t.nextpid
  {
    assert PidAt(s, r);
    forall pid ensures PendingAt(t, pid) {
      assert PendingAt(s, pid);
      if pid == s.procs[r].pid {
        assert ExitAt(s.procs, t.procs, r, s.init, r) && IsZombie(t.procs, r, pid);
      } else if pid in t.exited && pid !in t.reaped {
        assert pid in s.exited;
        var i :| IsZombie(s.procs, i, pid);
        assert ExitAt(s.procs, t.procs, r, s.init, i) && IsZombie(t.procs, i, pid);
      }
    }
  }

  lemma ExitInv(s: Sys)
    requires Inv(s) && Enabled(s, Exit)
    ensures Inv(Apply(s, Exit))
  {
    var r := s.running.value;
    var t := s.(procs := ExitTable(s), exited := s.exited + [s.procs[r].pid]);
    forall i | 0 <= i < |s.procs| ensures |t.procs| == |s.procs| && ExitAt(s.procs, t.procs, r, s.init, i) {
      ExitEntry(s, i);
    }
    ExitEntries(s, t, r);
    ExitPairs(s, t, r);
    ExitPending(s, t, r);
    TailInv(t);
  }

  // ---------------------------------------------------------------------- wait

  lemma ReapCore(s: Sys, z: nat)
    requires Core(s) && z < |s.procs| && s.procs[z].state == ZOMBIE
    ensures Core(s.(procs := s.procs[z := Reaped(s.procs[z])], reaped := s.reaped + [s.procs[z].pid]))
  {
    var ps, pid0 := s.procs, s.procs[z].pid;
    var t := s.(procs := ps[z := Reaped(ps[z])], reaped := s.reaped + [pid0]);
    var qs := t.procs;
    assert EmbryoAt(ps, z) && PidAt(s, z);
    forall i | 0 <= i < |ps| ensures TreeAt(qs, t.init, i) && EmbryoAt(qs, i) && PidAt(t, i) {
      assert TreeAt(ps, s.init, i) && EmbryoAt(ps, i) && PidAt(s, i) && PairAt(ps, i, z);
    }
    forall i, j | 0 <= i < |ps| && 0 <= j < |ps| ensures PairAt(qs, i, j) {
      assert PairAt(ps, i, j) && EmbryoAt(ps, i) && EmbryoAt(ps, j) && PidAt(s, j);
    }
    ReapPending(s, z, t);
  }

  lemma ReapPending(s: Sys, z: nat, t: Sys)
    requires forall pid :: PendingAt(s, pid)
    requires z < |s.procs| && s.procs[z].state == ZOMBIE
    requires t == s.(procs := s.procs[z := Reaped(s.procs[z])], reaped := s.reaped + [s.procs[z].pid])
    ensures forall pid :: PendingAt(t, pid)
  {
    forall pid ensures PendingAt(t, pid) {
      assert PendingAt(s, pid);
      assert t.reaped[|s.reaped|] == s.procs[z].pid;
      if pid in t.exited && pid !in t.reaped {
        assert pid in s.reaped ==> pid in t.reaped;
        var i :| IsZombie(s.procs, i, pid);
        assert i != z && IsZombie(t.procs, i, pid);
      }
    }
  }

  lemma WaitSleepCore(s: Sys, r: nat)
    requires Core(s) && r < |s.procs| && s.procs[r].state == RUNNING
    requires FirstZombieChild(s.procs, r, 0) == |s.procs|
    ensures Core(s.(procs := s.procs[r := s.procs[r].(state := SLEEPING, chan := OnProc(r))]))
  {
    var ps := s.procs;
    var t := s.(procs := ps[r := ps[r].(state := SLEEPING, chan := OnProc(r))]);
    var qs := t.procs;
    forall i | 0 <= i < |ps| ensures TreeAt(qs, t.init, i) && EmbryoAt(qs, i) && PidAt(t, i) {
      assert TreeAt(ps, s.init, i) && EmbryoAt(ps, i) && PidAt(s, i);
    }
    forall i, j | 0 <= i < |ps| && 0 <= j < |ps| ensures PairAt(qs, i, j) {
      assert PairAt(ps, i, j);
    }
    SamePending(s, t);
  }

  lemma WaitInv(s: Sys)
    requires Inv(s) && Enabled(s, Wait)
    ensures Inv(Apply(s, Wait))
  {
    var r, z := s.running.value, FirstZombieChild(s.procs, s.running.value, 0);
    if z < |s.procs| {
      ReapCore(s, z);
    } else if HasKids(s.procs, r) && !s.procs[r].killed {
      WaitSleepCore(s, r);
      SetAsideInv(s, s.procs[r].(state := SLEEPING, chan := OnProc(r)));
    }
  }

  // ---------------------------------------------------------------------- runs

  lemma StepInv(s: Sys, step: Step)
    requires Inv(s) && Enabled(s, step)
    ensures Inv(Apply(s, step))
  {
    match step
    case Schedule => ScheduleInv(s);
    case Yield => YieldInv(s);
    case Sleep(addr) => SleepInv(s, addr);
    case Exit => ExitInv(s);
    case Wait => WaitInv(s);
    case Alloc => AllocInv(s);
    case ForkFail => ForkEndInv(s, step);
    case ForkParent => ForkParentInv(s);
    case ForkDone => ForkEndInv(s, step);
    case Wakeup(chan) => WakeupInv(s, chan);
    case Kill(pid) => KillInv(s, pid);
    case WeightSet(w) => WeightSetInv(s, w);
  }

  lemma {:induction false} RunInv(s: Sys, steps: seq<Step>, t: Sys)
    requires Inv(s) && Run(s, steps, t)
    ensures Inv(t)
    decreases |steps|
  {
    if steps != [] {
      StepInv(s, steps[0]);
      RunInv(Apply(s, steps[0]), steps[1..], t);
    }
  }

  lemma BootInv(n: nat)
    requires n > 0
    ensures Inv(Boot(n))
  {
    var s := Boot(n);
    assert LeastAt(s.procs, 0, s.min);
  }

  /** On every run since boot the invariant holds. */
  lemma Reachable(n: nat, steps: seq<Step>, t: Sys)
    requires n > 0 && Run(Boot(n), steps, t)
    ensures Inv(t)
  {
    BootInv(n);
    RunInv(Boot(n), steps, t);
  }

  /** On every run since boot, when the CPU is idle the scan for `min_priority` finds a
      process if and only if one is RUNNABLE, and then one of least priority. */
  lemma SchedulerFinds(n: nat, steps: seq<Step>, t: Sys)
    requires n > 0 && Run(Boot(n), steps, t) && t.running.None?
    ensures var r := FirstOfPriority(t.procs, t.min, 0);
      && (r < |t.procs| <==> exists i :: 0 <= i < |t.procs| && t.procs[i].state == RUNNABLE)
      && (r < |t.procs| ==>
           forall i :: 0 <= i < |t.procs| && t.procs[i].state == RUNNABLE ==>
             t.procs[r].priority <= t.procs[i].priority)
  {
    Reachable(n, steps, t);
    ScanFinds(t.procs, t.min);
  }

  /** On every run since boot, nobody sleeps in wait beside a ZOMBIE child, and the parent of
      every process is alive. */
  lemma NoLostExit(n: nat, steps: seq<Step>, t: Sys, i: nat, j: nat)
    requires n > 0 && Run(Boot(n), steps, t) && i < |t.procs| && j < |t.procs|
    requires t.procs[j].state != UNUSED && t.procs[j].parent == i
    ensures Alive(t.procs, i)
    ensures t.procs[j].state == ZOMBIE ==> !(t.procs[i].state == SLEEPING && t.procs[i].chan == OnProc(i))
  {
    Reachable(n, steps, t);
    assert TreeAt(t.procs, t.init, j) && PairAt(t.procs, i, j);
  }

  /** On every run since boot, no pid exits twice, no wait returns a pid twice or one that did
      not exit, and an exit not yet returned is a ZOMBIE whose parent is alive. */
  lemma EachExitReportedOnce(n: nat, steps: seq<Step>, t: Sys, pid: int)
    requires n > 0 && Run(Boot(n), steps, t)
    ensures Distinct(t.exited) && Distinct(t.reaped)
    ensures pid in t.reaped ==> pid in t.exited
    ensures pid in t.exited && pid !in t.reaped ==>
      exists i :: IsZombie(t.procs, i, pid) && Alive(t.procs, t.procs[i].parent)
  {
    Reachable(n, steps, t);
    assert PendingAt(t, pid);
    if pid in t.exited && pid !in t.reaped {
      var i :| IsZombie(t.procs, i, pid);
      assert TreeAt(t.procs, t.init, i);
      assert Alive(t.procs, t.init) ==> t.procs[t.init].state != ZOMBIE;
      assert IsZombie(t.procs, i, pid) && Alive(t.procs, t.procs[i].parent);
    }
  }
}
