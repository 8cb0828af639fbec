/** Stride scheduling in the abstract: always pick a ready entry of least priority and
    raise its priority by its stride. */
module StrideScheduling {

  /** Priorities once the picked entries each got their strides. */
  ghost function After(p: seq<int>, d: seq<int>, picks: seq<nat>): (q: seq<int>)
    requires |d| == |p| && forall k :: 0 <= k < |picks| ==> picks[k] < |p|
    ensures |q| == |p|
  {
    if picks == [] then p
    else
      var q, r := After(p, d, picks[..|picks|-1]), picks[|picks|-1];
      q[r := q[r] + d[r]]
  }

  /** Every pick is a ready entry of least priority at the time. */
  ghost predicate LeastFirst(p: seq<int>, d: seq<int>, ready: set<nat>, picks: seq<nat>)
    requires |d| == |p| && forall i :: i in ready ==> i < |p|
  {
    picks == [] ||
    (var rest, r := picks[..|picks|-1], picks[|picks|-1];
     && LeastFirst(p, d, ready, rest)
     && r in ready
     && (forall k :: 0 <= k < |rest| ==> rest[k] < |p|)
     && forall i :: i in ready ==> After(p, d, rest)[r] <= After(p, d, rest)[i])
  }

  ghost function Count(picks: seq<nat>, i: nat): nat {
    if picks == [] then 0 else Count(picks[..|picks|-1], i) + if picks[|picks|-1] == i then 1 else 0
  }

  lemma OneMore(a: int, b: int)
    ensures (a + 1) * b == a * b + b
  {
  }

  lemma {:induction false} PicksReady(p: seq<int>, d: seq<int>, ready: set<nat>, picks: seq<nat>)
    requires |d| == |p| && (forall i :: i in ready ==> i < |p|) && LeastFirst(p, d, ready, picks)
    ensures forall k :: 0 <= k < |picks| ==> picks[k] in ready
  {
    if picks != [] { PicksReady(p, d, ready, picks[..|picks|-1]); }
  }

  /** An entry has its start plus one stride per pick. */
  lemma {:induction false} PriorityIs(p: seq<int>, d: seq<int>, picks: seq<nat>, i: nat)
    requires |d| == |p| && (forall k :: 0 <= k < |picks| ==> picks[k] < |p|) && i < |p|
    ensures After(p, d, picks)[i] == p[i] + Count(picks, i) * d[i]
  {
    if picks != [] {
      PriorityIs(p, d, picks[..|picks|-1], i);
      OneMore(Count(picks[..|picks|-1], i), d[i]);
    }
  }

  /** Nobody is ahead of a ready entry by more than its own stride. */
  lemma {:induction false} NeverFarAhead(p: seq<int>, d: seq<int>, ready: set<nat>, picks: seq<nat>, i: nat, j: nat)
    requires |d| == |p| && (forall k :: k in ready ==> k < |p|) && LeastFirst(p, d, ready, picks)
    requires i in ready && j in ready && p[i] == p[j] && d[i] >= 0 && d[j] >= 0
    requires forall k :: 0 <= k < |picks| ==> picks[k] < |p|
    ensures After(p, d, picks)[i] <= After(p, d, picks)[j] + d[i]
  {
    if picks != [] { NeverFarAhead(p, d, ready, picks[..|picks|-1], i, j); }
  }

  lemma Share(p: seq<int>, d: seq<int>, ready: set<nat>, picks: seq<nat>, i: nat, j: nat)
    requires |d| == |p| && (forall k :: k in ready ==> k < |p|) && LeastFirst(p, d, ready, picks)
    requires i in ready && j in ready && p[i] == p[j] && d[i] >= 0 && d[j] >= 0
    ensures Count(picks, i) * d[i] <= Count(picks, j) * d[j] + d[i]
  {
    PicksReady(p, d, ready, picks);
    NeverFarAhead(p, d, ready, picks, i, j);
    PriorityIs(p, d, picks, i);
    PriorityIs(p, d, picks, j);
  }

  /** Picks of the first `m` entries together. */
  ghost function CountBelow(picks: seq<nat>, m: nat): nat {
    if m == 0 then 0 else CountBelow(picks, m - 1) + Count(picks, m - 1)
  }

  lemma {:induction false} CountBelowStep(picks: seq<nat>, m: nat)
    requires picks != []
    ensures CountBelow(picks, m)
         == CountBelow(picks[..|picks|-1], m) + if picks[|picks|-1] < m then 1 else 0
  {
    if m > 0 { CountBelowStep(picks, m - 1); }
  }

  lemma {:induction false} NoPicks(m: nat)
    ensures CountBelow([], m) == 0
  {
    if m > 0 { NoPicks(m - 1); }
  }

  lemma {:induction false} CountAll(picks: seq<nat>, m: nat)
    requires forall k :: 0 <= k < |picks| ==> picks[k] < m
    ensures CountBelow(picks, m) == |picks|
  {
    if picks == [] {
      NoPicks(m);
    } else {
      CountAll(picks[..|picks|-1], m);
      CountBelowStep(picks, m);
    }
  }

  lemma {:induction false} NeverPicked(picks: seq<nat>, i: nat)
    requires forall k :: 0 <= k < |picks| ==> picks[k] != i
    ensures Count(picks, i) == 0
  {
    if picks != [] { NeverPicked(picks[..|picks|-1], i); }
  }

  lemma TimesAtLeast(a: nat, d: int)
    requires d >= 1
    ensures a <= a * d
  {
  }

  lemma AtMostShare(p: seq<int>, d: seq<int>, ready: set<nat>, picks: seq<nat>, max: int, i: nat, j: nat)
    requires |d| == |p| && (forall k :: k in ready ==> k < |p|) && LeastFirst(p, d, ready, picks)
    requires i < |p| && j in ready
    requires forall k :: k in ready ==> p[k] == p[j] && 1 <= d[k] <= max
    ensures Count(picks, i) <= Count(picks, j) * d[j] + max
  {
    TimesAtLeast(Count(picks, j), d[j]);
    if i in ready {
      Share(p, d, ready, picks, i, j);
      TimesAtLeast(Count(picks, i), d[i]);
    } else {
      PicksReady(p, d, ready, picks);
      NeverPicked(picks, i);
    }
  }

  lemma {:induction false} SumOfShares(p: seq<int>, d: seq<int>, ready: set<nat>, picks: seq<nat>,
                                       max: int, m: nat, j: nat)
    requires |d| == |p| && (forall k :: k in ready ==> k < |p|) && LeastFirst(p, d, ready, picks)
    requires m <= |p| && j in ready
    requires forall k :: k in ready ==> p[k] == p[j] && 1 <= d[k] <= max
    ensures CountBelow(picks, m) <= m * (Count(picks, j) * d[j] + max)
  {
    if m > 0 {
      SumOfShares(p, d, ready, picks, max, m - 1, j);
      AtMostShare(p, d, ready, picks, max, m - 1, j);
      OneMore(m - 1, Count(picks, j) * d[j] + max);
    }
  }
}

/** Proportional share: processes that stay RUNNABLE run in inverse proportion to their
    strides, and none starves. */
module ProcShare {
  import opened ProcSpec
  import opened ProcInv
  import opened StrideScheduling

  predicate Ready(s: Sys, i: int) {
    0 <= i < |s.procs| && s.procs[i].state == RUNNABLE
  }

  /** The CPU is idle, some process is RUNNABLE, and all RUNNABLE processes start at the
      same priority with weights between 1 and TIME_SLICE. */
  ghost predicate Start(s: Sys) {
    && s.running.None?
    && (exists i :: Ready(s, i))
    && (forall i :: Ready(s, i) ==> s.procs[i].priority == s.min && 1 <= s.procs[i].weight <= TIME_SLICE)
  }

  function Picked(s: Sys): nat { FirstOfPriority(s.procs, s.min, 0) }

  /** One round: the scheduler picks a process, which runs until it yields. */
  function Round(s: Sys): Sys
    requires s.running.None?
  {
    var t := ApplySchedule(s);
    if t.running.Some? then Tail(t.(procs := SetState(t.procs, t.running.value, RUNNABLE))) else t
  }

  /** A round is a Schedule step, and a Yield step if it found a process. */
  lemma RoundIsSteps(s: Sys)
    requires s.running.None?
    ensures Run(s, if Picked(s) < |s.procs| then [Schedule, Yield] else [Schedule], Round(s))
  {
    var t := Apply(s, Schedule);
    if Picked(s) < |s.procs| {
      assert [Schedule, Yield][1..] == [Yield] && [Yield][1..] == [];
      assert Run(t, [Yield], Apply(t, Yield)) by { assert Run(Apply(t, Yield), [], Apply(t, Yield)); }
    } else {
      assert [Schedule][1..] == [];
    }
  }

  ghost predicate RoundAt(trace: seq<Sys>, picks: seq<nat>, k: nat)
    requires k < |picks| && |trace| == |picks| + 1
  {
    trace[k].running.None? && picks[k] == Picked(trace[k]) && trace[k+1] == Round(trace[k])
  }

  /** `trace` is a run of rounds from its first state, and `picks` the slots picked. */
  ghost predicate Rounds(trace: seq<Sys>, picks: seq<nat>) {
    |trace| == |picks| + 1 && forall k :: 0 <= k < |picks| ==> RoundAt(trace, picks, k)
  }

  /** `d` holds the strides of the weights `w`. */
  ghost predicate StridesOf(w: seq<int>, d: seq<int>) {
    |d| == |w| && forall i {:trigger Stride(w[i])} :: 0 <= i < |w| ==> d[i] == Stride(w[i])
  }

  ghost function Weights(s: Sys): (w: seq<int>)
    ensures |w| == |s.procs| && forall i :: 0 <= i < |w| ==> w[i] == s.procs[i].weight
  {
    seq(|s.procs|, i requires 0 <= i < |s.procs| => s.procs[i].weight)
  }

  ghost function Priorities(s: Sys): (p: seq<int>)
    ensures |p| == |s.procs| && forall i :: 0 <= i < |p| ==> p[i] == s.procs[i].priority
  {
    seq(|s.procs|, i requires 0 <= i < |s.procs| => s.procs[i].priority)
  }

  ghost function ReadySet(s: Sys): (r: set<nat>)
    ensures forall i: nat :: i in r <==> Ready(s, i)
  {
    set i: nat | i < |s.procs| && Ready(s, i)
  }

  lemma DivideBounds(n: nat, w: int)
    requires 1 <= w <= n
    ensures 1 <= n / w <= n
  {
    var q := n / w;
    assert n == q * w + n % w;
    TimesAtLeast(q, w);
  }

  /** `t` is `s` after slot `r` ran for one round: it gained a stride, nothing else changed
      that the next round looks at. */
  ghost predicate RoundEffect(s: Sys, r: nat, t: Sys, d: seq<int>)
    requires |d| == |s.procs|
  {
    && r < |s.procs| == |t.procs| && t.running.None? && ExactMin(t.procs, t.min)
    && Ready(s, r)
    && Weights(t) == Weights(s) && ReadySet(t) == ReadySet(s)
    && Priorities(t) == Priorities(s)[r := Priorities(s)[r] + d[r]]
    && forall i :: Ready(s, i) ==> s.procs[r].priority <= s.procs[i].priority
  }

  /** The table after a round, in one piece. */
  lemma RoundIs(s: Sys)
    requires s.running.None? && Picked(s) < |s.procs|
    ensures var r, t := Picked(s), Round(s);
      && t.running.None? && ExactMin(t.procs, t.min)
      && t.procs == s.procs[r := Charged(s.procs[r].(chan := NoChan))]
  {
    var r, t := Picked(s), ApplySchedule(s);
    assert t.procs[r] == s.procs[r].(state := RUNNING, chan := NoChan);
    var u := Round(s);
    assert u.procs == s.procs[r := Charged(s.procs[r].(chan := NoChan))];
    LeastIsExact(u.procs, u.min);
  }

  lemma EffectOf(s: Sys, r: nat, t: Sys, d: seq<int>)
    requires t.running.None? && ExactMin(t.procs, t.min) && Ready(s, r) && |d| == |s.procs|
    requires forall i :: Ready(s, i) ==> s.procs[r].priority <= s.procs[i].priority
    requires t.procs == s.procs[r := s.procs[r].(chan := NoChan, priority := s.procs[r].priority + d[r])]
    ensures RoundEffect(s, r, t, d)
  {
    assert Weights(t) == Weights(s);
    assert Priorities(t) == Priorities(s)[r := Priorities(s)[r] + d[r]];
    forall i: nat ensures i in ReadySet(t) <==> i in ReadySet(s) {}
  }

  lemma RoundHasEffect(s: Sys, d: seq<int>)
    requires s.running.None? && ExactMin(s.procs, s.min) && exists i :: Ready(s, i)
    requires StridesOf(Weights(s), d)
    ensures RoundEffect(s, Picked(s), Round(s), d)
  {
    ScanFinds(s.procs, s.min);
    RoundIs(s);
    assert d[Picked(s)] == Stride(Weights(s)[Picked(s)]);
    EffectOf(s, Picked(s), Round(s), d);
  }

  /** What rounds keep, in terms of the abstract scheduler. */
  ghost predicate Plays(s: Sys, picks: seq<nat>, t: Sys, d: seq<int>)
    requires |d| == |s.procs|
  {
    && t.running.None? && ExactMin(t.procs, t.min)
    && Weights(t) == Weights(s) && ReadySet(t) == ReadySet(s)
    && (forall k :: 0 <= k < |picks| ==> picks[k] < |s.procs|)
    && LeastFirst(Priorities(s), d, ReadySet(s), picks)
    && Priorities(t) == After(Priorities(s), d, picks)
  }

  lemma PlaysStep(s: Sys, rest: seq<nat>, u: Sys, r: nat, t: Sys, d: seq<int>)
    requires |d| == |s.procs| == |u.procs| && Plays(s, rest, u, d) && RoundEffect(u, r, t, d)
    ensures Plays(s, rest + [r], t, d)
  {
    var picks := rest + [r];
    assert picks[..|picks|-1] == rest;
    assert r in ReadySet(u);
    forall i | i in ReadySet(s)
      ensures After(Priorities(s), d, rest)[r] <= After(Priorities(s), d, rest)[i]
    {
      assert i in ReadySet(u) && Ready(u, i);
      assert Priorities(u)[r] <= Priorities(u)[i];
    }
  }

  lemma PlaysRound(s: Sys, rest: seq<nat>, u: Sys, d: seq<int>, i: nat)
    requires StridesOf(Weights(s), d) && Plays(s, rest, u, d) && Ready(s, i)
    ensures Plays(s, rest + [Picked(u)], Round(u), d)
  {
    assert |Weights(u)| == |u.procs|;
    assert i in ReadySet(u);
    RoundHasEffect(u, d);
    PlaysStep(s, rest, u, Picked(u), Round(u), d);
  }

  lemma PlaysStart(s: Sys, d: seq<int>)
    requires Start(s) && |d| == |s.procs|
    ensures Plays(s, [], s, d)
  {
    var i :| Ready(s, i);
    assert LeastAt(s.procs, i, s.min);
  }

  lemma {:induction false} RoundsPlay(trace: seq<Sys>, picks: seq<nat>, k: nat, d: seq<int>)
    requires Rounds(trace, picks) && Start(trace[0]) && k <= |picks| && StridesOf(Weights(trace[0]), d)
    ensures Plays(trace[0], picks[..k], trace[k], d)
  {
    if k == 0 {
      PlaysStart(trace[0], d);
    } else {
      RoundsPlay(trace, picks, k - 1, d);
      RoundPlays(trace, picks, k - 1, d);
    }
  }

  lemma {:induction false} RoundPlays(trace: seq<Sys>, picks: seq<nat>, k: nat, d: seq<int>)
    requires Rounds(trace, picks) && Start(trace[0]) && k < |picks| && StridesOf(Weights(trace[0]), d)
    requires Plays(trace[0], picks[..k], trace[k], d)
    ensures Plays(trace[0], picks[..k+1], trace[k+1], d)
  {
    assert RoundAt(trace, picks, k);
    PlaysOn(trace[0], picks[..k], trace[k], d, picks[..k+1], trace[k+1]);
  }

  lemma {:induction false} PlaysOn(s: Sys, rest: seq<nat>, u: Sys, d: seq<int>, picks: seq<nat>, t: Sys)
    requires Start(s) && StridesOf(Weights(s), d) && Plays(s, rest, u, d)
    requires picks == rest + [Picked(u)] && t == Round(u)
    ensures Plays(s, picks, t, d)
  {
    var i :| Ready(s, i);
    PlaysRound(s, rest, u, d, i);
  }

  /** The strides of the table, with what Start promises about the RUNNABLE ones. */
  lemma StartStrides(s: Sys) returns (d: seq<int>)
    requires Start(s)
    ensures StridesOf(Weights(s), d)
    ensures forall i :: Ready(s, i) ==> 1 <= d[i] <= TIME_SLICE && d[i] == Stride(s.procs[i].weight)
  {
    d := seq(|s.procs|, i requires 0 <= i < |s.procs| => Stride(Weights(s)[i]));
    forall i | Ready(s, i) ensures 1 <= d[i] <= TIME_SLICE && d[i] == Stride(s.procs[i].weight) {
      DivideBounds(TIME_SLICE, s.procs[i].weight);
    }
  }

  lemma ShareOf(s: Sys, picks: seq<nat>, t: Sys, d: seq<int>, i: nat, j: nat)
    requires Start(s) && |d| == |s.procs| && Plays(s, picks, t, d) && Ready(s, i) && Ready(s, j)
    requires d[i] >= 0 && d[j] >= 0
    ensures Count(picks, i) * d[i] <= Count(picks, j) * d[j] + d[i]
  {
    assert i in ReadySet(s) && j in ReadySet(s);
    Share(Priorities(s), d, ReadySet(s), picks, i, j);
  }

  /** After any rounds, two RUNNABLE processes have had the same share of the CPU, counted
      in runs times stride, up to the larger of their strides. */
  lemma ProportionalShare(trace: seq<Sys>, picks: seq<nat>, i: nat, j: nat)
    requires Rounds(trace, picks) && Start(trace[0]) && Ready(trace[0], i) && Ready(trace[0], j)
    ensures var di, dj := TIME_SLICE / trace[0].procs[i].weight, TIME_SLICE / trace[0].procs[j].weight;
      -dj <= Count(picks, i) * di - Count(picks, j) * dj <= di
  {
    var d := StartStrides(trace[0]);
    RoundsPlay(trace, picks, |picks|, d);
    assert picks[..|picks|] == picks;
    ShareOf(trace[0], picks, trace[|picks|], d, i, j);
    ShareOf(trace[0], picks, trace[|picks|], d, j, i);
  }

  /** Of two RUNNABLE processes the one of the larger weight has had at least as many runs,
      or one less. */
  lemma HeavierRunsMore(trace: seq<Sys>, picks: seq<nat>, i: nat, j: nat)
    requires Rounds(trace, picks) && Start(trace[0]) && Ready(trace[0], i) && Ready(trace[0], j)
    requires trace[0].procs[i].weight >= trace[0].procs[j].weight
    ensures Count(picks, j) <= Count(picks, i) + 1
  {
    ProportionalShare(trace, picks, i, j);
    Heavier(trace[0].procs[i].weight, trace[0].procs[j].weight, Count(picks, i), Count(picks, j));
  }

  lemma Heavier(wi: int, wj: int, a: nat, b: nat)
    requires 1 <= wj <= wi <= TIME_SLICE
    requires b * (TIME_SLICE / wj) <= a * (TIME_SLICE / wi) + TIME_SLICE / wj
    ensures b <= a + 1
  {
    var di, dj := TIME_SLICE / wi, TIME_SLICE / wj;
    DivideBounds(TIME_SLICE, wj);
    Quotients(wi, wj);
    Scale(a, di, dj);
    OneMore(a, dj);
    if b >= a + 2 {
      Scale(dj, a + 2, b);
      assert false;
    }
  }

  lemma Quotients(wi: int, wj: int)
    requires 1 <= wj <= wi <= TIME_SLICE
    ensures TIME_SLICE / wi <= TIME_SLICE / wj
  {
    var di, dj := TIME_SLICE / wi, TIME_SLICE / wj;
    assert di * wi <= TIME_SLICE < (dj + 1) * wj;
    if di >= dj + 1 {
      Scale(wi, dj + 1, di);
      Scale(dj + 1, wj, wi);
      assert false;
    }
  }

  /** The runs of two RUNNABLE processes are as their weights, up to a run and to what the
      division of TIME_SLICE cuts off. */
  lemma ShareByWeight(trace: seq<Sys>, picks: seq<nat>, i: nat, j: nat)
    requires Rounds(trace, picks) && Start(trace[0]) && Ready(trace[0], i) && Ready(trace[0], j)
    ensures var wi, wj := trace[0].procs[i].weight, trace[0].procs[j].weight;
      Count(picks, i) * wj * (TIME_SLICE - wi) <= (Count(picks, j) * wi + wj) * TIME_SLICE
  {
    ProportionalShare(trace, picks, i, j);
    CrossWeights(trace[0].procs[i].weight, trace[0].procs[j].weight, Count(picks, i), Count(picks, j));
  }

  lemma CrossWeights(wi: int, wj: int, a: nat, b: nat)
    requires 1 <= wi <= TIME_SLICE && 1 <= wj <= TIME_SLICE
    requires a * (TIME_SLICE / wi) <= b * (TIME_SLICE / wj) + TIME_SLICE / wi
    ensures a * wj * (TIME_SLICE - wi) <= (b * wi + wj) * TIME_SLICE
  {
    var di, dj := TIME_SLICE / wi, TIME_SLICE / wj;
    assert TIME_SLICE - wi <= di * wi <= TIME_SLICE && dj * wj <= TIME_SLICE;
    Cross(TIME_SLICE, wi, wj, di, dj, a, b);
  }

  lemma Cross(t: nat, wi: nat, wj: nat, di: nat, dj: nat, a: nat, b: nat)
    requires t - wi <= di * wi <= t && dj * wj <= t && a * di <= b * dj + di
    ensures a * wj * (t - wi) <= (b * wi + wj) * t
  {
    Scale(a * wj, t - wi, di * wi);
    Scale(wi * wj, a * di, b * dj + di);
    Scale(b * wi, dj * wj, t);
    Scale(wj, di * wi, t);
    Regroup(wi, wj, a, di);
    Regroup(wj, wi, b, dj);
    Distribute(wi * wj, b * dj, di);
    Regroup(wi, wj, 1, di);
    Distribute(t, b * wi, wj);
  }

  lemma Regroup(x: nat, y: nat, a: nat, d: nat)
    ensures x * y * (a * d) == a * y * (d * x) && y * x * (a * d) == a * y * (d * x)
  {
  }

  lemma Distribute(x: nat, a: nat, b: nat)
    ensures x * (a + b) == x * a + x * b && (a + b) * x == a * x + b * x
  {
  }

  lemma RunsGrow(s: Sys, picks: seq<nat>, t: Sys, d: seq<int>, j: nat)
    requires Start(s) && |d| == |s.procs| && Plays(s, picks, t, d) && Ready(s, j)
    requires forall i :: Ready(s, i) ==> 1 <= d[i] <= TIME_SLICE
    ensures |picks| <= |s.procs| * ((Count(picks, j) + 1) * TIME_SLICE)
  {
    assert j in ReadySet(s);
    forall k | k in ReadySet(s) ensures Priorities(s)[k] == Priorities(s)[j] && 1 <= d[k] <= TIME_SLICE {
      assert Ready(s, k);
    }
    CountAll(picks, |s.procs|);
    SumOfShares(Priorities(s), d, ReadySet(s), picks, TIME_SLICE, |s.procs|, j);
    Loosen(|s.procs|, Count(picks, j), d[j]);
  }

  lemma Loosen(n: nat, c: nat, d: int)
    requires d <= TIME_SLICE
    ensures n * (c * d + TIME_SLICE) <= n * ((c + 1) * TIME_SLICE)
  {
    Scale(c, d, TIME_SLICE);
    Scale(n, c * d + TIME_SLICE, (c + 1) * TIME_SLICE);
  }

  lemma Scale(n: nat, a: int, b: int)
    requires a <= b
    ensures n * a <= n * b
  {
  }

  /** No RUNNABLE process starves: its runs grow with the number of rounds. */
  lemma NoStarvation(trace: seq<Sys>, picks: seq<nat>, j: nat)
    requires Rounds(trace, picks) && Start(trace[0]) && Ready(trace[0], j)
    ensures |picks| <= |trace[0].procs| * ((Count(picks, j) + 1) * TIME_SLICE)
  {
    var d := StartStrides(trace[0]);
    RoundsPlay(trace, picks, |picks|, d);
    assert picks[..|picks|] == picks;
    RunsGrow(trace[0], picks, trace[|picks|], d, j);
  }
}
