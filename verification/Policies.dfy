/** FIFO and the remaining policies that compete with the optimal one. */
module Policies {
  import opened Common
  import opened Paging
  import opened Belady
  import opened Recency
  import opened Simulator

  /** No policy of the simulator takes fewer faults than the optimal one. */
  lemma NoPolicyBeatsOptimal(pages: seq<int>, n: nat, vs: seq<nat>, faults: nat, printed: seq<seq<int>>,
                             ws: seq<nat>, faults': nat, printed': seq<seq<int>>)
    requires Simulates(pages, n, vs, faults, printed) && FarthestFrom([], n, pages, vs)
    requires Simulates(pages, n, ws, faults', printed')
    ensures faults <= faults'
  {
    BeladyOptimality(n, pages, vs, ws);
  }

  // --------------------------------------------------------------------- FIFO

  lemma TurnSoFar(pages: seq<int>, n: nat, vs: seq<nat>, i: nat, v: nat, vs': seq<nat>)
    requires n > 0 && Choices(n, vs, |pages|) && i < |pages| && v < n && vs' == vs[i := v]
    requires forall k :: 0 <= k < i ==> NextInTurn(n, pages, vs, k)
    requires |At([], n, pages, vs, i)| == n && pages[i] !in At([], n, pages, vs, i) ==>
      v == Turn(Cost([], n, pages[..i], vs[..i]), n)
    ensures forall k :: 0 <= k <= i ==> NextInTurn(n, pages, vs', k)
  {
    forall k | 0 <= k <= i ensures NextInTurn(n, pages, vs', k) {
      SamePast(pages, n, vs, i, v, k);
      assert k < i ==> NextInTurn(n, pages, vs, k);
    }
  }

  method FifoRun(refs: seq<Ref>, n: nat) returns (faults: nat, printed: seq<seq<int>>, ghost vs: seq<nat>)
    requires n > 0 && Proper(refs)
    ensures Simulates(Pages(refs), n, vs, faults, printed)
    ensures Fifo(n, Pages(refs), vs)
    ensures NotBeaten(n, Pages(refs), faults)
    ensures forall ws :: Choices(n, ws, |refs|) ==> faults <= n * Cost([], n, Pages(refs), ws)
  {
    var pages := Pages(refs);
    var pageFrame := new int[n](_ => EMPTY);
    var occupied := 0;
    faults, printed, vs := 0, [pageFrame[..]], seq(|refs|, _ => 0);
    SimStart(pages, n, vs, pageFrame[..]);
    for i := 0 to |refs|
      invariant Sim(pages, n, vs, i, pageFrame[..], occupied, faults, printed)
      invariant forall k :: 0 <= k < i ==> NextInTurn(n, pages, vs, k)
    {
      ghost var a, occupied0, faults0, v := pageFrame[..], occupied, faults, 0;
      var hit := CheckHit(pages[i], pageFrame, occupied);
      HitIsResident(a, occupied, pages[i], hit);
      if hit < 0 {
        faults := faults + 1;
        if occupied >= n {
          ghost var q := TurnIsRemainder(faults - 1, n);
          pageFrame[(faults - 1) % n] := pages[i];
          v := Turn(faults0, n);
        } else {
          pageFrame[occupied] := pages[i];
          occupied := occupied + 1;
        }
      }
      SimStep(pages, n, vs, i, a, occupied0, faults0, printed, v, pageFrame[..]);
      TurnSoFar(pages, n, vs, i, v, vs[i := v]);
      vs := vs[i := v];
      printed := printed + [pageFrame[..]];
    }
    SimDone(pages, n, vs, pageFrame[..], occupied, faults, printed);
    forall ws | Choices(n, ws, |refs|) ensures faults <= n * Cost([], n, pages, ws) {
      FifoCompetitive(n, pages, vs, ws);
    }
  }

  // --------------------------------------------------------------------- LIFO

  /** LIFO always gives up the last frame. */
  method LifoRun(refs: seq<Ref>, n: nat) returns (faults: nat, printed: seq<seq<int>>, ghost vs: seq<nat>)
    requires n > 0 && Proper(refs)
    ensures Simulates(Pages(refs), n, vs, faults, printed)
    ensures forall i :: 0 <= i < |refs| ==> vs[i] == n - 1
    ensures NotBeaten(n, Pages(refs), faults)
  {
    var pages := Pages(refs);
    var pageFrame := new int[n](_ => EMPTY);
    var occupied := 0;
    faults, printed, vs := 0, [pageFrame[..]], seq(|refs|, _ => n - 1);
    SimStart(pages, n, vs, pageFrame[..]);
    for i := 0 to |refs|
      invariant Sim(pages, n, vs, i, pageFrame[..], occupied, faults, printed)
      invariant forall k :: 0 <= k < |refs| ==> vs[k] == n - 1
    {
      ghost var a, occupied0, faults0 := pageFrame[..], occupied, faults;
      var hit := CheckHit(pages[i], pageFrame, occupied);
      HitIsResident(a, occupied, pages[i], hit);
      if hit < 0 {
        faults := faults + 1;
        if occupied >= n {
          pageFrame[occupied-1] := pages[i];
        } else {
          pageFrame[occupied] := pages[i];
          occupied := occupied + 1;
        }
      }
      SimStep(pages, n, vs, i, a, occupied0, faults0, printed, n - 1, pageFrame[..]);
      vs := vs[i := n - 1];
      printed := printed + [pageFrame[..]];
    }
    SimDone(pages, n, vs, pageFrame[..], occupied, faults, printed);
  }

  // ---------------------------------------------------------------------- LFU

  /** How many of the first `i` references frame `k` served: a counter stays with its
      frame when the page in it is replaced. */
  ghost function Uses(pages: seq<int>, n: nat, vs: seq<nat>, i: nat, k: nat): nat
    requires Choices(n, vs, |pages|) && i <= |pages|
  {
    if i == 0 then 0
    else
      var f := At([], n, pages, vs, i);
      Uses(pages, n, vs, i - 1, k) + if k < |f| && f[k] == pages[i-1] then 1 else 0
  }

  lemma {:induction false} SameUses(pages: seq<int>, n: nat, vs: seq<nat>, i: nat, v: nat, j: nat, k: nat)
    requires Choices(n, vs, |pages|) && j <= i < |pages| && v < n
    ensures Uses(pages, n, vs[i := v], j, k) == Uses(pages, n, vs, j, k)
  {
    if j > 0 {
      SameUses(pages, n, vs, i, v, j - 1, k);
      SamePast(pages, n, vs, i, v, j);
    }
  }

  /** Frame `v` is the first among those that served fewest of the first `i` references. */
  ghost predicate FewestUses(pages: seq<int>, n: nat, vs: seq<nat>, i: nat, v: nat)
    requires Choices(n, vs, |pages|) && i <= |pages|
  {
    && (forall k :: 0 <= k < n ==> Uses(pages, n, vs, i, v) <= Uses(pages, n, vs, i, k))
    && (forall k :: 0 <= k < v ==> Uses(pages, n, vs, i, v) < Uses(pages, n, vs, i, k))
  }

  ghost predicate LeastUsedAt(n: nat, pages: seq<int>, vs: seq<nat>, i: nat)
    requires Choices(n, vs, |pages|) && i < |pages|
  {
    |At([], n, pages, vs, i)| == n && pages[i] !in At([], n, pages, vs, i) ==>
      FewestUses(pages, n, vs, i, vs[i])
  }

  lemma LeastUsedSoFar(pages: seq<int>, n: nat, vs: seq<nat>, i: nat, v: nat, vs': seq<nat>)
    requires Choices(n, vs, |pages|) && i < |pages| && v < n && vs' == vs[i := v]
    requires forall k :: 0 <= k < i ==> LeastUsedAt(n, pages, vs, k)
    requires |At([], n, pages, vs, i)| == n && pages[i] !in At([], n, pages, vs, i) ==>
      FewestUses(pages, n, vs, i, v)
    ensures forall k :: 0 <= k <= i ==> LeastUsedAt(n, pages, vs', k)
  {
    forall k | 0 <= k <= i ensures LeastUsedAt(n, pages, vs', k) {
      SamePast(pages, n, vs, i, v, k);
      assert k < i ==> LeastUsedAt(n, pages, vs, k);
      forall m: nat ensures Uses(pages, n, vs', k, m) == Uses(pages, n, vs, k, m) {
        SameUses(pages, n, vs, i, v, k, m);
      }
    }
  }

  ghost predicate Counts(pages: seq<int>, n: nat, vs: seq<nat>, i: nat, counter: seq<int>)
    requires Choices(n, vs, |pages|) && i <= |pages|
  {
    |counter| == n && forall k :: 0 <= k < n ==> counter[k] == Uses(pages, n, vs, i, k)
  }

  lemma CountsStep(pages: seq<int>, n: nat, vs: seq<nat>, i: nat, v: nat, vs': seq<nat>,
                   a: seq<int>, c: seq<int>, k: nat, c': seq<int>)
    requires Choices(n, vs, |pages|) && i < |pages| && v < n && vs' == vs[i := v]
    requires Counts(pages, n, vs, i, c) && k < n && c' == c[k := c[k] + 1]
    requires Holds(a, n, At([], n, pages, vs', i + 1)) && Distinct(At([], n, pages, vs', i + 1))
    requires k < |At([], n, pages, vs', i + 1)| && a[k] == pages[i]
    ensures Counts(pages, n, vs', i + 1, c')
  {
    var f := At([], n, pages, vs', i + 1);
    assert f == a[..|f|] && f[k] == pages[i];
    forall m | 0 <= m < n ensures c'[m] == Uses(pages, n, vs', i + 1, m) {
      SameUses(pages, n, vs, i, v, i, m);
    }
  }

  lemma LfuRound(pages: seq<int>, n: nat, vs: seq<nat>, i: nat, v: nat, vs': seq<nat>,
                 a: seq<int>, occupied: nat, a': seq<int>, c: seq<int>, k: nat, c': seq<int>)
    requires Choices(n, vs, |pages|) && i < |pages| && v < n && vs' == vs[i := v]
    requires Holds(a, n, At([], n, pages, vs, i)) && occupied == |At([], n, pages, vs, i)|
    requires Holds(a', n, At([], n, pages, vs', i + 1)) && k < |At([], n, pages, vs', i + 1)| && a'[k] == pages[i]
    requires Counts(pages, n, vs, i, c) && c' == c[k := c[k] + 1]
    requires occupied == n && pages[i] !in a ==>
      (forall m :: 0 <= m < n ==> c[v] <= c[m]) && (forall m :: 0 <= m < v ==> c[v] < c[m])
    requires forall j :: 0 <= j < i ==> LeastUsedAt(n, pages, vs, j)
    ensures Counts(pages, n, vs', i + 1, c')
    ensures forall j :: 0 <= j <= i ==> LeastUsedAt(n, pages, vs', j)
  {
    if occupied == n && pages[i] !in a { LeastCount(pages, n, vs, i, c, v); }
    assert occupied == n ==> a == At([], n, pages, vs, i);
    LeastUsedSoFar(pages, n, vs, i, v, vs');
    AtValid(n, pages, vs', i + 1);
    CountsStep(pages, n, vs, i, v, vs', a', c, k, c');
  }

  method LfuRun(refs: seq<Ref>, n: nat) returns (faults: nat, printed: seq<seq<int>>, ghost vs: seq<nat>)
    requires n > 0 && Proper(refs)
    ensures Simulates(Pages(refs), n, vs, faults, printed)
    ensures forall i :: 0 <= i < |refs| ==> LeastUsedAt(n, Pages(refs), vs, i)
    ensures NotBeaten(n, Pages(refs), faults)
  {
    var pages := Pages(refs);
    var counter := new int[n](_ => 0);
    var pageFrame := new int[n](_ => EMPTY);
    var occupied := 0;
    faults, printed, vs := 0, [pageFrame[..]], seq(|refs|, _ => 0);
    SimStart(pages, n, vs, pageFrame[..]);
    for i := 0 to |refs|
      invariant Sim(pages, n, vs, i, pageFrame[..], occupied, faults, printed)
      invariant Counts(pages, n, vs, i, counter[..])
      invariant forall k :: 0 <= k < i ==> LeastUsedAt(n, pages, vs, k)
    {
      ghost var a, c, occupied0, faults0, v := pageFrame[..], counter[..], occupied, faults, 0;
      var hit := CheckHit(pages[i], pageFrame, occupied);
      HitIsResident(a, occupied, pages[i], hit);
      var k := hit;
      if hit >= 0 {
        counter[hit] := counter[hit] + 1;
      } else {
        faults := faults + 1;
        if occupied >= n {
          k := MinIdx(counter);
          v := k;
        } else {
          k := occupied;
          occupied := occupied + 1;
        }
        pageFrame[k] := pages[i];
        counter[k] := counter[k] + 1;
      }
      ghost var vs' := vs[i := v];
      SimStep(pages, n, vs, i, a, occupied0, faults0, printed, v, pageFrame[..]);
      LfuRound(pages, n, vs, i, v, vs', a, occupied0, pageFrame[..], c, k, counter[..]);
      vs := vs';
      printed := printed + [pageFrame[..]];
    }
    SimDone(pages, n, vs, pageFrame[..], occupied, faults, printed);
  }

  lemma LeastCount(pages: seq<int>, n: nat, vs: seq<nat>, i: nat, c: seq<int>, v: nat)
    requires Choices(n, vs, |pages|) && i <= |pages| && Counts(pages, n, vs, i, c) && v < n
    requires forall k :: 0 <= k < n ==> c[v] <= c[k]
    requires forall k :: 0 <= k < v ==> c[v] < c[k]
    ensures FewestUses(pages, n, vs, i, v)
  {
    forall k | 0 <= k < n ensures c[k] == Uses(pages, n, vs, i, k) {}
  }

  // ------------------------------------------------------------ second chance

  /** The frame `d` steps after `h`, going round. */
  ghost function Walk(h: nat, d: nat, n: nat): (r: nat)
    requires h < n && d <= n
    ensures r < n
  {
    if h + d < n then h + d else h + d - n
  }

  lemma NextIsRemainder(h: nat, n: nat)
    requires h < n
    ensures (h + 1) % n == Walk(h, 1, n)
  {
    if h + 1 == n { RemainderIs(h + 1, n, 1, 0); } else { RemainderIs(h + 1, n, 0, h + 1); }
  }

  /** How many frames from `h` on have their bit set, before the first that has not. */
  ghost function Chances(bits: seq<int>, h: nat, d: nat): (r: nat)
    requires h < |bits| && d <= |bits|
    ensures d <= r <= |bits|
    ensures forall e :: d <= e < r ==> bits[Walk(h, e, |bits|)] != 0
    ensures r < |bits| ==> bits[Walk(h, r, |bits|)] == 0
    decreases |bits| - d
  {
    if d == |bits| || bits[Walk(h, d, |bits|)] == 0 then d else Chances(bits, h, d + 1)
  }

  /** The bits once the `d` frames from `h` on were cleared. */
  ghost function Cleared(bits: seq<int>, h: nat, d: nat): (r: seq<int>)
    requires h < |bits| && d <= |bits|
    ensures |r| == |bits|
    ensures forall e :: 0 <= e < |bits| ==>
      r[Walk(h, e, |bits|)] == if e < d then 0 else bits[Walk(h, e, |bits|)]
  {
    if d == 0 then bits else Cleared(bits, h, d - 1)[Walk(h, d - 1, |bits|) := 0]
  }

  /** The search of sc: go round from `head`, clearing bits, to the first frame whose bit is clear. */
  method Sweep(rbit: array<int>, head: nat) returns (head': nat)
    requires head < rbit.Length
    modifies rbit
    ensures head' == Walk(head, Chances(old(rbit[..]), head, 0), rbit.Length)
    ensures rbit[..] == Cleared(old(rbit[..]), head, Chances(old(rbit[..]), head, 0))
    ensures rbit[head'] == 0
  {
    var n := rbit.Length;
    ghost var bits, d := rbit[..], 0;
    head' := head;
    while rbit[head'] != 0
      invariant 0 <= d <= n && head' == Walk(head, d, n)
      invariant rbit[..] == Cleared(bits, head, d)
      invariant Chances(bits, head, 0) == Chances(bits, head, d)
      decreases n - d
    {
      NextIsRemainder(head', n);
      rbit[head'] := 0;
      head', d := (head' + 1) % n, d + 1;
    }
    assert d == n || bits[Walk(head, d, n)] == 0;
  }

  /** The reference bits and the head of sc after `i` references. */
  ghost function Clock(pages: seq<int>, n: nat, vs: seq<nat>, i: nat): (c: (seq<int>, nat))
    requires n > 0 && Choices(n, vs, |pages|) && i <= |pages|
    ensures |c.0| == n && c.1 < n
  {
    if i == 0 then (seq(n, _ => 0), 0)
    else
      var (bits, head) := Clock(pages, n, vs, i - 1);
      var f, p := At([], n, pages, vs, i - 1), pages[i-1];
      if p in f then (if NextUse(f, p) < n then bits[NextUse(f, p) := 1] else bits, Walk(head, 1, n))
      else if |f| < n then (bits[|f| := 1], head)
      else
        var d := Chances(bits, head, 0);
        (Cleared(bits, head, d)[Walk(head, d, n) := 1], Walk(head, d, n))
  }

  lemma {:induction false} SameClock(pages: seq<int>, n: nat, vs: seq<nat>, i: nat, v: nat, j: nat)
    requires n > 0 && Choices(n, vs, |pages|) && j <= i < |pages| && v < n
    ensures Clock(pages, n, vs[i := v], j) == Clock(pages, n, vs, j)
  {
    if j > 0 {
      SameClock(pages, n, vs, i, v, j - 1);
      SamePast(pages, n, vs, i, v, j - 1);
    }
  }

  /** If a victim is needed, it is the first frame from the head on without a second chance. */
  ghost predicate OutOfChances(n: nat, pages: seq<int>, vs: seq<nat>, i: nat)
    requires n > 0 && Choices(n, vs, |pages|) && i < |pages|
  {
    var (bits, head) := Clock(pages, n, vs, i);
    |At([], n, pages, vs, i)| == n && pages[i] !in At([], n, pages, vs, i) ==>
      vs[i] == Walk(head, Chances(bits, head, 0), n)
  }

  lemma ClockRound(pages: seq<int>, n: nat, vs: seq<nat>, i: nat, v: nat, vs': seq<nat>)
    requires n > 0 && Choices(n, vs, |pages|) && i < |pages| && v < n && vs' == vs[i := v]
    requires forall k :: 0 <= k < i ==> OutOfChances(n, pages, vs, k)
    requires var (bits, head) := Clock(pages, n, vs, i);
      |At([], n, pages, vs, i)| == n && pages[i] !in At([], n, pages, vs, i) ==>
        v == Walk(head, Chances(bits, head, 0), n)
    ensures Clock(pages, n, vs', i + 1) == Clock(pages, n, vs, i + 1)
    ensures forall k :: 0 <= k <= i ==> OutOfChances(n, pages, vs', k)
  {
    SameClock(pages, n, vs, i, v, i);
    SamePast(pages, n, vs, i, v, i);
    forall k | 0 <= k <= i ensures OutOfChances(n, pages, vs', k) {
      SamePast(pages, n, vs, i, v, k);
      SameClock(pages, n, vs, i, v, k);
      assert k < i ==> OutOfChances(n, pages, vs, k);
    }
  }

  lemma HitPlace(a: seq<int>, n: nat, f: seq<int>, p: int, hit: nat)
    requires Holds(a, n, f) && hit < |f| && a[hit] == p && p !in a[..hit]
    ensures NextUse(f, p) == hit
  {
    assert forall k :: 0 <= k < |f| ==> f[k] == a[k];
    assert forall k :: 0 <= k < hit ==> a[..hit][k] == f[k];
  }

  method SecondChanceRun(refs: seq<Ref>, n: nat) returns (faults: nat, printed: seq<seq<int>>, ghost vs: seq<nat>)
    requires n > 0 && Proper(refs)
    ensures Simulates(Pages(refs), n, vs, faults, printed)
    ensures forall i :: 0 <= i < |refs| ==> OutOfChances(n, Pages(refs), vs, i)
    ensures NotBeaten(n, Pages(refs), faults)
  {
    var pages := Pages(refs);
    var head: nat := 0;
    var rbit := new int[n](_ => 0);
    var pageFrame := new int[n](_ => EMPTY);
    var occupied := 0;
    faults, printed, vs := 0, [pageFrame[..]], seq(|refs|, _ => 0);
    SimStart(pages, n, vs, pageFrame[..]);
    assert rbit[..] == seq(n, _ => 0);
    for i := 0 to |refs|
      invariant Sim(pages, n, vs, i, pageFrame[..], occupied, faults, printed)
      invariant (rbit[..], head) == Clock(pages, n, vs, i)
      invariant forall k :: 0 <= k < i ==> OutOfChances(n, pages, vs, k)
    {
      ghost var a, occupied0, faults0, v := pageFrame[..], occupied, faults, 0;
      var hit := CheckHit(pages[i], pageFrame, occupied);
      HitIsResident(a, occupied, pages[i], hit);
      if hit >= 0 {
        HitPlace(a, n, At([], n, pages, vs, i), pages[i], hit);
        rbit[hit] := 1;
        NextIsRemainder(head, n);
        head := (head + 1) % n;
      } else {
        faults := faults + 1;
        if occupied >= n {
          head := Sweep(rbit, head);
          pageFrame[head] := pages[i];
          rbit[head] := 1;
          v := head;
        } else {
          pageFrame[occupied] := pages[i];
          rbit[occupied] := 1;
          occupied := occupied + 1;
        }
      }
      SimStep(pages, n, vs, i, a, occupied0, faults0, printed, v, pageFrame[..]);
      ClockRound(pages, n, vs, i, v, vs[i := v]);
      vs := vs[i := v];
      printed := printed + [pageFrame[..]];
    }
    SimDone(pages, n, vs, pageFrame[..], occupied, faults, printed);
  }

  // --------------------------------------------------- enhanced second chance

  predicate Bit(b: int) { b == 0 || b == 1 }

  /** 00 is replaced before 01, 01 before 10, and 10 before 11. */
  function Class(r: int, w: int): int { 2 * r + w }

  /** The read bit decides, and the write bit between equal ones. */
  lemma ClassOrder(r: int, w: int, r': int, w': int)
    requires Bit(r) && Bit(w) && Bit(r') && Bit(w')
    ensures Class(r, w) < Class(r', w') <==> r < r' || (r == r' && w < w')
  {
  }

  /** The first of the smallest entries. */
  ghost predicate FirstLeast(c: seq<int>, m: nat) {
    m < |c| && (forall k :: 0 <= k < |c| ==> c[m] <= c[k]) && forall k :: 0 <= k < m ==> c[m] < c[k]
  }

  ghost function Classes(r: seq<int>, w: seq<int>): (c: seq<int>)
    requires |r| == |w|
    ensures |c| == |r| && forall k :: 0 <= k < |r| ==> c[k] == Class(r[k], w[k])
  {
    seq(|r|, k requires 0 <= k < |r| => Class(r[k], w[k]))
  }

  /** The frame used longest ago if its class is lowest, otherwise the first of the lowest class. */
  ghost predicate LowestClass(r: seq<int>, w: seq<int>, stamps: seq<int>, v: nat)
    requires |r| == |w| == |stamps|
  {
    var classes := Classes(r, w);
    && v < |r|
    && (forall k :: 0 <= k < |r| ==> classes[v] <= classes[k])
    && (FirstLeast(stamps, v) ||
        (FirstLeast(classes, v) && forall m: nat :: FirstLeast(stamps, m) ==> classes[v] < classes[m]))
  }

  /** get_high_priority_idx: a frame of the lowest class; `head` itself if it is one,
      otherwise the first. */
  method GetHighPriorityIdx(head: nat, rbit: array<int>, wbit: array<int>) returns (idx: nat)
    requires rbit.Length == wbit.Length > head
    requires forall k :: 0 <= k < rbit.Length ==> Bit(rbit[k]) && Bit(wbit[k])
    ensures idx < rbit.Length
    ensures forall k :: 0 <= k < rbit.Length ==> Class(rbit[idx], wbit[idx]) <= Class(rbit[k], wbit[k])
    ensures idx == head || forall k :: 0 <= k < idx ==> Class(rbit[idx], wbit[idx]) < Class(rbit[k], wbit[k])
    ensures idx != head ==> Class(rbit[idx], wbit[idx]) < Class(rbit[head], wbit[head])
  {
    if rbit[head] == 0 && wbit[head] == 0 { return head; }
    var n := rbit.Length;
    var tmp := new int[n](_ => 0);
    for i := 0 to n
      invariant forall k :: 0 <= k < i ==> tmp[k] == Class(rbit[k], wbit[k])
    {
      if rbit[i] == 0 && wbit[i] == 0 { tmp[i] := 0; }
      else if rbit[i] == 0 && wbit[i] == 1 { tmp[i] := 1; }
      else if rbit[i] == 1 && wbit[i] == 0 { tmp[i] := 2; }
      else if rbit[i] == 1 && wbit[i] == 1 { tmp[i] := 3; }
    }
    idx := head;
    for i := 0 to n
      invariant idx < n && (idx == head || idx < i)
      invariant forall k :: 0 <= k < i ==> tmp[idx] <= tmp[k]
      invariant idx == head || (tmp[idx] < tmp[head] && forall k :: 0 <= k < idx ==> tmp[idx] < tmp[k])
    {
      if tmp[idx] > tmp[i] { idx := i; }
    }
  }

  /** Read bit, write bit and time of last use of every frame. */
  datatype Marks = Marks(r: seq<int>, w: seq<int>, stamps: seq<int>)

  /** A frame that serves a reference: the write bit is set by a hit, and by a load for
      writing; the read bit is set by a load for reading. */
  ghost function Marked(m: Marks, k: nat, hit: bool, rw: int, now: int): Marks
    requires k < |m.r| == |m.w| == |m.stamps|
  {
    Marks(if hit then m.r else m.r[k := if rw == 0 then 1 else 0],
          m.w[k := if hit || rw != 0 then 1 else 0],
          m.stamps[k := now])
  }

  ghost function MarksAt(refs: seq<Ref>, n: nat, vs: seq<nat>, i: nat): (m: Marks)
    requires Choices(n, vs, |refs|) && i <= |refs|
    ensures |m.r| == |m.w| == |m.stamps| == n
  {
    var zeros := seq(n, _ => 0);
    if i == 0 then Marks(zeros, zeros, zeros)
    else
      var m, p := MarksAt(refs, n, vs, i - 1), refs[i-1].data;
      var f, f' := At([], n, Pages(refs), vs, i - 1), At([], n, Pages(refs), vs, i);
      if NextUse(f', p) < n then Marked(m, NextUse(f', p), p in f, refs[i-1].rw, i) else m
  }

  lemma {:induction false} SameMarks(refs: seq<Ref>, n: nat, vs: seq<nat>, i: nat, v: nat, j: nat)
    requires Choices(n, vs, |refs|) && j <= i < |refs| && v < n
    ensures MarksAt(refs, n, vs[i := v], j) == MarksAt(refs, n, vs, j)
  {
    if j > 0 {
      SameMarks(refs, n, vs, i, v, j - 1);
      SamePast(Pages(refs), n, vs, i, v, j - 1);
      SamePast(Pages(refs), n, vs, i, v, j);
    }
  }

  /** If a victim is needed, it is chosen by class and then by age. */
  ghost predicate LowestClassAt(n: nat, refs: seq<Ref>, vs: seq<nat>, i: nat)
    requires Choices(n, vs, |refs|) && i < |refs|
  {
    var f, m := At([], n, Pages(refs), vs, i), MarksAt(refs, n, vs, i);
    |f| == n && refs[i].data !in f ==> LowestClass(m.r, m.w, m.stamps, vs[i])
  }

  lemma EscRound(refs: seq<Ref>, n: nat, vs: seq<nat>, i: nat, v: nat, vs': seq<nat>, m: Marks, a': seq<int>, k: nat)
    requires Choices(n, vs, |refs|) && i < |refs| && v < n && vs' == vs[i := v]
    requires m == MarksAt(refs, n, vs, i) && k < n
    requires forall j :: 0 <= j < i ==> LowestClassAt(n, refs, vs, j)
    requires var f := At([], n, Pages(refs), vs, i);
      |f| == n && refs[i].data !in f ==> LowestClass(m.r, m.w, m.stamps, v)
    requires var f' := At([], n, Pages(refs), vs', i + 1);
      Holds(a', n, f') && k < |f'| && a'[k] == refs[i].data
    ensures MarksAt(refs, n, vs', i + 1)
         == Marked(m, k, refs[i].data in At([], n, Pages(refs), vs, i), refs[i].rw, i + 1)
    ensures forall j :: 0 <= j <= i ==> LowestClassAt(n, refs, vs', j)
  {
    var f' := At([], n, Pages(refs), vs', i + 1);
    SameMarks(refs, n, vs, i, v, i);
    SamePast(Pages(refs), n, vs, i, v, i);
    AtValid(n, Pages(refs), vs', i + 1);
    assert f'[k] == a'[..|f'|][k];
    assert NextUse(f', refs[i].data) == k;
    forall j | 0 <= j <= i ensures LowestClassAt(n, refs, vs', j) {
      SamePast(Pages(refs), n, vs, i, v, j);
      SameMarks(refs, n, vs, i, v, j);
      assert j < i ==> LowestClassAt(n, refs, vs, j);
    }
  }

  /** The victim of esc: the oldest frame, or the first of a lower class. */
  method EscVictim(counter: array<int>, rbit: array<int>, wbit: array<int>) returns (idx: nat)
    requires counter.Length == rbit.Length == wbit.Length > 0
    requires forall k :: 0 <= k < rbit.Length ==> Bit(rbit[k]) && Bit(wbit[k])
    ensures LowestClass(rbit[..], wbit[..], counter[..], idx)
  {
    var oldest := MinIdx(counter);
    idx := GetHighPriorityIdx(oldest, rbit, wbit);
    ghost var stamps, classes := counter[..], Classes(rbit[..], wbit[..]);
    assert FirstLeast(stamps, oldest);
    assert forall m: nat :: FirstLeast(stamps, m) ==> m == oldest;
    assert forall k :: 0 <= k < rbit.Length ==> classes[k] == Class(rbit[k], wbit[k]);
  }

  /** Replacing a page sets the bits of its frame by the kind of access. */
  method Load(rbit: array<int>, wbit: array<int>, index: nat, rw: int)
    requires index < rbit.Length == wbit.Length && rbit != wbit
    modifies rbit, wbit
    ensures rbit[..] == old(rbit[..])[index := if rw == 0 then 1 else 0]
    ensures wbit[..] == old(wbit[..])[index := if rw == 0 then 0 else 1]
  {
    if rw == 0 {
      rbit[index] := 1;
      wbit[index] := 0;
    } else {
      rbit[index] := 0;
      wbit[index] := 1;
    }
  }

  ghost predicate Bits(s: seq<int>) {
    forall k :: 0 <= k < |s| ==> Bit(s[k])
  }

  /** One reference of esc: frame `k` serves it, `v` is the victim if one is needed. */
  method EscServe(ref: Ref, now: int, pageFrame: array<int>, occupied: nat,
                  counter: array<int>, rbit: array<int>, wbit: array<int>)
    returns (hit: bool, occupied': nat, ghost k: nat, ghost v: nat)
    requires occupied <= pageFrame.Length == counter.Length == rbit.Length == wbit.Length && pageFrame.Length > 0
    requires pageFrame != counter && pageFrame != rbit && pageFrame != wbit
    requires counter != rbit && counter != wbit && rbit != wbit
    requires Bits(rbit[..]) && Bits(wbit[..]) && ref.data != EMPTY
    requires forall j :: occupied <= j < pageFrame.Length ==> pageFrame[j] == EMPTY
    modifies pageFrame, counter, rbit, wbit
    ensures hit <==> ref.data in old(pageFrame[..occupied])
    ensures occupied' == if hit || occupied == pageFrame.Length then occupied else occupied + 1
    ensures v < pageFrame.Length && k < occupied' && pageFrame[k] == ref.data
    ensures pageFrame[..] == Placed(old(pageFrame[..]), pageFrame.Length, occupied, ref.data, v)
    ensures Marks(rbit[..], wbit[..], counter[..])
         == Marked(old(Marks(rbit[..], wbit[..], counter[..])), k, hit, ref.rw, now)
    ensures Bits(rbit[..]) && Bits(wbit[..])
    ensures !hit && occupied == pageFrame.Length ==>
      LowestClass(old(rbit[..]), old(wbit[..]), old(counter[..]), v)
  {
    ghost var a := pageFrame[..];
    var found := CheckHit(ref.data, pageFrame, occupied);
    HitIsResident(a, occupied, ref.data, found);
    var index := found;
    hit, occupied', v := found >= 0, occupied, 0;
    if hit {
      wbit[index] := 1;
    } else {
      if occupied >= pageFrame.Length {
        index := EscVictim(counter, rbit, wbit);
        v := index;
      } else {
        index := occupied;
        occupied' := occupied + 1;
      }
      pageFrame[index] := ref.data;
      Load(rbit, wbit, index, ref.rw);
    }
    counter[index] := now;
    k := index;
  }

  method EnhancedSecondChanceRun(refs: seq<Ref>, n: nat)
    returns (faults: nat, printed: seq<seq<int>>, ghost vs: seq<nat>)
    requires n > 0 && Proper(refs)
    ensures Simulates(Pages(refs), n, vs, faults, printed)
    ensures forall i :: 0 <= i < |refs| ==> LowestClassAt(n, refs, vs, i)
    ensures NotBeaten(n, Pages(refs), faults)
  {
    ghost var pages := Pages(refs);
    var counter, cnt := new int[n](_ => 0), 0;
    var rbit, wbit := new int[n](_ => 0), new int[n](_ => 0);
    var pageFrame := new int[n](_ => EMPTY);
    var occupied := 0;
    faults, printed, vs := 0, [pageFrame[..]], seq(|refs|, _ => 0);
    SimStart(pages, n, vs, pageFrame[..]);
    assert counter[..] == seq(n, _ => 0) && rbit[..] == seq(n, _ => 0) && wbit[..] == seq(n, _ => 0);
    for i := 0 to |refs|
      invariant Sim(pages, n, vs, i, pageFrame[..], occupied, faults, printed)
      invariant cnt == i && Bits(rbit[..]) && Bits(wbit[..])
      invariant Marks(rbit[..], wbit[..], counter[..]) == MarksAt(refs, n, vs, i)
      invariant forall k :: 0 <= k < i ==> LowestClassAt(n, refs, vs, k)
    {
      ghost var a, m, occupied0, faults0 := pageFrame[..], MarksAt(refs, n, vs, i), occupied, faults;
      cnt := cnt + 1;
      ghost var k, v;
      var hit;
      hit, occupied, k, v := EscServe(refs[i], cnt, pageFrame, occupied, counter, rbit, wbit);
      if !hit { faults := faults + 1; }
      SimStep(pages, n, vs, i, a, occupied0, faults0, printed, v, pageFrame[..]);
      EscRound(refs, n, vs, i, v, vs[i := v], m, pageFrame[..], k);
      vs := vs[i := v];
      printed := printed + [pageFrame[..]];
    }
    SimDone(pages, n, vs, pageFrame[..], occupied, faults, printed);
  }
}
