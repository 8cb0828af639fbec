/** optimal and the two LRU implementations as the simulator runs them, each over its own
    frame array. A policy returns its number of faults and the frame arrays it prints: one
    at the start and one per reference. */
module Simulator {
  import opened Common
  import opened Paging
  import opened Belady
  import opened Recency

  /** The run with victims `vs` prints `printed` and counts `faults`. */
  ghost predicate Simulates(pages: seq<int>, n: nat, vs: seq<nat>, faults: nat, printed: seq<seq<int>>) {
    && Choices(n, vs, |pages|)
    && |printed| == |pages| + 1
    && (forall j :: 0 <= j <= |pages| ==> Holds(printed[j], n, At([], n, pages, vs, j)))
    && faults == Cost([], n, pages, vs)
  }

  /** The same after the first `i` references, with the frame array still in hand. */
  ghost predicate Sim(pages: seq<int>, n: nat, vs: seq<nat>, i: nat,
                      a: seq<int>, occupied: nat, faults: nat, printed: seq<seq<int>>)
  {
    && Choices(n, vs, |pages|) && i <= |pages|
    && occupied == |At([], n, pages, vs, i)|
    && Holds(a, n, At([], n, pages, vs, i))
    && faults == Cost([], n, pages[..i], vs[..i])
    && |printed| == i + 1
    && (forall j :: 0 <= j <= i ==> Holds(printed[j], n, At([], n, pages, vs, j)))
  }

  /** What serving `p` does to the frame array, with `v` as the victim. */
  function Placed(a: seq<int>, n: nat, occupied: nat, p: int, v: nat): seq<int>
    requires v < n == |a| && occupied <= n
  {
    if p in a[..occupied] then a
    else if occupied < n then a[occupied := p]
    else a[v := p]
  }

  lemma SimStart(pages: seq<int>, n: nat, vs: seq<nat>, a: seq<int>)
    requires Choices(n, vs, |pages|) && |a| == n && forall k :: 0 <= k < n ==> a[k] == EMPTY
    ensures Sim(pages, n, vs, 0, a, 0, 0, [a])
  {
  }

  lemma ServePlaced(a: seq<int>, n: nat, f: seq<int>, p: int, v: nat)
    requires v < n && Holds(a, n, f)
    ensures Holds(Placed(a, n, |f|, p, v), n, Serve(f, n, p, v))
  {
    var a', f' := Placed(a, n, |f|, p, v), Serve(f, n, p, v);
    assert a'[..|f'|] == f';
  }

  /** Filling in the victim of reference `i` does not change what came before. */
  lemma SamePast(pages: seq<int>, n: nat, vs: seq<nat>, i: nat, v: nat, j: nat)
    requires Choices(n, vs, |pages|) && j <= i < |pages| && v < n
    ensures At([], n, pages, vs[i := v], j) == At([], n, pages, vs, j)
    ensures Cost([], n, pages[..j], vs[i := v][..j]) == Cost([], n, pages[..j], vs[..j])
  {
    assert vs[i := v][..j] == vs[..j];
  }

  lemma SimStep(pages: seq<int>, n: nat, vs: seq<nat>, i: nat, a: seq<int>, occupied: nat, faults: nat,
                printed: seq<seq<int>>, v: nat, a': seq<int>)
    requires Sim(pages, n, vs, i, a, occupied, faults, printed) && i < |pages| && v < n
    requires a' == Placed(a, n, occupied, pages[i], v)
    ensures var p := pages[i];
      Sim(pages, n, vs[i := v], i + 1, a',
          if p !in a[..occupied] && occupied < n then occupied + 1 else occupied,
          if p in a[..occupied] then faults else faults + 1, printed + [a'])
  {
    var vs' := vs[i := v];
    forall j | 0 <= j <= i ensures At([], n, pages, vs', j) == At([], n, pages, vs, j) {
      SamePast(pages, n, vs, i, v, j);
    }
    SamePast(pages, n, vs, i, v, i);
    AtStep([], n, pages, vs', i);
    ServePlaced(a, n, At([], n, pages, vs, i), pages[i], v);
  }

  lemma SimDone(pages: seq<int>, n: nat, vs: seq<nat>, a: seq<int>, occupied: nat, faults: nat, printed: seq<seq<int>>)
    requires Sim(pages, n, vs, |pages|, a, occupied, faults, printed)
    ensures Simulates(pages, n, vs, faults, printed) && NotBeaten(n, pages, faults)
  {
    NoRunBeatsOptimal(n, pages, vs);
    assert pages[..|pages|] == pages && vs[..|pages|] == vs;
  }

  // ------------------------------------------------------------ the printed frames

  /** One line of output after another: nothing changes on a hit; on a fault the page goes into
      the first empty frame, and into frame `v` if there is none. */
  ghost predicate Turnover(a: seq<int>, p: int, v: nat, a': seq<int>) {
    if p in a then a' == a
    else if EMPTY in a then exists k :: FirstEmpty(a, k) && a' == a[k := p]
    else v < |a| && a' == a[v := p]
  }

  ghost predicate FirstEmpty(a: seq<int>, k: int) {
    0 <= k < |a| && a[k] == EMPTY && EMPTY !in a[..k]
  }

  /** What a run prints and counts, in terms of its output alone: it starts with empty frames,
      each line follows from the one before, and the faults are the references to pages that are
      not in the frames printed before. */
  lemma PrintedRun(pages: seq<int>, n: nat, vs: seq<nat>, faults: nat, printed: seq<seq<int>>)
    requires Simulates(pages, n, vs, faults, printed) && EMPTY !in pages
    ensures |printed[0]| == n && forall k :: 0 <= k < n ==> printed[0][k] == EMPTY
    ensures forall i :: 0 <= i < |pages| ==> Turnover(printed[i], pages[i], vs[i], printed[i+1])
    ensures faults == |Faulting(pages, printed, |pages|)|
  {
    forall i | 0 <= i < |pages| ensures Turnover(printed[i], pages[i], vs[i], printed[i+1]) {
      PrintedStep(pages, n, vs, i, printed[i], printed[i+1]);
    }
    FaultsTo(pages, n, vs, printed, |pages|);
    assert pages[..|pages|] == pages && vs[..|pages|] == vs;
  }

  lemma ResidentIs(pages: seq<int>, n: nat, vs: seq<nat>, i: nat, a: seq<int>)
    requires Choices(n, vs, |pages|) && i < |pages| && EMPTY !in pages && Holds(a, n, At([], n, pages, vs, i))
    ensures pages[i] in a <==> pages[i] in At([], n, pages, vs, i)
    ensures forall k :: 0 <= k < n ==> (a[k] == EMPTY <==> k >= |At([], n, pages, vs, i)|)
  {
    var f := At([], n, pages, vs, i);
    AtValid(n, pages, vs, i);
    forall k | 0 <= k < |f| ensures a[k] == f[k] != EMPTY { assert f[k] in pages[..i]; }
    assert pages[i] != EMPTY;
    if pages[i] in f { var k :| 0 <= k < |f| && f[k] == pages[i]; assert a[k] == pages[i]; }
  }

  lemma PrintedStep(pages: seq<int>, n: nat, vs: seq<nat>, i: nat, a: seq<int>, a': seq<int>)
    requires Choices(n, vs, |pages|) && i < |pages| && EMPTY !in pages
    requires Holds(a, n, At([], n, pages, vs, i)) && Holds(a', n, At([], n, pages, vs, i + 1))
    ensures Turnover(a, pages[i], vs[i], a')
  {
    var f := At([], n, pages, vs, i);
    ResidentIs(pages, n, vs, i, a);
    AtStep([], n, pages, vs, i);
    ServePlaced(a, n, f, pages[i], vs[i]);
    HoldsOnce(a', Placed(a, n, |f|, pages[i], vs[i]), n, At([], n, pages, vs, i + 1));
    if |f| < n {
      assert a[|f|] == EMPTY;
      forall k | 0 <= k < |f| ensures a[..|f|][k] != EMPTY {}
      assert FirstEmpty(a, |f|);
    }
    assert a[..|f|] == f;
  }

  lemma HoldsOnce(a: seq<int>, b: seq<int>, n: nat, f: seq<int>)
    requires Holds(a, n, f) && Holds(b, n, f)
    ensures a == b
  {
    forall k | 0 <= k < n ensures a[k] == b[k] {
      if k < |f| { assert a[k] == a[..|f|][k] && b[k] == b[..|f|][k]; }
    }
  }

  /** Those of the first `m` references whose pages are not in the frames printed before. */
  ghost function Faulting(pages: seq<int>, printed: seq<seq<int>>, m: nat): set<nat>
    requires m <= |pages| < |printed|
  {
    set i: nat | i < m && pages[i] !in printed[i]
  }

  lemma FaultingStep(pages: seq<int>, printed: seq<seq<int>>, m: nat)
    requires m < |pages| < |printed|
    ensures |Faulting(pages, printed, m + 1)| ==
      |Faulting(pages, printed, m)| + if pages[m] in printed[m] then 0 else 1
  {
    var rest := Faulting(pages, printed, m);
    assert Faulting(pages, printed, m + 1) == if pages[m] in printed[m] then rest else rest + {m};
  }

  lemma {:induction false} FaultsTo(pages: seq<int>, n: nat, vs: seq<nat>, printed: seq<seq<int>>, m: nat)
    requires Choices(n, vs, |pages|) && EMPTY !in pages && m <= |pages| == |printed| - 1
    requires forall j :: 0 <= j <= |pages| ==> Holds(printed[j], n, At([], n, pages, vs, j))
    ensures Cost([], n, pages[..m], vs[..m]) == |Faulting(pages, printed, m)|
  {
    if m > 0 {
      FaultsTo(pages, n, vs, printed, m - 1);
      AtStep([], n, pages, vs, m - 1);
      ResidentIs(pages, n, vs, m - 1, printed[m-1]);
      FaultingStep(pages, printed, m - 1);
    }
  }

  /** A policy may assume that no page number is the marker of an empty frame. */
  predicate Proper(refs: seq<Ref>) {
    forall i :: 0 <= i < |refs| ==> refs[i].data != EMPTY
  }

  /** check_hit looks at one frame more than are occupied, while there is one. */
  method CheckHit(key: int, pageFrame: array<int>, occupied: nat) returns (ret: int)
    requires occupied <= pageFrame.Length
    ensures var limit := if occupied < pageFrame.Length then occupied + 1 else occupied;
      if ret == -1 then key !in pageFrame[..limit]
      else 0 <= ret < limit && pageFrame[ret] == key && key !in pageFrame[..ret]
  {
    var limit := occupied;
    if limit < pageFrame.Length { limit := limit + 1; }
    ret := -1;
    var i := 0;
    while i < limit
      invariant 0 <= i <= limit && ret == -1 && key !in pageFrame[..i]
    {
      if key == pageFrame[i] {
        ret := i;
        break;
      }
      i := i + 1;
    }
  }

  lemma HitIsResident(a: seq<int>, occupied: nat, key: int, ret: int)
    requires occupied <= |a| && key != EMPTY && forall k :: occupied <= k < |a| ==> a[k] == EMPTY
    requires var limit := if occupied < |a| then occupied + 1 else occupied;
      if ret == -1 then key !in a[..limit] else 0 <= ret < limit && a[ret] == key
    ensures ret >= 0 <==> key in a[..occupied]
    ensures ret >= 0 ==> ret < occupied
  {
    if ret == -1 {
      forall k | 0 <= k < occupied ensures a[k] != key {
        assert a[k] in a[..if occupied < |a| then occupied + 1 else occupied];
      }
    } else {
      assert a[..occupied][ret] == key;
    }
  }

  // ------------------------------------------------------------------ optimal

  /** find_farthest_aft_idx: a frame whose page is used again no sooner than any other's. */
  method FindFarthestAftIdx(start: nat, pages: seq<int>, pageFrame: array<int>) returns (idx: nat)
    requires start <= |pages| && pageFrame.Length > 0 && Distinct(pageFrame[..])
    ensures idx < pageFrame.Length
    ensures forall k :: 0 <= k < pageFrame.Length ==>
      NextUse(pages[start..], pageFrame[k]) <= NextUse(pages[start..], pageFrame[idx])
  {
    var max, maxIdx := start, -1;
    var i := 0;
    while i < pageFrame.Length
      invariant 0 <= i <= pageFrame.Length && start <= max < |pages| + (if i == 0 then 1 else 0)
      invariant -1 <= maxIdx < i
      invariant maxIdx >= 0 ==> max - start == NextUse(pages[start..], pageFrame[maxIdx]) && max > start
      invariant maxIdx == -1 ==> max == start
      invariant forall k :: 0 <= k < i ==> NextUse(pages[start..], pageFrame[k]) <= max - start
    {
      var j := FirstUse(start, pages, pageFrame[i]);
      if j == |pages| { return i; }
      if j > max { max, maxIdx := j, i; }
      i := i + 1;
    }
    idx := if maxIdx == -1 then 0 else maxIdx;
    if maxIdx == -1 {
      forall k | 0 <= k < pageFrame.Length ensures NextUse(pages[start..], pageFrame[k]) == 0 {}
    }
  }

  /** The inner loop: the first index at or after `start` where `p` is referenced, or the end. */
  method FirstUse(start: nat, pages: seq<int>, p: int) returns (j: nat)
    requires start <= |pages|
    ensures start <= j <= |pages| && j - start == NextUse(pages[start..], p)
  {
    j := start;
    while j < |pages| && p != pages[j]
      invariant start <= j <= |pages|
      invariant forall k :: start <= k < j ==> pages[k] != p
    {
      j := j + 1;
    }
    assert forall k :: 0 <= k < |pages| - start ==> pages[start..][k] == pages[start + k];
  }

  lemma FarthestSoFar(pages: seq<int>, n: nat, vs: seq<nat>, i: nat, v: nat, vs': seq<nat>)
    requires Choices(n, vs, |pages|) && i < |pages| && v < n && vs' == vs[i := v]
    requires forall k :: 0 <= k < i ==> FarthestAt([], n, pages, vs, k)
    requires Farthest(At([], n, pages, vs, i), n, pages[i], pages[i+1..], v)
    ensures forall k :: 0 <= k <= i ==> FarthestAt([], n, pages, vs', k)
  {
    forall k | 0 <= k <= i ensures FarthestAt([], n, pages, vs', k) {
      SamePast(pages, n, vs, i, v, k);
      assert k < i ==> FarthestAt([], n, pages, vs, k);
    }
  }

  method Optimal(refs: seq<Ref>, n: nat) returns (faults: nat, printed: seq<seq<int>>, ghost vs: seq<nat>)
    requires n > 0 && Proper(refs)
    ensures Simulates(Pages(refs), n, vs, faults, printed)
    ensures FarthestFrom([], n, Pages(refs), vs)
    ensures forall ws :: Choices(n, ws, |refs|) ==> faults <= Cost([], n, Pages(refs), ws)
  {
    var pages := Pages(refs);
    var pageFrame := new int[n](_ => EMPTY);
    var occupied := 0;
    faults, printed, vs := 0, [pageFrame[..]], seq(|refs|, _ => 0);
    SimStart(pages, n, vs, pageFrame[..]);
    for i := 0 to |refs|
      invariant Sim(pages, n, vs, i, pageFrame[..], occupied, faults, printed)
      invariant forall k :: 0 <= k < i ==> FarthestAt([], n, pages, vs, k)
    {
      ghost var a, occupied0, faults0, v := pageFrame[..], occupied, faults, 0;
      AtValid(n, pages, vs, i);
      var hit := CheckHit(pages[i], pageFrame, occupied);
      HitIsResident(a, occupied, pages[i], hit);
      if hit < 0 {
        faults := faults + 1;
        if occupied >= n {
          assert a == At([], n, pages, vs, i);
          var tmp := FindFarthestAftIdx(i + 1, pages, pageFrame);
          pageFrame[tmp] := pages[i];
          v := tmp;
        } else {
          pageFrame[occupied] := pages[i];
          occupied := occupied + 1;
        }
      }
      SimStep(pages, n, vs, i, a, occupied0, faults0, printed, v, pageFrame[..]);
      FarthestSoFar(pages, n, vs, i, v, vs[i := v]);
      vs := vs[i := v];
      printed := printed + [pageFrame[..]];
    }
    SimDone(pages, n, vs, pageFrame[..], occupied, faults, printed);
    forall ws | Choices(n, ws, |refs|) ensures faults <= Cost([], n, pages, ws) {
      BeladyOptimality(n, pages, vs, ws);
    }
  }

  // ---------------------------------------------------------------------- LRU

  /** find_farthest_idx: a frame whose page was last used no later than any other's.
      The scan finds every page, so every distance that is compared has been set. */
  method FindFarthestIdx(start: int, pages: seq<int>, pageFrame: array<int>) returns (idx: nat)
    requires -1 <= start < |pages| && pageFrame.Length > 0
    requires forall k :: 0 <= k < pageFrame.Length ==> pageFrame[k] in pages[..start+1]
    ensures idx < pageFrame.Length
    ensures forall k :: 0 <= k < pageFrame.Length ==>
      LastUse(pages[..start+1], pageFrame[idx]) <= LastUse(pages[..start+1], pageFrame[k])
  {
    var n := pageFrame.Length;
    var distance := new int[n](_ => 0);
    ghost var past := pages[..start+1];
    for i := 0 to n
      invariant forall k :: 0 <= k < i ==> distance[k] == LastUse(past, pageFrame[k])
    {
      var j := start;
      while j >= 0 && pageFrame[i] != pages[j]
        invariant -1 <= j <= start
        invariant forall k :: j < k < |past| ==> past[k] != pageFrame[i]
      {
        j := j - 1;
      }
      assert j >= 0 by { assert pageFrame[i] in past; }
      distance[i] := j;
    }
    idx := 0;
    for i := 0 to n
      invariant idx < n
      invariant forall k :: 0 <= k < i ==> distance[idx] <= distance[k]
    {
      if distance[i] < distance[idx] { idx := i; }
    }
  }

  lemma OldestSoFar(pages: seq<int>, n: nat, vs: seq<nat>, i: nat, v: nat, vs': seq<nat>)
    requires Choices(n, vs, |pages|) && i < |pages| && v < n && vs' == vs[i := v]
    requires forall k :: 0 <= k < i ==> OldestAt(n, pages, vs, k)
    requires Oldest(At([], n, pages, vs, i), n, pages[i], pages[..i], v)
    ensures forall k :: 0 <= k <= i ==> OldestAt(n, pages, vs', k)
  {
    forall k | 0 <= k <= i ensures OldestAt(n, pages, vs', k) {
      SamePast(pages, n, vs, i, v, k);
      assert k < i ==> OldestAt(n, pages, vs, k);
    }
  }

  method LruByScan(refs: seq<Ref>, n: nat) returns (faults: nat, printed: seq<seq<int>>, ghost vs: seq<nat>)
    requires n > 0 && Proper(refs)
    ensures Simulates(Pages(refs), n, vs, faults, printed)
    ensures Lru(n, Pages(refs), vs)
    ensures NotBeaten(n, Pages(refs), faults)
    ensures forall ws :: Choices(n, ws, |refs|) ==> faults <= n * Cost([], n, Pages(refs), ws)
  {
    var pages := Pages(refs);
    var pageFrame := new int[n](_ => EMPTY);
    var occupied := 0;
    faults, printed, vs := 0, [pageFrame[..]], seq(|refs|, _ => 0);
    SimStart(pages, n, vs, pageFrame[..]);
    for i := 0 to |refs|
      invariant Sim(pages, n, vs, i, pageFrame[..], occupied, faults, printed)
      invariant forall k :: 0 <= k < i ==> OldestAt(n, pages, vs, k)
    {
      ghost var a, occupied0, faults0, v := pageFrame[..], occupied, faults, 0;
      AtValid(n, pages, vs, i);
      var hit := CheckHit(pages[i], pageFrame, occupied);
      HitIsResident(a, occupied, pages[i], hit);
      if hit < 0 {
        faults := faults + 1;
        if occupied >= n {
          assert a == At([], n, pages, vs, i);
          assert forall k :: 0 <= k < n ==> a[k] == pageFrame[k];
          var tmp := FindFarthestIdx(i - 1, pages, pageFrame);
          pageFrame[tmp] := pages[i];
          v := tmp;
        } else {
          pageFrame[occupied] := pages[i];
          occupied := occupied + 1;
        }
      }
      SimStep(pages, n, vs, i, a, occupied0, faults0, printed, v, pageFrame[..]);
      OldestSoFar(pages, n, vs, i, v, vs[i := v]);
      vs := vs[i := v];
      printed := printed + [pageFrame[..]];
    }
    SimDone(pages, n, vs, pageFrame[..], occupied, faults, printed);
    forall ws | Choices(n, ws, |refs|) ensures faults <= n * Cost([], n, pages, ws) {
      LruCompetitive(n, pages, vs, ws);
    }
  }

  /** The scan for the smallest counter; the first one wins. */
  method MinIdx(counter: array<int>) returns (idx: nat)
    requires counter.Length > 0
    ensures idx < counter.Length
    ensures forall k :: 0 <= k < counter.Length ==> counter[idx] <= counter[k]
    ensures forall k :: 0 <= k < idx ==> counter[idx] < counter[k]
  {
    idx := 0;
    for j := 0 to counter.Length
      invariant idx < counter.Length && (idx < j || idx == 0)
      invariant forall k :: 0 <= k < j ==> counter[idx] <= counter[k]
      invariant forall k :: 0 <= k < idx ==> counter[idx] < counter[k]
    {
      if counter[j] < counter[idx] { idx := j; }
    }
  }

  /** lru2's counters are the times of last use, counted from one. */
  ghost predicate Timestamps(past: seq<int>, a: seq<int>, counter: seq<int>, occupied: nat) {
    occupied <= |a| == |counter|
    && forall k :: 0 <= k < occupied ==> counter[k] == LastUse(past, a[k]) + 1
  }

  lemma TimestampsStep(past: seq<int>, p: int, a: seq<int>, counter: seq<int>, occupied: nat, k: nat,
                       a': seq<int>, counter': seq<int>, occupied': nat)
    requires Timestamps(past, a, counter, occupied) && k < occupied' <= |a|
    requires a' == a[k := p] && counter' == counter[k := |past| + 1]
    requires forall j :: 0 <= j < occupied' && j != k ==> j < occupied && a[j] != p
    ensures Timestamps(past + [p], a', counter', occupied')
  {
    forall j | 0 <= j < occupied' ensures counter'[j] == LastUse(past + [p], a'[j]) + 1 {
      LastUseSnoc(past, p, a'[j]);
    }
  }

  lemma TimestampRound(pages: seq<int>, n: nat, vs: seq<nat>, i: nat, a: seq<int>, c: seq<int>, occupied: nat,
                       k: nat, v: nat, a': seq<int>, c': seq<int>, occupied': nat, vs': seq<nat>)
    requires n > 0 && Choices(n, vs, |pages|) && i < |pages| && v < n && k < occupied' <= n && vs' == vs[i := v]
    requires Holds(a, n, At([], n, pages, vs, i)) && occupied == |At([], n, pages, vs, i)|
    requires Distinct(At([], n, pages, vs, i)) && Timestamps(pages[..i], a, c, occupied)
    requires pages[i] in a[..occupied] ==> occupied' == occupied && a[k] == pages[i]
    requires pages[i] !in a[..occupied] && occupied < n ==> k == occupied && occupied' == occupied + 1
    requires pages[i] !in a[..occupied] && occupied == n ==>
      k == v && occupied' == n && forall j :: 0 <= j < n ==> c[v] <= c[j]
    requires a' == a[k := pages[i]] && c' == c[k := i + 1]
    requires forall j :: 0 <= j < i ==> OldestAt(n, pages, vs, j)
    ensures Timestamps(pages[..i+1], a', c', occupied')
    ensures forall j :: 0 <= j <= i ==> OldestAt(n, pages, vs', j)
  {
    LruSlot(pages, n, vs, i, a, c, occupied, k, v);
    TimestampsStep(pages[..i], pages[i], a, c, occupied, k, a', c', occupied');
    assert pages[..i+1] == pages[..i] + [pages[i]];
    OldestSoFar(pages, n, vs, i, v, vs');
  }

  method LruByTimestamp(refs: seq<Ref>, n: nat) returns (faults: nat, printed: seq<seq<int>>, ghost vs: seq<nat>)
    requires n > 0 && Proper(refs)
    ensures Simulates(Pages(refs), n, vs, faults, printed)
    ensures Lru(n, Pages(refs), vs)
    ensures NotBeaten(n, Pages(refs), faults)
  {
    var pages := Pages(refs);
    var counter, cnt := new int[n](_ => 0), 0;
    var pageFrame := new int[n](_ => EMPTY);
    var occupied := 0;
    faults, printed, vs := 0, [pageFrame[..]], seq(|refs|, _ => 0);
    SimStart(pages, n, vs, pageFrame[..]);
    for i := 0 to |refs|
      invariant Sim(pages, n, vs, i, pageFrame[..], occupied, faults, printed)
      invariant cnt == i && Timestamps(pages[..i], pageFrame[..], counter[..], occupied)
      invariant forall k :: 0 <= k < i ==> OldestAt(n, pages, vs, k)
    {
      ghost var a, c, occupied0, faults0, v := pageFrame[..], counter[..], occupied, faults, 0;
      AtValid(n, pages, vs, i);
      cnt := cnt + 1;
      var hit := CheckHit(pages[i], pageFrame, occupied);
      HitIsResident(a, occupied, pages[i], hit);
      ghost var k := hit;
      if hit >= 0 {
        counter[hit] := cnt;
      } else {
        faults := faults + 1;
        if occupied >= n {
          var tmp := MinIdx(counter);
          pageFrame[tmp] := pages[i];
          counter[tmp] := cnt;
          v, k := tmp, tmp;
        } else {
          pageFrame[occupied] := pages[i];
          counter[occupied] := cnt;
          k := occupied;
          occupied := occupied + 1;
        }
      }
      SimStep(pages, n, vs, i, a, occupied0, faults0, printed, v, pageFrame[..]);
      TimestampRound(pages, n, vs, i, a, c, occupied0, k, v, pageFrame[..], counter[..], occupied, vs[i := v]);
      vs := vs[i := v];
      printed := printed + [pageFrame[..]];
    }
    SimDone(pages, n, vs, pageFrame[..], occupied, faults, printed);
  }

  /** Frame `k` serves reference `i`; the victim with the smallest counter is the oldest. */
  lemma LruSlot(pages: seq<int>, n: nat, vs: seq<nat>, i: nat, a: seq<int>, c: seq<int>, occupied: nat, k: nat, v: nat)
    requires n > 0 && Choices(n, vs, |pages|) && i < |pages| && v < n && k < n
    requires Holds(a, n, At([], n, pages, vs, i)) && occupied == |At([], n, pages, vs, i)|
    requires Distinct(At([], n, pages, vs, i)) && Timestamps(pages[..i], a, c, occupied)
    requires pages[i] in a[..occupied] ==> k < occupied && a[k] == pages[i]
    requires pages[i] !in a[..occupied] && occupied < n ==> k == occupied
    requires pages[i] !in a[..occupied] && occupied == n ==> k == v && forall j :: 0 <= j < n ==> c[v] <= c[j]
    ensures Oldest(At([], n, pages, vs, i), n, pages[i], pages[..i], v)
    ensures forall j :: 0 <= j < occupied && j != k ==> a[j] != pages[i]
  {
    var f, p := At([], n, pages, vs, i), pages[i];
    assert forall j :: 0 <= j < occupied ==> f[j] == a[j] == a[..occupied][j];
  }

  /** The two LRU implementations print the same frames and count the same faults. */
  lemma LruImplementationsAgree(pages: seq<int>, n: nat, vs: seq<nat>, faults: nat, printed: seq<seq<int>>,
                                ws: seq<nat>, faults': nat, printed': seq<seq<int>>)
    requires n > 0
    requires Simulates(pages, n, vs, faults, printed) && Lru(n, pages, vs)
    requires Simulates(pages, n, ws, faults', printed') && Lru(n, pages, ws)
    ensures printed == printed' && faults == faults'
  {
    forall j | 0 <= j <= |pages| ensures printed[j] == printed'[j] {
      LruUnique(n, pages, vs, ws, j);
      HoldsUnique(printed[j], printed'[j], n, At([], n, pages, vs, j));
    }
    LruUnique(n, pages, vs, ws, |pages|);
    assert pages[..|pages|] == pages && vs[..|pages|] == vs && ws[..|pages|] == ws;
  }

  lemma HoldsUnique(a: seq<int>, b: seq<int>, n: nat, f: seq<int>)
    requires Holds(a, n, f) && Holds(b, n, f)
    ensures a == b
  {
    assert a == a[..|f|] + a[|f|..] && b == b[..|f|] + b[|f|..];
  }
}
