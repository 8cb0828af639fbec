/** LRU and FIFO as queues of resident pages: the stack property of LRU, that
    the LRU rule determines the run, and the competitive bound of both. */
module Recency {
  import opened Common
  import opened Paging
  import opened Belady

  /** Index of the last occurrence of `p`, or -1 when there is none. */
  ghost function LastUse(s: seq<int>, p: int): (j: int)
    ensures -1 <= j < |s|
    ensures j >= 0 ==> s[j] == p
    ensures forall k :: j < k < |s| ==> s[k] != p
  {
    if s == [] then -1
    else if s[|s|-1] == p then |s| - 1
    else LastUse(s[..|s|-1], p)
  }

  lemma LastUseSnoc(s: seq<int>, r: int, p: int)
    ensures LastUse(s + [r], p) == if p == r then |s| else LastUse(s, p)
  {
    assert (s + [r])[..|s|] == s;
  }

  /** If a victim is needed, frame `v` holds the page whose last use is longest ago. */
  ghost predicate Oldest(frames: seq<int>, n: nat, p: int, past: seq<int>, v: nat) {
    |frames| == n && p !in frames ==>
      v < n && forall k :: 0 <= k < n ==> LastUse(past, frames[v]) <= LastUse(past, frames[k])
  }

  ghost predicate OldestAt(n: nat, pages: seq<int>, vs: seq<nat>, i: nat)
    requires Choices(n, vs, |pages|) && i < |pages|
  {
    Oldest(At([], n, pages, vs, i), n, pages[i], pages[..i], vs[i])
  }

  /** Every victim of the run is the least recently used page. */
  ghost predicate Lru(n: nat, pages: seq<int>, vs: seq<nat>)
    requires Choices(n, vs, |pages|)
  {
    forall i :: 0 <= i < |pages| ==> OldestAt(n, pages, vs, i)
  }

  /** `f % n`, by counting: the frame whose turn it is after `f` faults. */
  ghost function Turn(f: nat, n: nat): (t: nat)
    requires n > 0
    ensures t < n
  {
    if f == 0 then 0
    else if Turn(f - 1, n) + 1 == n then 0
    else Turn(f - 1, n) + 1
  }

  ghost predicate NextInTurn(n: nat, pages: seq<int>, vs: seq<nat>, i: nat)
    requires Choices(n, vs, |pages|) && i < |pages| && n > 0
  {
    |At([], n, pages, vs, i)| == n && pages[i] !in At([], n, pages, vs, i) ==>
      vs[i] == Turn(Cost([], n, pages[..i], vs[..i]), n)
  }

  /** Victims go round the frames, one step per fault. */
  ghost predicate Fifo(n: nat, pages: seq<int>, vs: seq<nat>)
    requires Choices(n, vs, |pages|) && n > 0
  {
    forall i :: 0 <= i < |pages| ==> NextInTurn(n, pages, vs, i)
  }

  lemma ProductStep(n: nat, c: nat)
    ensures n * (c + 1) == n * c + n
  {
  }

  lemma {:induction false} TurnIsRemainder(f: nat, n: nat) returns (q: nat)
    requires n > 0
    ensures f == q * n + Turn(f, n) && f % n == Turn(f, n)
  {
    if f == 0 {
      q := 0;
    } else {
      q := TurnIsRemainder(f - 1, n);
      if Turn(f, n) == 0 {
        ProductStep(n, q);
        q := q + 1;
      }
    }
    RemainderIs(f, n, q, Turn(f, n));
  }

  lemma RemainderIs(f: nat, n: nat, q: nat, r: nat)
    requires r < n && f == q * n + r
    ensures f % n == r
  {
    SameRemainder(n, f / n, f % n, q, r);
  }

  lemma AtLeastOnce(k: nat, n: nat)
    requires k > 0
    ensures k * n >= n
  {
    ProductStep(n, k - 1);
  }

  lemma SameRemainder(n: nat, q: nat, r: nat, q': nat, r': nat)
    requires r < n && r' < n && q * n + r == q' * n + r'
    ensures r == r'
  {
    if q > q' {
      assert (q - q') * n == q * n - q' * n;
      AtLeastOnce(q - q', n);
    } else if q < q' {
      assert (q' - q) * n == q' * n - q * n;
      AtLeastOnce(q' - q, n);
    }
  }

  // ---------------------------------------------------------------- queues

  /** The first place where page `p` stands in `q`. */
  ghost function Pos(q: seq<int>, p: int): (i: nat)
    requires p in q
    ensures i < |q| && q[i] == p && p !in q[..i]
  {
    if q[0] == p then 0
    else
      var i := 1 + Pos(q[1..], p);
      assert q[..i] == [q[0]] + q[1..][..i-1];
      i
  }

  ghost function Without(q: seq<int>, p: int): seq<int>
    requires p in q
  {
    q[..Pos(q, p)] + q[Pos(q, p)+1..]
  }

  /** The resident pages, next victim first. A hit moves the page to the back
      under LRU (`move`) and changes nothing under FIFO. */
  ghost function Enqueue(move: bool, n: nat, q: seq<int>, p: int): seq<int>
    requires n > 0
  {
    if p in q then (if move then Without(q, p) + [p] else q)
    else if |q| < n then q + [p]
    else q[1..] + [p]
  }

  ghost function Queue(move: bool, n: nat, pages: seq<int>): seq<int>
    requires n > 0
  {
    if pages == [] then []
    else Enqueue(move, n, Queue(move, n, pages[..|pages|-1]), pages[|pages|-1])
  }

  lemma QueueStep(move: bool, n: nat, pages: seq<int>, i: nat)
    requires n > 0 && i < |pages|
    ensures Queue(move, n, pages[..i+1]) == Enqueue(move, n, Queue(move, n, pages[..i]), pages[i])
  {
    assert pages[..i+1][..i] == pages[..i];
  }

  lemma WithoutIs(x: seq<int>, p: int, y: seq<int>)
    requires p !in x
    ensures p in x + [p] + y && Without(x + [p] + y, p) == x + y
  {
    var q := x + [p] + y;
    assert q[|x|] == p;
    assert forall i :: |x| < i <= |q| ==> p == q[..i][|x|];
  }

  /** Cut `q` at the first place where `p` stands. */
  lemma Cut(q: seq<int>, p: int) returns (x: seq<int>, y: seq<int>)
    requires p in q
    ensures q == x + [p] + y && p !in x && Without(q, p) == x + y
  {
    var i := Pos(q, p);
    x, y := q[..i], q[i+1..];
  }

  ghost predicate SetQueue(n: nat, q: seq<int>) {
    |SetOf(q)| == |q| <= n
  }

  lemma TouchSet(q: seq<int>, p: int)
    requires p in q
    ensures SetOf(Without(q, p) + [p]) == SetOf(q) && |Without(q, p)| + 1 == |q|
  {
    var x, y := Cut(q, p);
  }

  lemma PushSet(q: seq<int>, p: int)
    ensures SetOf(q + [p]) == SetOf(q) + {p}
  {
  }

  lemma DropSet(q: seq<int>)
    requires q != [] && |SetOf(q)| == |q|
    ensures SetOf(q[1..]) == SetOf(q) - {q[0]}
  {
    FrontOnce(q);
    assert q == [q[0]] + q[1..];
  }

  lemma EnqueueSet(move: bool, n: nat, q: seq<int>, p: int)
    requires n > 0 && SetQueue(n, q)
    ensures SetQueue(n, Enqueue(move, n, q, p))
    ensures SetOf(Enqueue(move, n, q, p)) ==
            if p in q then SetOf(q) else if |q| < n then SetOf(q) + {p} else SetOf(q) - {q[0]} + {p}
  {
    if p in q {
      TouchSet(q, p);
    } else if |q| < n {
      PushSet(q, p);
    } else {
      DropSet(q);
      PushSet(q[1..], p);
    }
  }

  lemma FrontOnce(q: seq<int>)
    requires q != [] && |SetOf(q)| == |q|
    ensures q[0] !in q[1..]
  {
    var r := q[1..];
    assert q == [q[0]] + r;
    assert SetOf(q) == SetOf(r) + {q[0]};
    SetSmall(r);
  }

  lemma {:induction false} QueueValid(move: bool, n: nat, pages: seq<int>)
    requires n > 0
    ensures SetQueue(n, Queue(move, n, pages))
    decreases |pages|
  {
    if pages != [] {
      QueueValid(move, n, pages[..|pages|-1]);
      EnqueueSet(move, n, Queue(move, n, pages[..|pages|-1]), pages[|pages|-1]);
    }
  }

  // ------------------------------------------------------------ LRU as a queue

  /** Along `q`, last uses become more recent. */
  ghost predicate Ascending(past: seq<int>, q: seq<int>) {
    forall i :: 0 < i < |q| ==> LastUse(past, q[i-1]) < LastUse(past, q[i])
  }

  lemma AscendingDrop(past: seq<int>, x: seq<int>, p: int, y: seq<int>)
    requires Ascending(past, x + [p] + y)
    ensures Ascending(past, x + y)
  {
    var q, r := x + [p] + y, x + y;
    forall i | 0 < i < |r| ensures LastUse(past, r[i-1]) < LastUse(past, r[i]) {
      if i < |x| {
        assert q[i-1] == r[i-1] && q[i] == r[i];
      } else {
        assert q[i+1] == r[i] && LastUse(past, q[i]) < LastUse(past, q[i+1]);
        if i == |x| {
          assert q[i-1] == r[i-1] && LastUse(past, q[i-1]) < LastUse(past, q[i]);
        } else {
          assert q[i] == r[i-1];
        }
      }
    }
  }

  lemma AscendingPush(past: seq<int>, q: seq<int>, p: int)
    requires Ascending(past, q) && p !in q
    ensures Ascending(past + [p], q + [p])
  {
    var r := q + [p];
    forall i | 0 < i < |r| ensures LastUse(past + [p], r[i-1]) < LastUse(past + [p], r[i]) {
      LastUseSnoc(past, p, r[i-1]);
      LastUseSnoc(past, p, r[i]);
      assert r[i-1] == q[i-1];
    }
  }

  lemma NotAgain(x: seq<int>, p: int, y: seq<int>)
    requires |SetOf(x + [p] + y)| == |x| + 1 + |y|
    ensures p !in x + y
  {
    assert SetOf(x + [p] + y) == SetOf(x + y) + {p};
    SetSmall(x + y);
  }

  lemma AscendingStep(n: nat, past: seq<int>, q: seq<int>, p: int)
    requires n > 0 && SetQueue(n, q) && Ascending(past, q)
    ensures Ascending(past + [p], Enqueue(true, n, q, p))
  {
    if p in q {
      var x, y := Cut(q, p);
      NotAgain(x, p, y);
      AscendingDrop(past, x, p, y);
      AscendingPush(past, x + y, p);
    } else if |q| < n {
      AscendingPush(past, q, p);
    } else {
      var r := q[1..];
      assert forall i :: 0 < i < |r| ==> r[i-1] == q[i] && r[i] == q[i+1];
      AscendingPush(past, r, p);
    }
  }

  lemma {:induction false} QueueAscending(n: nat, pages: seq<int>)
    requires n > 0
    ensures Ascending(pages, Queue(true, n, pages))
    decreases |pages|
  {
    if pages != [] {
      var past, p := pages[..|pages|-1], pages[|pages|-1];
      QueueAscending(n, past);
      QueueValid(true, n, past);
      AscendingStep(n, past, Queue(true, n, past), p);
      assert pages == past + [p];
    }
  }

  lemma {:induction false} AscendingFront(past: seq<int>, q: seq<int>, j: nat)
    requires Ascending(past, q) && j < |q|
    ensures j > 0 ==> LastUse(past, q[0]) < LastUse(past, q[j])
  {
    if j > 1 { AscendingFront(past, q, j - 1); }
  }

  /** In a queue ordered by last use, the page used longest ago is the front. */
  lemma LeastIsFront(past: seq<int>, f: seq<int>, q: seq<int>, v: nat)
    requires SetOf(f) == SetOf(q) && Ascending(past, q) && v < |f| && q != []
    requires forall k :: 0 <= k < |f| ==> LastUse(past, f[v]) <= LastUse(past, f[k])
    ensures f[v] == q[0]
  {
    assert f[v] in SetOf(q) && q[0] in SetOf(f);
    var j :| 0 <= j < |q| && q[j] == f[v];
    var k :| 0 <= k < |f| && f[k] == q[0];
    AscendingFront(past, q, j);
  }

  lemma LruStep(n: nat, past: seq<int>, f: seq<int>, q: seq<int>, p: int, v: nat)
    requires n > 0 && v < n && Distinct(f) && SetQueue(n, q) && SetOf(f) == SetOf(q)
    requires Ascending(past, q) && Oldest(f, n, p, past, v)
    ensures SetOf(Serve(f, n, p, v)) == SetOf(Enqueue(true, n, q, p))
  {
    DistinctCard(f);
    EnqueueSet(true, n, q, p);
    assert p in f <==> p in SetOf(q);
    if p !in f {
      if |f| < n {
        assert SetOf(f + [p]) == SetOf(f) + {p};
      } else {
        LeastIsFront(past, f, q, v);
        ServeSet(f, n, p, v);
      }
    }
  }

  /** What an LRU run keeps resident is the LRU queue. */
  lemma {:induction false} LruResident(n: nat, pages: seq<int>, vs: seq<nat>, i: nat)
    requires n > 0 && Choices(n, vs, |pages|) && Lru(n, pages, vs) && i <= |pages|
    ensures SetOf(At([], n, pages, vs, i)) == SetOf(Queue(true, n, pages[..i]))
  {
    if i > 0 {
      LruResident(n, pages, vs, i - 1);
      AtStep([], n, pages, vs, i - 1);
      AtValid(n, pages, vs, i - 1);
      QueueStep(true, n, pages, i - 1);
      QueueValid(true, n, pages[..i-1]);
      QueueAscending(n, pages[..i-1]);
      assert OldestAt(n, pages, vs, i - 1);
      LruStep(n, pages[..i-1], At([], n, pages, vs, i - 1), Queue(true, n, pages[..i-1]), pages[i-1], vs[i-1]);
    }
  }

  ghost function Top(n: nat, q: seq<int>): seq<int> {
    if |q| <= n then q else q[|q|-n..]
  }

  lemma TopAppend(n: nat, a: seq<int>, t: seq<int>)
    requires a == [] || |t| >= n
    ensures Top(n, a + t) == Top(n, t)
  {
    if a == [] { assert a + t == t; }
  }

  lemma TopHit(n: nat, m: nat, a: seq<int>, x: seq<int>, p: int, y: seq<int>)
    requires 0 < n <= m && p !in a + x && |x| + 1 + |y| <= n
    requires a == [] || |x| + 1 + |y| == n
    ensures Top(n, Enqueue(true, m, a + (x + [p] + y), p)) == Enqueue(true, n, x + [p] + y, p)
  {
    WithoutIs(x, p, y);
    assert a + (x + [p] + y) == (a + x) + [p] + y;
    WithoutIs(a + x, p, y);
    assert (a + x) + y + [p] == a + (x + y + [p]);
    TopAppend(n, a, x + y + [p]);
  }

  lemma TopBelow(n: nat, m: nat, a: seq<int>, t: seq<int>, p: int)
    requires 0 < n <= m && p in a && |t| == n && p !in t
    ensures Top(n, Enqueue(true, m, a + t, p)) == t[1..] + [p]
  {
    var x, y := Cut(a, p);
    assert a + t == x + [p] + (y + t);
    WithoutIs(x, p, y + t);
    assert x + (y + t) + [p] == (x + y) + (t + [p]);
    TopPush(n, x + y, t, p);
  }

  lemma TopAbsent(n: nat, m: nat, a: seq<int>, t: seq<int>, p: int)
    requires 0 < n <= m && p !in a + t && a != [] && |t| == n && |a| + |t| <= m
    ensures Top(n, Enqueue(true, m, a + t, p)) == t[1..] + [p]
  {
    if |a| + |t| < m {
      assert a + t + [p] == a + (t + [p]);
      TopPush(n, a, t, p);
    } else {
      assert (a + t)[1..] + [p] == a[1..] + (t + [p]);
      TopPush(n, a[1..], t, p);
    }
  }

  lemma TopMiss(n: nat, m: nat, a: seq<int>, t: seq<int>, p: int)
    requires 0 < n <= m && |a| + |t| <= m && p !in t && |t| <= n && (a == [] || |t| == n)
    ensures Top(n, Enqueue(true, m, a + t, p)) == Enqueue(true, n, t, p)
  {
    if p in a {
      TopBelow(n, m, a, t, p);
    } else if a == [] {
      assert a + t == t;
    } else {
      TopAbsent(n, m, a, t, p);
    }
  }

  lemma TopPush(n: nat, a: seq<int>, t: seq<int>, p: int)
    requires n > 0 && |t| == n
    ensures Top(n, a + (t + [p])) == t[1..] + [p]
  {
  }

  lemma TopSplit(n: nat, q: seq<int>) returns (a: seq<int>)
    ensures q == a + Top(n, q) && (a == [] || |Top(n, q)| == n)
  {
    a := q[..|q|-|Top(n, q)|];
  }

  lemma TopStep(n: nat, m: nat, q: seq<int>, p: int)
    requires 0 < n <= m && SetQueue(m, q)
    ensures Top(n, Enqueue(true, m, q, p)) == Enqueue(true, n, Top(n, q), p)
  {
    var a := TopSplit(n, q);
    if p in Top(n, q) {
      TopStepHit(n, m, q, a, Top(n, q), p);
    } else {
      TopMiss(n, m, a, Top(n, q), p);
    }
  }

  lemma TopStepHit(n: nat, m: nat, q: seq<int>, a: seq<int>, t: seq<int>, p: int)
    requires 0 < n <= m && |SetOf(q)| == |q| && q == a + t && p in t && |t| <= n && (a == [] || |t| == n)
    ensures Top(n, Enqueue(true, m, q, p)) == Enqueue(true, n, t, p)
  {
    var x, y := Cut(t, p);
    assert q == (a + x) + [p] + y;
    NotAgain(a + x, p, y);
    TopHit(n, m, a, x, p, y);
  }

  /** The LRU queue of fewer frames is the back of the LRU queue of more frames. */
  lemma {:induction false} QueueIsTop(n: nat, m: nat, pages: seq<int>)
    requires 0 < n <= m
    ensures Queue(true, n, pages) == Top(n, Queue(true, m, pages))
    decreases |pages|
  {
    if pages != [] {
      QueueIsTop(n, m, pages[..|pages|-1]);
      QueueValid(true, m, pages[..|pages|-1]);
      TopStep(n, m, Queue(true, m, pages[..|pages|-1]), pages[|pages|-1]);
    }
  }

  /** The stack property: with more frames LRU keeps at least the same pages resident
      after every reference. */
  lemma LruInclusion(n: nat, m: nat, pages: seq<int>, vs: seq<nat>, ws: seq<nat>, i: nat)
    requires 0 < n <= m && i <= |pages|
    requires Choices(n, vs, |pages|) && Lru(n, pages, vs)
    requires Choices(m, ws, |pages|) && Lru(m, pages, ws)
    ensures SetOf(At([], n, pages, vs, i)) <= SetOf(At([], m, pages, ws, i))
  {
    LruResident(n, pages, vs, i);
    LruResident(m, pages, ws, i);
    QueueIsTop(n, m, pages[..i]);
    TopSubset(n, Queue(true, m, pages[..i]));
  }

  lemma TopSubset(n: nat, q: seq<int>)
    ensures SetOf(Top(n, q)) <= SetOf(q)
  {
  }

  /** More frames never give LRU more faults. */
  lemma {:induction false} LruMonotone(n: nat, m: nat, pages: seq<int>, vs: seq<nat>, ws: seq<nat>, i: nat)
    requires 0 < n <= m && i <= |pages|
    requires Choices(n, vs, |pages|) && Lru(n, pages, vs)
    requires Choices(m, ws, |pages|) && Lru(m, pages, ws)
    ensures Cost([], m, pages[..i], ws[..i]) <= Cost([], n, pages[..i], vs[..i])
  {
    if i > 0 {
      LruMonotone(n, m, pages, vs, ws, i - 1);
      LruInclusion(n, m, pages, vs, ws, i - 1);
      AtStep([], n, pages, vs, i - 1);
      AtStep([], m, pages, ws, i - 1);
      var p := pages[i-1];
      assert p in At([], n, pages, vs, i - 1) ==> p in SetOf(At([], n, pages, vs, i - 1));
    }
  }

  lemma OldestUnique(f: seq<int>, n: nat, p: int, past: seq<int>, v: nat, w: nat)
    requires v < n && w < n && |f| == n && p !in f && Distinct(f)
    requires Oldest(f, n, p, past, v) && Oldest(f, n, p, past, w)
    requires f[v] in past && f[w] in past
    ensures v == w
  {
    assert LastUse(past, f[v]) == LastUse(past, f[w]);
  }

  /** The LRU rule leaves no freedom: any two LRU runs hold the same page in every
      frame, and have the same number of faults, after every reference. */
  lemma {:induction false} LruUnique(n: nat, pages: seq<int>, vs: seq<nat>, ws: seq<nat>, i: nat)
    requires n > 0 && i <= |pages|
    requires Choices(n, vs, |pages|) && Lru(n, pages, vs)
    requires Choices(n, ws, |pages|) && Lru(n, pages, ws)
    ensures At([], n, pages, vs, i) == At([], n, pages, ws, i)
    ensures Cost([], n, pages[..i], vs[..i]) == Cost([], n, pages[..i], ws[..i])
  {
    if i > 0 {
      LruUnique(n, pages, vs, ws, i - 1);
      AtStep([], n, pages, vs, i - 1);
      AtStep([], n, pages, ws, i - 1);
      AtValid(n, pages, vs, i - 1);
      assert OldestAt(n, pages, vs, i - 1) && OldestAt(n, pages, ws, i - 1);
      var f, p := At([], n, pages, vs, i - 1), pages[i-1];
      if p !in f && |f| == n {
        OldestUnique(f, n, p, pages[..i-1], vs[i-1], ws[i-1]);
      }
    }
  }

  // ----------------------------------------------------------- FIFO as a queue

  /** The frames read from the next victim on, once they are full. */
  ghost function Rotated(frames: seq<int>, n: nat, faults: nat): seq<int>
    requires n > 0 && |frames| <= n
  {
    if |frames| < n then frames else frames[Turn(faults, n)..] + frames[..Turn(faults, n)]
  }

  lemma RotatedSet(f: seq<int>, n: nat, c: nat)
    requires n > 0 && |f| <= n
    ensures SetOf(Rotated(f, n, c)) == SetOf(f) && |Rotated(f, n, c)| == |f|
  {
    if |f| == n { assert f == f[..Turn(c, n)] + f[Turn(c, n)..]; }
  }

  lemma {:induction false} TurnCold(c: nat, n: nat)
    requires 0 < n && c < n
    ensures Turn(c, n) == c && (c + 1 == n ==> Turn(n, n) == 0)
  {
    if c > 0 { TurnCold(c - 1, n); }
  }

  ghost predicate FifoState(n: nat, f: seq<int>, c: nat, q: seq<int>)
    requires n > 0
  {
    |f| <= n && (|f| < n ==> c == |f|) && q == Rotated(f, n, c)
  }

  lemma Rotate(x: seq<int>, y: int, z: seq<int>, p: int)
    ensures ([y] + z + x)[1..] + [p] == z + (x + [p])
  {
  }

  lemma RotateOne(f: seq<int>, t: nat, p: int)
    requires t < |f|
    ensures var f', t' := f[t := p], if t + 1 == |f| then 0 else t + 1;
      f'[t'..] + f'[..t'] == (f[t..] + f[..t])[1..] + [p]
  {
    var x, z, f' := f[..t], f[t+1..], f[t := p];
    assert f[t..] == [f[t]] + z;
    Rotate(x, f[t], z, p);
    if t + 1 == |f| {
      assert f'[0..] + f'[..0] == z + (x + [p]);
    } else {
      assert f'[t+1..] == z && f'[..t+1] == x + [p];
    }
  }

  lemma FifoFull(n: nat, f: seq<int>, c: nat, p: int)
    requires n > 0 && |f| == n
    ensures Rotated(f[Turn(c, n) := p], n, c + 1) == Rotated(f, n, c)[1..] + [p]
  {
    RotateOne(f, Turn(c, n), p);
  }

  lemma FifoStep(n: nat, f: seq<int>, c: nat, q: seq<int>, p: int, v: nat, f': seq<int>, c': nat)
    requires n > 0 && FifoState(n, f, c, q) && v < n && f' == Serve(f, n, p, v) && c' == c + Miss(f, p)
    requires |f| == n && p !in f ==> v == Turn(c, n)
    ensures FifoState(n, f', c', Enqueue(false, n, q, p))
  {
    RotatedSet(f, n, c);
    assert p in f <==> p in SetOf(q);
    if p !in f {
      if |f| == n { FifoFull(n, f, c, p); } else { TurnCold(c, n); }
    }
  }

  lemma FifoRunStep(n: nat, pages: seq<int>, vs: seq<nat>, i: nat, q: seq<int>)
    requires n > 0 && Choices(n, vs, |pages|) && i < |pages| && NextInTurn(n, pages, vs, i)
    requires FifoState(n, At([], n, pages, vs, i), Cost([], n, pages[..i], vs[..i]), q)
    ensures FifoState(n, At([], n, pages, vs, i + 1), Cost([], n, pages[..i+1], vs[..i+1]),
                      Enqueue(false, n, q, pages[i]))
  {
    AtStep([], n, pages, vs, i);
    FifoStep(n, At([], n, pages, vs, i), Cost([], n, pages[..i], vs[..i]), q, pages[i], vs[i],
             At([], n, pages, vs, i + 1), Cost([], n, pages[..i+1], vs[..i+1]));
  }

  /** Read from the next victim on, the frames of a FIFO run are the FIFO queue. */
  lemma {:induction false} FifoResident(n: nat, pages: seq<int>, vs: seq<nat>, i: nat)
    requires n > 0 && Choices(n, vs, |pages|) && Fifo(n, pages, vs) && i <= |pages|
    ensures FifoState(n, At([], n, pages, vs, i), Cost([], n, pages[..i], vs[..i]), Queue(false, n, pages[..i]))
  {
    if i > 0 {
      FifoResident(n, pages, vs, i - 1);
      QueueStep(false, n, pages, i - 1);
      assert NextInTurn(n, pages, vs, i - 1);
      FifoRunStep(n, pages, vs, i - 1, Queue(false, n, pages[..i-1]));
    }
  }

  // --------------------------------------------------------- competitive bound

  /** The pages of `q` that `c` lacks, weighted by how far they are from the front;
      the front weighs `w`. */
  ghost function Phi(q: seq<int>, c: set<int>, w: nat): nat {
    if q == [] then 0 else (if q[0] in c then 0 else w) + Phi(q[1..], c, w + 1)
  }

  /** How many pages of `q` are missing from `c`. */
  ghost function Lacking(q: seq<int>, c: set<int>): nat {
    if q == [] then 0 else (if q[0] in c then 0 else 1) + Lacking(q[1..], c)
  }

  lemma {:induction false} PhiLighter(q: seq<int>, c: set<int>, w: nat)
    ensures Phi(q, c, w + 1) == Phi(q, c, w) + Lacking(q, c)
    decreases |q|
  {
    if q != [] { PhiLighter(q[1..], c, w + 1); }
  }

  lemma {:induction false} PhiAppend(q: seq<int>, r: seq<int>, c: set<int>, w: nat)
    ensures Phi(q + r, c, w) == Phi(q, c, w) + Phi(r, c, w + |q|)
    decreases |q|
  {
    if q == [] {
      assert q + r == r;
    } else {
      assert (q + r)[1..] == q[1..] + r;
      PhiAppend(q[1..], r, c, w + 1);
    }
  }

  lemma {:induction false} PhiNone(q: seq<int>, c: set<int>, w: nat)
    requires forall k :: 0 <= k < |q| ==> q[k] in c
    ensures Phi(q, c, w) == 0
    decreases |q|
  {
    if q != [] { PhiNone(q[1..], c, w + 1); }
  }

  lemma {:induction false} LackingNone(q: seq<int>, c: set<int>)
    ensures Lacking(q, c) == 0 ==> SetOf(q) <= c
  {
    if q != [] {
      LackingNone(q[1..], c);
      assert q == [q[0]] + q[1..];
    }
  }

  /** The adversary's replacement raises the potential by at most the largest weight. */
  lemma {:induction false} PhiEvict(q: seq<int>, c: set<int>, u: int, p: int, w: nat)
    requires |SetOf(q)| == |q|
    ensures Phi(q, c - {u} + {p}, w) <= Phi(q, c, w) + (if u in q then w + |q| - 1 else 0)
    decreases |q|
  {
    if q != [] {
      FrontOnce(q);
      assert q == [q[0]] + q[1..] && SetOf(q) == SetOf(q[1..]) + {q[0]};
      PhiEvict(q[1..], c, u, p, w + 1);
    }
  }

  /** A hit never raises the potential. */
  lemma PhiHit(move: bool, n: nat, q: seq<int>, c: set<int>, p: int, w: nat)
    requires n > 0 && p in q && p in c
    ensures Phi(Enqueue(move, n, q, p), c, w) <= Phi(q, c, w)
  {
    if move {
      var a, b := Cut(q, p);
      PhiAppend(a + [p], b, c, w);
      PhiAppend(a, [p], c, w);
      PhiAppend(a + b, [p], c, w);
      PhiAppend(a, b, c, w);
      PhiLighter(b, c, w + |a|);
    }
  }

  /** A fault of a full queue lowers the potential by at least one, because the
      adversary now holds `p` and so misses some page of the queue. */
  lemma PhiFault(move: bool, n: nat, q: seq<int>, c: set<int>, p: int)
    requires n > 0 && SetQueue(n, q) && |q| == n && p !in q && p in c && |c| <= n
    ensures Phi(Enqueue(move, n, q, p), c, 1) + 1 <= Phi(q, c, 1)
  {
    LackingNone(q, c);
    assert p in c - SetOf(q) && |c| == |c * SetOf(q)| + |c - SetOf(q)|;
    assert SetOf(q) <= c ==> c * SetOf(q) == SetOf(q);
    PhiLighter(q[1..], c, 1);
    PhiAppend(q[1..], [p], c, 1);
  }

  /** The potential argument: while the queue is not full both hold the same pages, and
      the faults plus the potential stay within the budget of `n` per adversary fault. */
  ghost predicate Potential(n: nat, q: seq<int>, c: set<int>, faults: nat, budget: nat) {
    && SetQueue(n, q)
    && (|q| < n ==> c == SetOf(q))
    && faults + Phi(q, c, n - |q| + 1) <= budget
  }

  /** What one reference does to the set of pages an arbitrary run holds. */
  lemma ServeAny(n: nat, f: seq<int>, p: int, v: nat) returns (u: int)
    requires v < n && Distinct(f) && |f| <= n
    ensures SetOf(Serve(f, n, p, v)) == if p in f then SetOf(f) else SetOf(f) - {u} + {p}
    ensures |f| < n ==> u == p
    ensures p in SetOf(Serve(f, n, p, v)) && |SetOf(Serve(f, n, p, v))| <= n
  {
    u := p;
    if p !in f {
      if |f| < n {
        PushSet(f, p);
      } else {
        u := f[v];
        ServeSet(f, n, p, v);
      }
    }
    SetSmall(Serve(f, n, p, v));
  }

  lemma PotentialCold(move: bool, n: nat, q: seq<int>, c: set<int>, p: int, faults: nat, budget: nat)
    requires Potential(n, q, c, faults, budget) && |q| < n && p !in q
    ensures Potential(n, Enqueue(move, n, q, p), c + {p}, faults + 1, budget + n)
  {
    EnqueueSet(move, n, q, p);
    forall k | 0 <= k < |q + [p]| ensures (q + [p])[k] in c + {p} {
      assert k < |q| ==> q[k] in SetOf(q);
    }
    PhiNone(q + [p], c + {p}, n - |q|);
  }

  lemma PotentialWarm(move: bool, n: nat, q: seq<int>, c: set<int>, p: int, faults: nat, budget: nat)
    requires n > 0 && Potential(n, q, c, faults, budget) && p in c && |c| <= n
    requires p !in q ==> |q| == n
    ensures Potential(n, Enqueue(move, n, q, p), c, faults + Miss(q, p), budget)
  {
    EnqueueSet(move, n, q, p);
    if p in q {
      PhiHit(move, n, q, c, p, n - |q| + 1);
    } else {
      PhiFault(move, n, q, c, p);
    }
  }

  /** For each of its faults the adversary is charged `n`, which pays for any rise. */
  lemma AdversaryStep(n: nat, q: seq<int>, c: set<int>, p: int, u: int, faults: nat, budget: nat)
    requires n > 0 && Potential(n, q, c, faults, budget) && p !in c && |q| == n
    ensures Potential(n, q, c - {u} + {p}, faults, budget + n)
  {
    PhiEvict(q, c, u, p, 1);
  }

  lemma PotentialStep(move: bool, n: nat, q: seq<int>, f: seq<int>, p: int, v: nat, faults: nat, budget: nat)
    requires v < n && Potential(n, q, SetOf(f), faults, budget) && Distinct(f) && |f| <= n
    ensures Potential(n, Enqueue(move, n, q, p), SetOf(Serve(f, n, p, v)),
                      faults + Miss(q, p), budget + if p in f then 0 else n)
  {
    var u := ServeAny(n, f, p, v);
    var c, c' := SetOf(f), SetOf(Serve(f, n, p, v));
    assert p in f <==> p in c;
    assert p in q <==> p in SetOf(q);
    if p in c {
      PotentialWarm(move, n, q, c, p, faults, budget);
    } else if |q| == n {
      AdversaryStep(n, q, c, p, u, faults, budget);
      PotentialWarm(move, n, q, c', p, faults, budget + n);
    } else {
      DistinctCard(f);
      assert c' == c + {p};
      PotentialCold(move, n, q, c, p, faults, budget);
    }
  }

  /** Faults of the queue policy itself. */
  ghost function QueueFaults(move: bool, n: nat, pages: seq<int>): nat
    requires n > 0
  {
    if pages == [] then 0
    else
      QueueFaults(move, n, pages[..|pages|-1]) + Miss(Queue(move, n, pages[..|pages|-1]), pages[|pages|-1])
  }

  /** `n` for each of `k` faults. */
  ghost function Times(n: nat, k: nat): nat {
    if k == 0 then 0 else Times(n, k - 1) + n
  }

  lemma {:induction false} TimesIs(n: nat, k: nat)
    ensures Times(n, k) == n * k
  {
    if k > 0 {
      TimesIs(n, k - 1);
      ProductStep(n, k - 1);
    }
  }

  lemma QueueCompetitive(move: bool, n: nat, pages: seq<int>, ws: seq<nat>, i: nat)
    requires n > 0 && Choices(n, ws, |pages|) && i <= |pages|
    ensures Potential(n, Queue(move, n, pages[..i]), SetOf(At([], n, pages, ws, i)),
                      QueueFaults(move, n, pages[..i]), n * Cost([], n, pages[..i], ws[..i]))
  {
    QueuePotential(move, n, pages, ws, i);
    TimesIs(n, Cost([], n, pages[..i], ws[..i]));
  }

  /** The potential bound once the first `i` references were served. */
  ghost predicate BoundAt(move: bool, n: nat, pages: seq<int>, ws: seq<nat>, i: nat)
    requires n > 0 && Choices(n, ws, |pages|) && i <= |pages|
  {
    Potential(n, Queue(move, n, pages[..i]), SetOf(At([], n, pages, ws, i)),
              QueueFaults(move, n, pages[..i]), Times(n, Cost([], n, pages[..i], ws[..i])))
  }

  lemma BoundStep(move: bool, n: nat, pages: seq<int>, ws: seq<nat>, i: nat)
    requires n > 0 && Choices(n, ws, |pages|) && i < |pages| && BoundAt(move, n, pages, ws, i)
    ensures BoundAt(move, n, pages, ws, i + 1)
  {
    QueueStep(move, n, pages, i);
    FaultsStep(move, n, pages, i);
    AtStep([], n, pages, ws, i);
    AtValid(n, pages, ws, i);
    CompetitiveStep(move, n, Queue(move, n, pages[..i]), At([], n, pages, ws, i), pages[i], ws[i],
                    QueueFaults(move, n, pages[..i]), Cost([], n, pages[..i], ws[..i]),
                    Queue(move, n, pages[..i+1]), At([], n, pages, ws, i + 1),
                    QueueFaults(move, n, pages[..i+1]), Cost([], n, pages[..i+1], ws[..i+1]));
  }

  lemma {:induction false} QueuePotential(move: bool, n: nat, pages: seq<int>, ws: seq<nat>, i: nat)
    requires n > 0 && Choices(n, ws, |pages|) && i <= |pages|
    ensures BoundAt(move, n, pages, ws, i)
  {
    if i > 0 {
      QueuePotential(move, n, pages, ws, i - 1);
      BoundStep(move, n, pages, ws, i - 1);
    }
  }

  lemma FaultsStep(move: bool, n: nat, pages: seq<int>, i: nat)
    requires n > 0 && i < |pages|
    ensures QueueFaults(move, n, pages[..i+1]) ==
      QueueFaults(move, n, pages[..i]) + Miss(Queue(move, n, pages[..i]), pages[i])
  {
    assert pages[..i+1][..i] == pages[..i];
  }

  lemma CompetitiveStep(move: bool, n: nat, q: seq<int>, f: seq<int>, p: int, v: nat, faults: nat, cost: nat,
                        q': seq<int>, f': seq<int>, faults': nat, cost': nat)
    requires v < n && Potential(n, q, SetOf(f), faults, Times(n, cost)) && Distinct(f) && |f| <= n
    requires q' == Enqueue(move, n, q, p) && f' == Serve(f, n, p, v)
    requires faults' == faults + Miss(q, p) && cost' == cost + Miss(f, p)
    ensures Potential(n, q', SetOf(f'), faults', Times(n, cost'))
  {
    PotentialStep(move, n, q, f, p, v, faults, Times(n, cost));
  }

  lemma {:induction false} LruFaults(n: nat, pages: seq<int>, vs: seq<nat>, i: nat)
    requires n > 0 && Choices(n, vs, |pages|) && Lru(n, pages, vs) && i <= |pages|
    ensures Cost([], n, pages[..i], vs[..i]) == QueueFaults(true, n, pages[..i])
  {
    if i > 0 {
      LruFaults(n, pages, vs, i - 1);
      LruResident(n, pages, vs, i - 1);
      AtStep([], n, pages, vs, i - 1);
      assert pages[..i][..i-1] == pages[..i-1];
      assert pages[i-1] in At([], n, pages, vs, i - 1) <==> pages[i-1] in SetOf(Queue(true, n, pages[..i-1]));
    }
  }

  lemma {:induction false} FifoFaults(n: nat, pages: seq<int>, vs: seq<nat>, i: nat)
    requires n > 0 && Choices(n, vs, |pages|) && Fifo(n, pages, vs) && i <= |pages|
    ensures Cost([], n, pages[..i], vs[..i]) == QueueFaults(false, n, pages[..i])
  {
    if i > 0 {
      FifoFaults(n, pages, vs, i - 1);
      FifoResident(n, pages, vs, i - 1);
      AtStep([], n, pages, vs, i - 1);
      RotatedSet(At([], n, pages, vs, i - 1), n, Cost([], n, pages[..i-1], vs[..i-1]));
      assert pages[..i][..i-1] == pages[..i-1];
      assert pages[i-1] in At([], n, pages, vs, i - 1) <==> pages[i-1] in SetOf(Queue(false, n, pages[..i-1]));
    }
  }

  /** LRU faults at most `n` times as often as any run with `n` frames. */
  lemma LruCompetitive(n: nat, pages: seq<int>, vs: seq<nat>, ws: seq<nat>)
    requires n > 0 && Choices(n, vs, |pages|) && Lru(n, pages, vs) && Choices(n, ws, |pages|)
    ensures Cost([], n, pages, vs) <= n * Cost([], n, pages, ws)
  {
    QueueCompetitive(true, n, pages, ws, |pages|);
    LruFaults(n, pages, vs, |pages|);
    assert pages[..|pages|] == pages && vs[..|pages|] == vs && ws[..|pages|] == ws;
  }

  /** FIFO faults at most `n` times as often as any run with `n` frames. */
  lemma FifoCompetitive(n: nat, pages: seq<int>, vs: seq<nat>, ws: seq<nat>)
    requires n > 0 && Choices(n, vs, |pages|) && Fifo(n, pages, vs) && Choices(n, ws, |pages|)
    ensures Cost([], n, pages, vs) <= n * Cost([], n, pages, ws)
  {
    QueueCompetitive(false, n, pages, ws, |pages|);
    FifoFaults(n, pages, vs, |pages|);
    assert pages[..|pages|] == pages && vs[..|pages|] == vs && ws[..|pages|] == ws;
  }
}
