/** The free list of the allocator as a value: spans of header units, in address order, with
    the empty base in front. */
module FreeList {
  import opened Common


  datatype Span = Span(start: nat, size: nat)

  function End(s: Span): nat { s.start + s.size }

  predicate In(s: Span, x: int) { s.start <= x < s.start + s.size }

  predicate Apart(a: Span, b: Span) { End(a) <= b.start || End(b) <= a.start }

  /** Not even adjacent. */
  predicate Before(a: Span, b: Span) { a.start + a.size < b.start }

  ghost predicate Sorted(r: seq<Span>) {
    forall i, j :: 0 <= i < j < |r| ==> Before(r[i], r[j])
  }

  function Remove(r: seq<Span>, k: nat): (r': seq<Span>)
    requires k < |r|
    ensures |r'| == |r| - 1
  {
    r[..k] + r[k+1..]
  }

  function Insert(r: seq<Span>, k: nat, s: Span): (r': seq<Span>)
    requires k <= |r|
    ensures |r'| == |r| + 1
  {
    r[..k] + [s] + r[k..]
  }

  /** Units in the first `m` spans. */
  ghost function SumTo(r: seq<Span>, m: nat): nat
    requires m <= |r|
  {
    if m == 0 then 0 else SumTo(r, m - 1) + r[m-1].size
  }

  ghost function Sum(r: seq<Span>): nat { SumTo(r, |r|) }

  lemma {:induction false} SumToUpdate(r: seq<Span>, k: nat, s: Span, m: nat)
    requires k < |r| && m <= |r|
    ensures SumTo(r[k := s], m) == SumTo(r, m) + if k < m then s.size - r[k].size else 0
  {
    if m > 0 { SumToUpdate(r, k, s, m - 1); }
  }

  lemma {:induction false} SumToRemove(r: seq<Span>, k: nat, m: nat)
    requires k < |r| && m < |r|
    ensures SumTo(Remove(r, k), m) == if m <= k then SumTo(r, m) else SumTo(r, m + 1) - r[k].size
  {
    if m > 0 { SumToRemove(r, k, m - 1); }
  }

  lemma {:induction false} SumToInsert(r: seq<Span>, k: nat, s: Span, m: nat)
    requires k <= |r| && m <= |r| + 1
    ensures SumTo(Insert(r, k, s), m) == if m <= k then SumTo(r, m) else SumTo(r, m - 1) + s.size
  {
    if m > 0 { SumToInsert(r, k, s, m - 1); }
  }

  lemma {:induction false} SumUpdate(r: seq<Span>, k: nat, s: Span)
    requires k < |r|
    ensures Sum(r[k := s]) == Sum(r) - r[k].size + s.size
  {
    SumToUpdate(r, k, s, |r|);
  }

  lemma {:induction false} SumRemove(r: seq<Span>, k: nat)
    requires k < |r|
    ensures Sum(Remove(r, k)) == Sum(r) - r[k].size
  {
    SumToRemove(r, k, |r| - 1);
  }

  lemma {:induction false} SumInsert(r: seq<Span>, k: nat, s: Span)
    requires k <= |r|
    ensures Sum(Insert(r, k, s)) == Sum(r) + s.size
  {
    SumToInsert(r, k, s, |r| + 1);
  }

  lemma {:induction false} SumAppend(r: seq<Span>, s: Span)
    ensures Sum(r + [s]) == Sum(r) + s.size
  {
    SumInsert(r, |r|, s);
    assert Insert(r, |r|, s) == r + [s];
  }

  // -------------------------------------------------------------------- the heap

  /** The free ring, the live blocks, all units that came from sbrk, and the break. */
  datatype Heap = Heap(ring: seq<Span>, live: seq<Span>, obtained: set<nat>, brk: nat)

  ghost predicate LiveApart(live: seq<Span>, i: nat, j: nat)
    requires i < |live| && j < |live|
  {
    i == j || Apart(live[i], live[j])
  }

  ghost predicate FreeApart(ring: seq<Span>, live: seq<Span>, i: nat, j: nat)
    requires i < |ring| && j < |live|
  {
    Apart(ring[i], live[j])
  }

  ghost predicate Owned(s: Span, obtained: set<nat>) {
    forall x {:trigger In(s, x)} :: In(s, x) ==> x in obtained
  }

  /** Address-ordered and fully coalesced; free and live blocks do not overlap; together they
      are all that came from sbrk. */
  ghost predicate HeapOk(h: Heap, base: nat) {
    match h
    case Heap(ring, live, obtained, brk) =>
      && ring != [] && ring[0] == Span(base, 0) && base < brk && Sorted(ring)
      && (forall i :: 1 <= i < |ring| ==> ring[i].size >= 1)
      && (forall j :: 0 <= j < |live| ==> live[j].size >= 1)
      && (forall i, j :: 0 <= i < |live| && 0 <= j < |live| ==> LiveApart(live, i, j))
      && (forall i, j :: 0 <= i < |ring| && 0 <= j < |live| ==> FreeApart(ring, live, i, j))
      && (forall i {:trigger Owned(ring[i], obtained)} :: 0 <= i < |ring| ==> Owned(ring[i], obtained))
      && (forall j {:trigger Owned(live[j], obtained)} :: 0 <= j < |live| ==> Owned(live[j], obtained))
      && (forall x :: x in obtained ==> base < x < brk)
      && Sum(ring) + Sum(live) == |obtained|
  }

  // --------------------------------------------------------------- giving a span back

  /** `t` is the last place whose address is below `a`. */
  ghost predicate PlaceOf(r: seq<Span>, t: nat, a: nat) {
    t < |r| && r[t].start < a && (t + 1 < |r| ==> a < r[t+1].start)
  }

  /** The ring with `s` put behind place `t` and merged with its neighbours. */
  function Freed(r: seq<Span>, t: nat, s: Span): seq<Span>
    requires t < |r|
  {
    var left := End(r[t]) == s.start;
    var right := t + 1 < |r| && End(s) == r[t+1].start;
    if left && right then Remove(r, t + 1)[t := Span(r[t].start, r[t].size + s.size + r[t+1].size)]
    else if left then r[t := Span(r[t].start, r[t].size + s.size)]
    else if right then r[t+1 := Span(s.start, s.size + r[t+1].size)]
    else Insert(r, t + 1, s)
  }

  ghost predicate Fits(r: seq<Span>, t: nat, s: Span) {
    && Sorted(r) && PlaceOf(r, t, s.start) && s.size >= 1
    && forall i :: 0 <= i < |r| ==> Apart(r[i], s)
  }

  lemma FitsBetween(r: seq<Span>, t: nat, s: Span)
    requires Fits(r, t, s) && r[0].size == 0 && (forall i :: 1 <= i < |r| ==> r[i].size >= 1)
    ensures End(r[t]) <= s.start && (t + 1 < |r| ==> End(s) <= r[t+1].start)
    ensures End(r[t]) == s.start ==> t > 0
  {
    assert Apart(r[t], s);
    if t + 1 < |r| { assert Apart(r[t+1], s) && Before(r[t], r[t+1]); }
  }

  lemma FreedSorted(r: seq<Span>, t: nat, s: Span)
    requires Fits(r, t, s) && r[0].size == 0 && (forall i :: 1 <= i < |r| ==> r[i].size >= 1)
    ensures var r' := Freed(r, t, s);
      r' != [] && r'[0] == r[0] && Sorted(r') && forall i :: 1 <= i < |r'| ==> r'[i].size >= 1
  {
    FitsBetween(r, t, s);
    var r' := Freed(r, t, s);
    forall i, j | 0 <= i < j < |r'| ensures Before(r'[i], r'[j]) {
      FreedBefore(r, t, s, i, j);
    }
  }

  lemma FreedBefore(r: seq<Span>, t: nat, s: Span, i: nat, j: nat)
    requires Sorted(r) && t < |r| && i < j < |Freed(r, t, s)| && s.size >= 1
    requires End(r[t]) <= s.start && (t + 1 < |r| ==> End(s) <= r[t+1].start)
    ensures Before(Freed(r, t, s)[i], Freed(r, t, s)[j])
  {
    assert i < |r| && i < t ==> Before(r[i], r[t]);
    if t + 1 < |r| {
      assert Before(r[t], r[t+1]) && (i < t ==> Before(r[i], r[t+1]));
      if j < |r| && j > t + 1 { assert Before(r[t+1], r[j]) && Before(r[t], r[j]); }
      if j + 1 < |r| && j > t { assert Before(r[t+1], r[j+1]) || j == t; assert Before(r[t], r[j+1]); }
      if j - 1 > t + 1 { assert Before(r[t+1], r[j-1]); }
    }
  }

  /** Every span of the new ring is an old one, the given one, or made of neighbours. */
  lemma FreedFrom(r: seq<Span>, t: nat, s: Span, i: nat)
    requires Fits(r, t, s) && i < |Freed(r, t, s)|
    ensures var q := Freed(r, t, s)[i];
      || q in r || q == s
      || (q == Span(r[t].start, r[t].size + s.size) && End(r[t]) == s.start)
      || (t + 1 < |r| && End(s) == r[t+1].start
          && (q == Span(s.start, s.size + r[t+1].size)
              || (q == Span(r[t].start, r[t].size + s.size + r[t+1].size) && End(r[t]) == s.start)))
  {
  }

  lemma {:induction false} SumMerge(r: seq<Span>, t: nat, q: Span)
    requires t + 1 < |r|
    ensures Sum(Remove(r, t + 1)[t := q]) == Sum(r) - r[t].size - r[t+1].size + q.size
  {
    SumRemove(r, t + 1);
    SumUpdate(Remove(r, t + 1), t, q);
  }

  lemma {:induction false} FreedSum(r: seq<Span>, t: nat, s: Span)
    requires t < |r|
    ensures Sum(Freed(r, t, s)) == Sum(r) + s.size
  {
    var left, right := End(r[t]) == s.start, t + 1 < |r| && End(s) == r[t+1].start;
    if left && right {
      SumMerge(r, t, Span(r[t].start, r[t].size + s.size + r[t+1].size));
    } else if left {
      SumUpdate(r, t, Span(r[t].start, r[t].size + s.size));
    } else if right {
      SumUpdate(r, t + 1, Span(s.start, s.size + r[t+1].size));
    } else {
      SumInsert(r, t + 1, s);
    }
  }

  /** A property that adjacent spans pass on to their union is kept. */
  lemma FreedApart(r: seq<Span>, t: nat, s: Span, l: Span, i: nat)
    requires Fits(r, t, s) && i < |Freed(r, t, s)| && l.size >= 1 && Apart(s, l)
    requires forall k :: 0 <= k < |r| ==> Apart(r[k], l)
    ensures Apart(Freed(r, t, s)[i], l)
  {
    FreedFrom(r, t, s, i);
    assert Apart(r[t], l);
    if t + 1 < |r| { assert Apart(r[t+1], l); }
  }

  lemma FreedOwned(r: seq<Span>, t: nat, s: Span, obtained: set<nat>, i: nat)
    requires Fits(r, t, s) && i < |Freed(r, t, s)| && Owned(s, obtained)
    requires forall k {:trigger Owned(r[k], obtained)} :: 0 <= k < |r| ==> Owned(r[k], obtained)
    ensures Owned(Freed(r, t, s)[i], obtained)
  {
    FreedFrom(r, t, s, i);
    var q := Freed(r, t, s)[i];
    assert Owned(r[t], obtained);
    if t + 1 < |r| { assert Owned(r[t+1], obtained); }
    if q in r {
      var k :| 0 <= k < |r| && r[k] == q;
      assert Owned(r[k], obtained);
    }
    forall x | In(q, x) ensures x in obtained {
      assert In(s, x) || In(r[t], x) || (t + 1 < |r| && In(r[t+1], x)) || q in r;
    }
  }

  ghost function FreedHeap(h: Heap, t: nat, li: nat): Heap
    requires t < |h.ring| && li < |h.live|
  {
    h.(ring := Freed(h.ring, t, h.live[li]), live := Remove(h.live, li))
  }

  lemma LiveFits(h: Heap, base: nat, t: nat, li: nat)
    requires HeapOk(h, base) && li < |h.live| && PlaceOf(h.ring, t, h.live[li].start)
    ensures Fits(h.ring, t, h.live[li])
  {
    forall i | 0 <= i < |h.ring| ensures Apart(h.ring[i], h.live[li]) { assert FreeApart(h.ring, h.live, i, li); }
  }

  /** free keeps the heap in order. */
  lemma FreeKeeps(h: Heap, base: nat, t: nat, li: nat)
    requires HeapOk(h, base) && li < |h.live| && PlaceOf(h.ring, t, h.live[li].start)
    ensures HeapOk(FreedHeap(h, t, li), base)
  {
    var s, h' := h.live[li], FreedHeap(h, t, li);
    LiveFits(h, base, t, li);
    FreedSorted(h.ring, t, s);
    FreedSum(h.ring, t, s);
    SumRemove(h.live, li);
    FreeKeepsApart(h, base, t, li);
    assert Owned(h.live[li], h.obtained);
    forall i | 0 <= i < |h'.ring| ensures Owned(h'.ring[i], h.obtained) { FreedOwned(h.ring, t, s, h.obtained, i); }
    forall j | 0 <= j < |h'.live| ensures Owned(h'.live[j], h.obtained) {
      assert Owned(h.live[if j < li then j else j + 1], h.obtained);
    }
  }

  lemma FreeKeepsApart(h: Heap, base: nat, t: nat, li: nat)
    requires HeapOk(h, base) && li < |h.live| && Fits(h.ring, t, h.live[li])
    ensures var h' := FreedHeap(h, t, li);
      && (forall i, j :: 0 <= i < |h'.live| && 0 <= j < |h'.live| ==> LiveApart(h'.live, i, j))
      && (forall i, j :: 0 <= i < |h'.ring| && 0 <= j < |h'.live| ==> FreeApart(h'.ring, h'.live, i, j))
  {
    var h' := FreedHeap(h, t, li);
    forall i, j | 0 <= i < |h'.live| && 0 <= j < |h'.live| ensures LiveApart(h'.live, i, j) {
      assert LiveApart(h.live, if i < li then i else i + 1, if j < li then j else j + 1);
    }
    forall i, j | 0 <= i < |h'.ring| && 0 <= j < |h'.live| ensures FreeApart(h'.ring, h'.live, i, j) {
      var m := if j < li then j else j + 1;
      assert LiveApart(h.live, li, m);
      forall k | 0 <= k < |h.ring| ensures Apart(h.ring[k], h.live[m]) { assert FreeApart(h.ring, h.live, k, m); }
      FreedApart(h.ring, t, h.live[li], h.live[m], i);
    }
  }

  // ------------------------------------------------------------------- taking units

  /** `n` units from the end of the span at place `k`. */
  function Taken(h: Heap, k: nat, n: nat): Heap
    requires k < |h.ring| && h.ring[k].size >= n
  {
    var s := h.ring[k];
    h.(ring := if s.size == n then Remove(h.ring, k) else h.ring[k := Span(s.start, s.size - n)],
       live := h.live + [Span(End(s) - n, n)])
  }

  lemma TakenSorted(h: Heap, base: nat, k: nat, n: nat)
    requires HeapOk(h, base) && 1 <= k < |h.ring| && 1 <= n <= h.ring[k].size
    ensures Sorted(Taken(h, k, n).ring)
  {
    var r := Taken(h, k, n).ring;
    forall i, j | 0 <= i < j < |r| ensures Before(r[i], r[j]) {
      if h.ring[k].size == n {
        assert Before(h.ring[if i < k then i else i + 1], h.ring[if j < k then j else j + 1]);
      } else {
        assert Before(h.ring[i], h.ring[j]);
      }
    }
  }

  /** Where the spans of the new ring come from. */
  lemma TakenFrom(h: Heap, k: nat, n: nat, i: nat)
    requires 1 <= k < |h.ring| && 1 <= n <= h.ring[k].size && i < |Taken(h, k, n).ring|
    ensures var q := Taken(h, k, n).ring[i];
      (exists m :: 0 <= m < |h.ring| && m != k && h.ring[m] == q)
      || (q == Span(h.ring[k].start, h.ring[k].size - n) && q.size >= 1)
  {
    if h.ring[k].size == n {
      assert h.ring[if i < k then i else i + 1] == Taken(h, k, n).ring[i];
    } else if i != k {
      assert h.ring[i] == Taken(h, k, n).ring[i];
    }
  }

  /** Giving out units keeps the heap in order. */
  lemma TakeKeeps(h: Heap, base: nat, k: nat, n: nat)
    requires HeapOk(h, base) && 1 <= k < |h.ring| && 1 <= n <= h.ring[k].size
    ensures HeapOk(Taken(h, k, n), base)
  {
    var h', s, b := Taken(h, k, n), h.ring[k], Span(End(h.ring[k]) - n, n);
    TakenSorted(h, base, k, n);
    TakenApart(h, base, k, n);
    TakenSum(h, k, n);
    assert Owned(h.ring[k], h.obtained);
    assert forall x :: In(b, x) ==> In(s, x);
    forall i | 0 <= i < |h'.ring| ensures Owned(h'.ring[i], h.obtained) {
      TakenFrom(h, k, n, i);
      if m :| 0 <= m < |h.ring| && m != k && h.ring[m] == h'.ring[i] {
        assert Owned(h.ring[m], h.obtained);
      } else {
        assert forall x :: In(h'.ring[i], x) ==> In(s, x);
      }
    }
    forall j | 0 <= j < |h'.live| ensures Owned(h'.live[j], h.obtained) {
      if j < |h.live| { assert Owned(h.live[j], h.obtained); }
    }
  }

  lemma {:induction false} TakenSum(h: Heap, k: nat, n: nat)
    requires 1 <= k < |h.ring| && 1 <= n <= h.ring[k].size
    ensures Sum(Taken(h, k, n).ring) + Sum(Taken(h, k, n).live) == Sum(h.ring) + Sum(h.live)
  {
    var s := h.ring[k];
    if s.size == n { SumRemove(h.ring, k); } else { SumUpdate(h.ring, k, Span(s.start, s.size - n)); }
    SumAppend(h.live, Span(End(s) - n, n));
  }

  lemma TakenApart(h: Heap, base: nat, k: nat, n: nat)
    requires HeapOk(h, base) && 1 <= k < |h.ring| && 1 <= n <= h.ring[k].size
    ensures var h' := Taken(h, k, n);
      && (forall i, j :: 0 <= i < |h'.live| && 0 <= j < |h'.live| ==> LiveApart(h'.live, i, j))
      && (forall i, j :: 0 <= i < |h'.ring| && 0 <= j < |h'.live| ==> FreeApart(h'.ring, h'.live, i, j))
  {
    var h' := Taken(h, k, n);
    forall i, j | 0 <= i < |h'.live| && 0 <= j < |h'.live| ensures LiveApart(h'.live, i, j) {
      if i < |h.live| && j < |h.live| { assert LiveApart(h.live, i, j); }
      else if i < |h.live| { assert FreeApart(h.ring, h.live, k, i); }
      else if j < |h.live| { assert FreeApart(h.ring, h.live, k, j); }
    }
    forall i, j | 0 <= i < |h'.ring| && 0 <= j < |h'.live| ensures FreeApart(h'.ring, h'.live, i, j) {
      TakenFreeApart(h, base, k, n, i, j);
    }
  }

  lemma TakenFreeApart(h: Heap, base: nat, k: nat, n: nat, i: nat, j: nat)
    requires HeapOk(h, base) && 1 <= k < |h.ring| && 1 <= n <= h.ring[k].size
    requires i < |Taken(h, k, n).ring| && j < |Taken(h, k, n).live|
    ensures FreeApart(Taken(h, k, n).ring, Taken(h, k, n).live, i, j)
  {
    var q := Taken(h, k, n).ring[i];
    TakenFrom(h, k, n, i);
    if m :| 0 <= m < |h.ring| && m != k && h.ring[m] == q {
      assert if m < k then Before(h.ring[m], h.ring[k]) else Before(h.ring[k], h.ring[m]);
      if j < |h.live| { assert FreeApart(h.ring, h.live, m, j); }
    } else {
      if j < |h.live| { assert FreeApart(h.ring, h.live, k, j); }
    }
  }

  // ------------------------------------------------------------------ more from sbrk

  /** A fresh region at or above the break, held as one block. */
  ghost function Grown(h: Heap, start: nat, n: nat): Heap {
    h.(live := h.live + [Span(start, n)], obtained := h.obtained + Range(start, start + n), brk := start + n)
  }

  lemma GrowKeeps(h: Heap, base: nat, start: nat, n: nat)
    requires HeapOk(h, base) && h.brk <= start && n >= 1
    ensures HeapOk(Grown(h, start, n), base)
  {
    var h', s := Grown(h, start, n), Span(start, n);
    SumAppend(h.live, s);
    RangeSize(start, start + n);
    assert h.obtained !! Range(start, start + n);
    assert |h'.obtained| == |h.obtained| + n;
    GrowApart(h, base, start, n);
    forall i | 0 <= i < |h.ring| ensures Owned(h.ring[i], h'.obtained) { assert Owned(h.ring[i], h.obtained); }
    forall j | 0 <= j < |h'.live| ensures Owned(h'.live[j], h'.obtained) {
      if j < |h.live| {
        assert Owned(h.live[j], h.obtained);
      } else {
        assert forall x :: In(s, x) ==> Between(start, x, start + n);
      }
    }
  }

  lemma GrowApart(h: Heap, base: nat, start: nat, n: nat)
    requires HeapOk(h, base) && h.brk <= start
    ensures var h' := Grown(h, start, n);
      && (forall i, j :: 0 <= i < |h'.live| && 0 <= j < |h'.live| ==> LiveApart(h'.live, i, j))
      && (forall i, j :: 0 <= i < |h'.ring| && 0 <= j < |h'.live| ==> FreeApart(h'.ring, h'.live, i, j))
  {
    var h' := Grown(h, start, n);
    forall i | 0 <= i < |h.ring| ensures End(h.ring[i]) <= h.brk {
      assert Owned(h.ring[i], h.obtained);
      BelowBreak(h, base, h.ring[i]);
    }
    forall j | 0 <= j < |h.live| ensures End(h.live[j]) <= h.brk {
      assert Owned(h.live[j], h.obtained);
      BelowBreak(h, base, h.live[j]);
    }
    forall i, j | 0 <= i < |h'.live| && 0 <= j < |h'.live| ensures LiveApart(h'.live, i, j) {
      if i < |h.live| && j < |h.live| { assert LiveApart(h.live, i, j); }
    }
    forall i, j | 0 <= i < |h'.ring| && 0 <= j < |h'.live| ensures FreeApart(h'.ring, h'.live, i, j) {
      if j < |h.live| { assert FreeApart(h.ring, h.live, i, j); }
    }
  }

  lemma BelowBreak(h: Heap, base: nat, s: Span)
    requires HeapOk(h, base) && Owned(s, h.obtained) && (s.size >= 1 || s.start == base)
    ensures End(s) <= h.brk
  {
    if s.size >= 1 { assert In(s, End(s) - 1); }
  }
}

/** malloc, free and morecore on a ring of headers. Addresses count header units. */
module Umalloc {
  import opened Common
  import opened FreeList

  /** Broken: the byte count is not positive as sbrk's int argument, so the region is no memory
      of the process. */
  datatype Result = Block(ap: nat) | NoMemory | Broken

  /** sizeof(Header). */
  const UNIT := 8

  /** Units for a request, the header included, in arithmetic of 32 bits. */
  function Units(nbytes: nat): nat {
    (nbytes + UNIT - 1) % WORD / UNIT + 1
  }

  /** The block is large enough for the request exactly if rounding up does not wrap around, and
      then no smaller one is. */
  lemma PayloadFits(nbytes: nat)
    requires nbytes < WORD
    ensures (Units(nbytes) - 1) * UNIT >= nbytes <==> nbytes <= WORD - UNIT
    ensures nbytes <= WORD - UNIT ==> (Units(nbytes) - 2) * UNIT < nbytes
  {
  }

  /** The largest request gets a header and no bytes at all. */
  lemma WrappedRequest()
    ensures Units(WORD - 1) == 1
  {
  }

  /** Units that morecore asks for: the request, but no fewer than 4096. */
  function Core(nu: nat): (n: nat)
    ensures n >= nu && n >= 4096 && (n == nu || n == 4096)
  {
    if nu < 4096 then 4096 else nu
  }

  /** The byte count that reaches sbrk as an int, once the ring holds no block that fits. */
  function SbrkArg(nbytes: nat): int {
    var w := Core(Units(nbytes)) * UNIT % WORD;
    if w < WORD / 2 then w else w - WORD
  }

  lemma ArgIs(nbytes: nat)
    requires nbytes < WORD
    ensures SbrkArg(nbytes) <= 0 <==> Core(Units(nbytes)) * UNIT >= WORD / 2
    ensures SbrkArg(nbytes) > 0 ==> SbrkArg(nbytes) == Core(Units(nbytes)) * UNIT
  {
    assert Units(nbytes) <= WORD / UNIT;
  }

  /** sbrk is asked for memory, and for enough to hold the request, exactly up to 2^31 - 16 bytes. */
  lemma BreakFits(nbytes: nat)
    requires nbytes < WORD
    ensures SbrkArg(nbytes) > 0 && (Units(nbytes) - 1) * UNIT >= nbytes <==> nbytes <= WORD / 2 - 2 * UNIT
  {
    ArgIs(nbytes);
    PayloadFits(nbytes);
  }

  /** A request of 2^31 bytes asks sbrk to give memory back. */
  lemma NegativeBreak()
    ensures SbrkArg(WORD / 2) == -(WORD / 2) + UNIT && Units(WORD / 2) == 0x1000_0001
  {
  }

  // ----------------------------------------------------------------------- links

  function Next(r: seq<Span>, i: nat): Span
    requires i < |r|
  {
    if i + 1 < |r| then r[i+1] else r[0]
  }

  ghost predicate LinkAt(ptr: map<nat, nat>, size: map<nat, nat>, r: seq<Span>, i: nat)
    requires i < |r|
  {
    var a := r[i].start;
    a in ptr && ptr[a] == Next(r, i).start && a in size && size[a] == r[i].size
  }

  ghost predicate Linked(ptr: map<nat, nat>, size: map<nat, nat>, r: seq<Span>) {
    forall i :: 0 <= i < |r| ==> LinkAt(ptr, size, r, i)
  }

  ghost predicate HeaderAt(size: map<nat, nat>, live: seq<Span>, j: nat)
    requires j < |live|
  {
    live[j].start in size && size[live[j].start] == live[j].size
  }

  ghost predicate Headers(size: map<nat, nat>, live: seq<Span>) {
    forall j :: 0 <= j < |live| ==> HeaderAt(size, live, j)
  }

  lemma NotInRing(r: seq<Span>, t: nat, s: Span, i: nat)
    requires Fits(r, t, s) && i < |r|
    ensures r[i].start != s.start
  {
    assert i < t ==> Before(r[i], r[t]);
    assert t + 1 < i ==> Before(r[t+1], r[i]);
  }

  lemma StartsDiffer(r: seq<Span>, i: nat, j: nat)
    requires Sorted(r) && i < |r| && j < |r| && i != j
    ensures r[i].start != r[j].start
  {
    assert if i < j then Before(r[i], r[j]) else Before(r[j], r[i]);
  }

  /** No neighbour touches the span. */
  lemma LinkInsert(ptr: map<nat, nat>, size: map<nat, nat>, r: seq<Span>, t: nat, s: Span, ptr': map<nat, nat>)
    requires Linked(ptr, size, r) && Fits(r, t, s) && s.start in size && size[s.start] == s.size
    requires ptr' == ptr[s.start := Next(r, t).start][r[t].start := s.start]
    ensures Linked(ptr', size, Insert(r, t + 1, s))
  {
    var r' := Insert(r, t + 1, s);
    forall i | 0 <= i < |r'| ensures LinkAt(ptr', size, r', i) {
      var k := if i <= t then i else i - 1;
      NotInRing(r, t, s, k);
      NotInRing(r, t, s, t);
      assert LinkAt(ptr, size, r, k);
      if k != t { StartsDiffer(r, k, t); }
    }
  }

  /** The span ends where the next one starts. */
  lemma LinkRight(ptr: map<nat, nat>, size: map<nat, nat>, r: seq<Span>, t: nat, s: Span,
                  ptr': map<nat, nat>, size': map<nat, nat>)
    requires Linked(ptr, size, r) && Fits(r, t, s) && t + 1 < |r|
    requires ptr' == ptr[s.start := Next(r, t + 1).start][r[t].start := s.start]
    requires size' == size[s.start := s.size + r[t+1].size]
    ensures Linked(ptr', size', r[t+1 := Span(s.start, s.size + r[t+1].size)])
  {
    var r' := r[t+1 := Span(s.start, s.size + r[t+1].size)];
    forall i | 0 <= i < |r'| ensures LinkAt(ptr', size', r', i) {
      NotInRing(r, t, s, i);
      NotInRing(r, t, s, t);
      assert LinkAt(ptr, size, r, i);
      if i != t { StartsDiffer(r, i, t); }
    }
  }

  /** The span starts where the one before ends. */
  lemma LinkLeft(ptr: map<nat, nat>, size: map<nat, nat>, r: seq<Span>, t: nat, s: Span,
                 ptr': map<nat, nat>, size': map<nat, nat>)
    requires Linked(ptr, size, r) && Fits(r, t, s)
    requires ptr' == ptr[s.start := Next(r, t).start][r[t].start := Next(r, t).start]
    requires size' == size[r[t].start := r[t].size + s.size]
    ensures Linked(ptr', size', r[t := Span(r[t].start, r[t].size + s.size)])
  {
    var r' := r[t := Span(r[t].start, r[t].size + s.size)];
    forall i | 0 <= i < |r'| ensures LinkAt(ptr', size', r', i) {
      NotInRing(r, t, s, i);
      assert LinkAt(ptr, size, r, i);
      if i != t { StartsDiffer(r, i, t); }
    }
  }

  /** It fills the gap between two spans. */
  lemma LinkBoth(ptr: map<nat, nat>, size: map<nat, nat>, r: seq<Span>, t: nat, s: Span, q: Span,
                 ptr': map<nat, nat>, size': map<nat, nat>)
    requires Linked(ptr, size, r) && Fits(r, t, s) && t + 1 < |r| && q.start == r[t].start
    requires ptr' == ptr[s.start := Next(r, t + 1).start][r[t].start := Next(r, t + 1).start]
    requires size' == size[s.start := s.size + r[t+1].size][r[t].start := q.size]
    ensures Linked(ptr', size', Remove(r, t + 1)[t := q])
  {
    var r' := Remove(r, t + 1)[t := q];
    forall i | 0 <= i < |r'| ensures LinkAt(ptr', size', r', i) {
      var k := if i <= t then i else i + 1;
      NotInRing(r, t, s, k);
      assert LinkAt(ptr, size, r, k);
      if k != t { StartsDiffer(r, k, t); }
    }
  }

  lemma LinkRemove(ptr: map<nat, nat>, size: map<nat, nat>, r: seq<Span>, k: nat, ptr': map<nat, nat>)
    requires Linked(ptr, size, r) && Sorted(r) && 1 <= k < |r| && ptr' == ptr[r[k-1].start := Next(r, k).start]
    ensures Linked(ptr', size, Remove(r, k))
  {
    var r' := Remove(r, k);
    forall i | 0 <= i < |r'| ensures LinkAt(ptr', size, r', i) {
      var m := if i < k then i else i + 1;
      assert LinkAt(ptr, size, r, m);
      if m != k - 1 { StartsDiffer(r, m, k - 1); }
    }
  }

  lemma LinkShrink(ptr: map<nat, nat>, size: map<nat, nat>, r: seq<Span>, k: nat, n: nat, size': map<nat, nat>)
    requires Linked(ptr, size, r) && Sorted(r) && k < |r| && 1 <= n < r[k].size
    requires size' == size[r[k].start := r[k].size - n][End(r[k]) - n := n]
    ensures Linked(ptr, size', r[k := Span(r[k].start, r[k].size - n)])
  {
    var r' := r[k := Span(r[k].start, r[k].size - n)];
    forall i | 0 <= i < |r'| ensures LinkAt(ptr, size', r', i) {
      assert LinkAt(ptr, size, r, i);
      if i != k { assert if i < k then Before(r[i], r[k]) else Before(r[k], r[i]); }
    }
  }

  /** The place `v` steps on from place `f` of a ring of `n`. */
  function Around(f: nat, v: nat, n: nat): (i: nat)
    requires f < n && v <= n
    ensures i < n
  {
    if f + v < n then f + v else f + v - n
  }

  lemma AllAround(f: nat, n: nat, i: nat)
    requires f < n && i < n
    ensures exists u :: 1 <= u <= n && Around(f, u, n) == i
  {
    var u := if i > f then i - f else i - f + n;
    assert Around(f, u, n) == i;
  }

  /** Everything an allocator consists of. */
  datatype Rep = Rep(base: nat, ptr: map<nat, nat>, size: map<nat, nat>, freep: nat, h: Heap, at: nat)

  ghost predicate RepOk(r: Rep) {
    match r
    case Rep(base, ptr, size, freep, h, at) =>
      && 0 < base && HeapOk(h, base) && at < |h.ring|
      && (freep == 0 ==> h.ring == [Span(base, 0)] && h.live == [])
      && (freep != 0 ==> freep == h.ring[at].start && Linked(ptr, size, h.ring) && Headers(size, h.live))
  }

  class Heaplet {
    const base: nat
    /** The two words of the headers, by address. */
    var ptr: map<nat, nat>
    var size: map<nat, nat>
    /** 0 before the first call. */
    var freep: nat
    ghost var h: Heap
    /** The place of freep in the ring. */
    ghost var at: nat

    ghost predicate Valid()
      reads this
    {
      RepOk(Rep(base, ptr, size, freep, h, at))
    }

    constructor (b: nat, brk: nat)
      requires 0 < b < brk
      ensures Valid() && base == b && h == Heap([Span(b, 0)], [], {}, brk) && freep == 0
    {
      base, ptr, size, freep := b, map[], map[], 0;
      h, at := Heap([Span(b, 0)], [], {}, brk), 0;
      EmptyHeap(b, brk);
    }

    /** free, of live block `li`. The search ends at the place the block belongs to, and both
        its neighbours are merged if they touch it. */
    method Free(ap: nat, ghost li: nat) returns (ghost t: nat)
      requires Valid() && freep != 0 && li < |h.live| && ap == h.live[li].start + 1
      modifies `ptr, `size, `freep, `h, `at
      ensures Valid() && PlaceOf(old(h).ring, t, old(h).live[li].start)
      ensures h == FreedHeap(old(h), t, li) && at == t && freep == old(h).ring[t].start
      ensures h.live == old(h).live[..li] + old(h).live[li+1..] && h.obtained == old(h).obtained && h.brk == old(h).brk
    {
      var bp := ap - 1;
      t := Place(h, base, li);
      LiveFits(h, base, t, li);
      var p := Search(bp, t, h.live[li]);
      Splice(bp, p, t, li);
      freep := p;
      FreedLinked(old(ptr), old(size), h, base, t, li, ptr, size);
      FreeKeeps(h, base, t, li);
      FreedPlace(h.ring, t, h.live[li]);
      h, at := FreedHeap(h, t, li), t;
    }

    /** The second half of free: link `bp` behind `p`, or merge it with what it touches. */
    method Splice(bp: nat, p: nat, ghost t: nat, ghost li: nat)
      requires HeapOk(h, base) && li < |h.live| && Fits(h.ring, t, h.live[li])
      requires Linked(ptr, size, h.ring) && Headers(size, h.live) && bp == h.live[li].start && p == h.ring[t].start
      modifies `ptr, `size
      ensures Spliced(old(ptr), old(size), h.ring, t, h.live[li], ptr, size)
    {
      assert HeaderAt(size, h.live, li) && LinkAt(ptr, size, h.ring, t);
      Touching(h, base, t, li);
      if t + 1 < |h.ring| { assert LinkAt(ptr, size, h.ring, t + 1); }
      var nx := ptr[p];
      if bp + size[bp] == nx {
        size := size[bp := size[bp] + size[nx]];
        ptr := ptr[bp := ptr[nx]];
      } else {
        ptr := ptr[bp := nx];
      }
      if p + size[p] == bp {
        size := size[p := size[p] + size[bp]];
        ptr := ptr[p := ptr[bp]];
      } else {
        ptr := ptr[p := bp];
      }
    }

    /** The loop of free: walk the ring to the place where `bp` belongs. */
    method Search(bp: nat, ghost t: nat, ghost s: Span) returns (p: nat)
      requires Valid() && freep != 0 && s.start == bp && Fits(h.ring, t, s)
      ensures p == h.ring[t].start
    {
      p := freep;
      ghost var k, n := at, |h.ring|;
      assert LinkAt(ptr, size, h.ring, k);
      while !(bp > p && bp < ptr[p])
        invariant 0 <= k < n == |h.ring| && p == h.ring[k].start && p in ptr && ptr[p] == Next(h.ring, k).start
        invariant bp > p && bp < ptr[p] ==> k == t
        decreases if k <= t then t - k else t + n - k
      {
        Order(h.ring, k, t, bp);
        if p >= ptr[p] && (bp > p || bp < ptr[p]) { break; }
        p := ptr[p];
        k := if k + 1 < n then k + 1 else 0;
        assert LinkAt(ptr, size, h.ring, k);
        Order(h.ring, k, t, bp);
      }
      Order(h.ring, k, t, bp);
    }

    /** morecore. Asks sbrk for `nu` units but never for fewer than 4096; `grant` is the address
        sbrk gives, at or above the break, if it gives any. */
    method Morecore(nu: nat, grant: Option<nat>) returns (r: Result, ghost t: nat)
      requires Valid() && freep != 0 && (grant.Some? ==> h.brk <= grant.value)
      modifies `ptr, `size, `freep, `h, `at
      ensures Valid() && freep != 0
      ensures r.Broken? <==> Core(nu) * UNIT >= WORD / 2
      ensures r.NoMemory? <==> Core(nu) * UNIT < WORD / 2 && grant.None?
      ensures r.Block? ==> GrownBy(old(h), grant, Core(nu), t, h) && at == t && r.ap == freep
      ensures !r.Block? ==> h == old(h) && at == old(at) && freep == old(freep)
    {
      t := 0;
      var n := if nu < 4096 then 4096 else nu;
      if n * UNIT >= WORD / 2 { return Broken, t; }
      if grant.None? { return NoMemory, t; }
      t := Extend(grant.value, n);
      r := Block(freep);
    }

    /** The region at `hp` gets a header and goes into the ring. */
    method Extend(hp: nat, n: nat) returns (ghost t: nat)
      requires Valid() && freep != 0 && h.brk <= hp && n >= 1
      modifies `ptr, `size, `freep, `h, `at
      ensures Valid() && freep != 0 && GrownBy(old(h), Some(hp), n, t, h) && at == t
    {
      GrowKeeps(h, base, hp, n);
      GrownLinks(ptr, size, h, base, hp, n);
      size := size[hp := n];
      h := Grown(h, hp, n);
      t := Free(hp + 1, |h.live| - 1);
    }

    /** The block at place `k` fits: unlink it, or cut its end off. */
    method TakeBlock(prevp: nat, p: nat, nunits: nat, ghost k: nat) returns (ap: nat)
      requires Valid() && freep != 0 && 1 <= k < |h.ring| && 1 <= nunits <= h.ring[k].size
      requires prevp == h.ring[k-1].start && p == h.ring[k].start
      modifies `ptr, `size, `freep, `h, `at
      ensures Valid() && freep == prevp && h == Taken(old(h), k, nunits) && ap == h.live[|h.live|-1].start + 1
    {
      assert LinkAt(ptr, size, h.ring, k);
      var q := p;
      if size[p] == nunits {
        ptr := ptr[prevp := ptr[p]];
        LinkRemove(old(ptr), size, h.ring, k, ptr);
      } else {
        size := size[p := size[p] - nunits];
        q := p + size[p];
        size := size[q := nunits];
        LinkShrink(ptr, old(size), h.ring, k, nunits, size);
      }
      freep := prevp;
      TakenHeaders(old(size), h, base, k, nunits, size);
      TakeKeeps(h, base, k, nunits);
      h, at := Taken(h, k, nunits), k - 1;
      ap := q + 1;
    }

    /** malloc. A fitting block gives the units at its end; if the whole ring has none, the
        heap grows, once, and the search goes on. */
    method Malloc(nbytes: nat, grant: Option<nat>) returns (r: Result, ghost g: Heap, ghost k: nat, ghost t: nat)
      requires Valid() && nbytes < WORD && (grant.Some? ==> h.brk <= grant.value)
      modifies this
      ensures Valid() && freep != 0
      ensures g == old(h) || GrownFor(old(h), grant, Units(nbytes), t, g)
      ensures r.Block? ==> 1 <= k < |g.ring| && g.ring[k].size >= Units(nbytes) && h == Taken(g, k, Units(nbytes))
      ensures r.Block? ==> FirstFit(g.ring, if g == old(h) then old(at) else t, k, Units(nbytes))
      ensures r.Block? ==> r.ap >= 1 && Gives(old(h), g, k, Span(r.ap - 1, Units(nbytes)), h)
      ensures !r.Block? ==> h == old(h)
      ensures r.Broken? <==> TooSmall(old(h), Units(nbytes)) && SbrkArg(nbytes) <= 0
      ensures r.NoMemory? <==> TooSmall(old(h), Units(nbytes)) && SbrkArg(nbytes) > 0 && grant.None?
    {
      var nunits := Units(nbytes);
      ArgIs(nbytes);
      Init();
      var prevp, p;
      r, prevp, p, k, t := FindBlock(nunits, grant);
      g := h;
      if r.Block? {
        var ap := TakeBlock(prevp, p, nunits, k);
        r := Block(ap);
        TakenGives(old(h), grant, nunits, t, g, k, ap, h);
      }
    }

    /** The loop of malloc: a round finds a block of `nunits` units, `p`, or the heap grows. */
    method FindBlock(nunits: nat, grant: Option<nat>)
      returns (r: Result, prevp: nat, p: nat, ghost k: nat, ghost t: nat)
      requires Valid() && freep != 0 && nunits >= 1 && (grant.Some? ==> h.brk <= grant.value)
      modifies this
      ensures Valid() && freep != 0
      ensures h == old(h) || (r.Block? && GrownFor(old(h), grant, nunits, t, h))
      ensures r.Block? ==> Fit(h.ring, prevp, p, k, nunits)
      ensures r.Block? ==> FirstFit(h.ring, if h == old(h) then old(at) else t, k, nunits)
      ensures r.Broken? <==> TooSmall(old(h), nunits) && Core(nunits) * UNIT >= WORD / 2
      ensures r.NoMemory? <==> TooSmall(old(h), nunits) && Core(nunits) * UNIT < WORD / 2 && grant.None?
    {
      t, r := 0, Block(0);
      var found;
      found, prevp, p, k := Round(nunits);
      while !found
        invariant Valid() && freep != 0 && r.Block?
        invariant if found then Fit(h.ring, prevp, p, k, nunits) else TooSmall(h, nunits)
        invariant h == old(h) || (found && GrownFor(old(h), grant, nunits, t, h))
        invariant if h == old(h) then at == old(at) else at == t
        invariant found ==> FirstFit(h.ring, at, k, nunits)
        invariant found ==> !TooSmall(old(h), nunits) || (Core(nunits) * UNIT < WORD / 2 && grant.Some?)
        decreases !found
      {
        r, t := Morecore(nunits, grant);
        if !r.Block? { return; }
        GrownNear(old(h), grant, Core(nunits), t, h, nunits);
        found, prevp, p, k := Round(nunits);
      }
    }

    /** One round of the search, from behind freep to freep. */
    method Round(nunits: nat) returns (found: bool, prevp: nat, p: nat, ghost k: nat)
      requires Valid() && freep != 0 && nunits >= 1
      ensures if found then Fit(h.ring, prevp, p, k, nunits) else TooSmall(h, nunits)
      ensures (found <==> !TooSmall(h, nunits)) && (found ==> FirstFit(h.ring, at, k, nunits))
    {
      prevp := freep;
      p := Follow(prevp, at);
      ghost var v := 1;
      LookStart(h.ring, at, nunits);
      while true
        invariant 1 <= v <= |h.ring| && Looking(h.ring, at, Cursor(v, prevp, p), nunits)
        decreases |h.ring| - v
      {
        k := Around(at, v, |h.ring|);
        var n := SizeOf(p, k);
        if n >= nunits {
          Behind(h.ring, at, v, prevp, p, nunits);
          assert FitsAfter(h.ring, at, v, nunits);
          return true, prevp, p, k;
        }
        AtFreep(h.ring, at, v, prevp, p, nunits);
        if p == freep {
          NoneFits(h, at, prevp, p, nunits);
          return false, prevp, p, k;
        }
        prevp := p;
        p := Follow(prevp, k);
        LookNext(h.ring, at, v, nunits);
        v := v + 1;
      }
    }

    /** On the first call the ring is the base alone. */
    method Init()
      requires Valid()
      modifies `ptr, `size, `freep
      ensures Valid() && freep != 0
    {
      if freep == 0 {
        ptr, size := ptr[base := base], size[base := 0];
        freep := base;
      }
    }

    method Follow(p: nat, ghost i: nat) returns (q: nat)
      requires Valid() && freep != 0 && i < |h.ring| && p == h.ring[i].start
      ensures q == Next(h.ring, i).start
    {
      assert LinkAt(ptr, size, h.ring, i);
      q := ptr[p];
    }

    method SizeOf(p: nat, ghost i: nat) returns (n: nat)
      requires Valid() && freep != 0 && i < |h.ring| && p == h.ring[i].start
      ensures n == h.ring[i].size
    {
      assert LinkAt(ptr, size, h.ring, i);
      n := size[p];
    }
  }

  /** No free block holds `n` units. */
  ghost predicate TooSmall(h: Heap, n: nat) {
    forall i :: 0 <= i < |h.ring| ==> h.ring[i].size < n
  }

  /** `g` is `h` with a region of `n` units from sbrk put into the ring behind place `t`. */
  ghost predicate GrownBy(h: Heap, grant: Option<nat>, n: nat, t: nat, g: Heap) {
    && grant.Some? && h.brk <= grant.value && PlaceOf(h.ring, t, grant.value)
    && g == FreedHeap(Grown(h, grant.value, n), t, |h.live|)
  }

  lemma GrownNear(h: Heap, grant: Option<nat>, n: nat, t: nat, g: Heap, nu: nat)
    requires GrownBy(h, grant, n, t, g) && nu <= n
    ensures !TooSmall(g, nu)
  {
    FreedPlace(h.ring, t, Span(grant.value, n));
  }

  /** From `g`, which is `h` or `h` grown, the live block `b` was cut off at the end of the free
      block at `k`. */
  ghost predicate Gives(h: Heap, g: Heap, k: nat, b: Span, h': Heap) {
    && h'.live == h.live + [b] && h'.obtained == g.obtained && h'.brk == g.brk
    && k < |g.ring| && g.ring[k].start <= b.start && End(b) == End(g.ring[k])
  }

  lemma TakenGives(h: Heap, grant: Option<nat>, n: nat, t: nat, g: Heap, k: nat, ap: nat, h': Heap)
    requires g == h || GrownFor(h, grant, n, t, g)
    requires k < |g.ring| && g.ring[k].size >= n && h' == Taken(g, k, n) && ap == h'.live[|h'.live|-1].start + 1
    ensures ap >= 1 && Gives(h, g, k, Span(ap - 1, n), h')
  {
    assert g.live == h.live;
  }

  /** Place `k` holds at least `n` units; `p` and `prevp` point to it and to the place before. */
  ghost predicate Fit(r: seq<Span>, prevp: nat, p: nat, k: nat, n: nat) {
    1 <= k < |r| && r[k].size >= n && prevp == r[k-1].start && p == r[k].start
  }

  /** Nothing on the way from place `f` fits before the place `v` steps on. */
  ghost predicate FitsAfter(r: seq<Span>, f: nat, v: nat, n: nat) {
    && f < |r| && 1 <= v <= |r| && r[Around(f, v, |r|)].size >= n
    && forall u {:trigger Around(f, u, |r|)} :: 1 <= u < v ==> r[Around(f, u, |r|)].size < n
  }

  /** Place `k` is the first one behind place `f` that holds `n` units. */
  ghost predicate FirstFit(r: seq<Span>, f: nat, k: nat, n: nat) {
    exists v :: FitsAfter(r, f, v, n) && Around(f, v, |r|) == k
  }

  datatype Cursor = Cursor(v: nat, prevp: nat, p: nat)

  /** The search for `n` units has come `v` steps from place `f`; nothing it passed fits. */
  ghost predicate Looking(r: seq<Span>, f: nat, c: Cursor, n: nat) {
    match c
    case Cursor(v, prevp, p) =>
      && f < |r| && 1 <= v <= |r|
      && prevp == r[Around(f, v - 1, |r|)].start && p == r[Around(f, v, |r|)].start
      && forall u {:trigger Around(f, u, |r|)} :: 1 <= u < v ==> r[Around(f, u, |r|)].size < n
  }

  lemma LookStart(r: seq<Span>, f: nat, n: nat)
    requires f < |r|
    ensures Looking(r, f, Cursor(1, r[f].start, Next(r, f).start), n)
  {
  }

  lemma LookNext(r: seq<Span>, f: nat, v: nat, n: nat)
    requires f < |r| && 1 <= v < |r| && r[Around(f, v, |r|)].size < n
    requires Looking(r, f, Cursor(v, r[Around(f, v - 1, |r|)].start, r[Around(f, v, |r|)].start), n)
    ensures Looking(r, f, Cursor(v + 1, r[Around(f, v, |r|)].start, Next(r, Around(f, v, |r|)).start), n)
  {
  }

  /** The place before a fitting block. */
  lemma Behind(r: seq<Span>, f: nat, v: nat, prevp: nat, p: nat, n: nat)
    requires Looking(r, f, Cursor(v, prevp, p), n) && r[0].size == 0 && 1 <= n <= r[Around(f, v, |r|)].size
    ensures var k := Around(f, v, |r|); k >= 1 && prevp == r[k-1].start
  {
  }

  /** The search is back at its start after one round, and not before. */
  lemma AtFreep(r: seq<Span>, f: nat, v: nat, prevp: nat, p: nat, n: nat)
    requires Looking(r, f, Cursor(v, prevp, p), n) && Sorted(r)
    ensures p == r[f].start <==> v == |r|
  {
    if v < |r| { StartsDiffer(r, Around(f, v, |r|), f); }
  }

  lemma NoneFits(h: Heap, f: nat, prevp: nat, p: nat, n: nat)
    requires Looking(h.ring, f, Cursor(|h.ring|, prevp, p), n) && h.ring[f].size < n
    ensures TooSmall(h, n)
  {
    forall i | 0 <= i < |h.ring| ensures h.ring[i].size < n { AllAround(f, |h.ring|, i); }
  }

  /** The heap grew for want of `n` units. */
  ghost predicate GrownFor(h: Heap, grant: Option<nat>, n: nat, t: nat, g: Heap) {
    match grant
    case Some(_) => TooSmall(h, n) && GrownBy(h, grant, Core(n), t, g)
    case None => false
  }

  lemma GrownLinks(ptr: map<nat, nat>, size: map<nat, nat>, h: Heap, base: nat, start: nat, n: nat)
    requires HeapOk(h, base) && h.brk <= start && n >= 1 && Linked(ptr, size, h.ring) && Headers(size, h.live)
    ensures Linked(ptr, size[start := n], h.ring) && Headers(size[start := n], Grown(h, start, n).live)
  {
    var live', size' := Grown(h, start, n).live, size[start := n];
    forall i | 0 <= i < |h.ring| ensures LinkAt(ptr, size', h.ring, i) {
      assert LinkAt(ptr, size, h.ring, i) && Owned(h.ring[i], h.obtained);
      if i > 0 { assert In(h.ring[i], h.ring[i].start); }
    }
    forall j | 0 <= j < |live'| ensures HeaderAt(size', live', j) {
      if j < |h.live| {
        assert HeaderAt(size, h.live, j) && Owned(h.live[j], h.obtained) && In(h.live[j], h.live[j].start);
      }
    }
  }

  /** Cutting a free block leaves the headers of live blocks alone. */
  lemma TakenHeaders(size: map<nat, nat>, h: Heap, base: nat, k: nat, n: nat, size': map<nat, nat>)
    requires HeapOk(h, base) && 1 <= k < |h.ring| && 1 <= n <= h.ring[k].size && Headers(size, h.live)
    requires h.ring[k].start in size && size[h.ring[k].start] == h.ring[k].size
    requires size' == if n == h.ring[k].size then size
                      else size[h.ring[k].start := h.ring[k].size - n][End(h.ring[k]) - n := n]
    ensures Headers(size', Taken(h, k, n).live)
  {
    var live' := Taken(h, k, n).live;
    forall j | 0 <= j < |live'| ensures HeaderAt(size', live', j) {
      if j < |h.live| { assert HeaderAt(size, h.live, j) && FreeApart(h.ring, h.live, k, j); }
    }
  }

  lemma EmptyHeap(base: nat, brk: nat)
    requires base < brk
    ensures HeapOk(Heap([Span(base, 0)], [], {}, brk), base)
  {
    assert SumTo([Span(base, 0)], 1) == SumTo([Span(base, 0)], 0) + 0;
  }

  /** Which tests of the search succeed at place `k`. */
  lemma Order(r: seq<Span>, k: nat, t: nat, a: nat)
    requires Sorted(r) && k < |r| && PlaceOf(r, t, a)
    ensures k + 1 < |r| ==> r[k].start < r[k+1].start && ((r[k].start < a < r[k+1].start) <==> k == t)
    ensures k + 1 == |r| ==> r[0].start <= r[k].start && r[0].start < a && (r[k].start < a <==> k == t)
  {
    assert k + 1 < |r| ==> Before(r[k], r[k+1]);
    assert 0 < t ==> Before(r[0], r[t]);
    assert 0 < k ==> Before(r[0], r[k]);
    if k < t { assert Before(r[k+1], r[t]) || k + 1 == t; }
    if t < k { assert Before(r[t+1], r[k]) || k == t + 1; }
  }

  /** The last place below a live block. */
  ghost function Place(h: Heap, base: nat, li: nat): (t: nat)
    requires HeapOk(h, base) && li < |h.live|
    ensures PlaceOf(h.ring, t, h.live[li].start)
  {
    assert Owned(h.live[li], h.obtained) && In(h.live[li], h.live[li].start);
    PlaceIn(h, base, li, |h.ring|)
  }

  ghost function PlaceIn(h: Heap, base: nat, li: nat, n: nat): (t: nat)
    requires HeapOk(h, base) && li < |h.live| && 1 <= n <= |h.ring| && base < h.live[li].start
    requires n < |h.ring| ==> h.live[li].start < h.ring[n].start
    ensures PlaceOf(h.ring, t, h.live[li].start)
  {
    if h.ring[n-1].start < h.live[li].start then n - 1
    else
      assert FreeApart(h.ring, h.live, n - 1, li);
      PlaceIn(h, base, li, n - 1)
  }

  lemma FreedPlace(r: seq<Span>, t: nat, s: Span)
    requires t < |r|
    ensures var r' := Freed(r, t, s);
      && t < |r'| && r'[t].start == r[t].start
      && (r'[t].size >= s.size || (t + 1 < |r'| && r'[t+1].size >= s.size))
  {
  }

  /** The tests of free decide which neighbours the block touches; the base touches nothing. */
  lemma Touching(h: Heap, base: nat, t: nat, li: nat)
    requires HeapOk(h, base) && li < |h.live| && Fits(h.ring, t, h.live[li])
    ensures var s := h.live[li];
      && (End(s) == Next(h.ring, t).start <==> t + 1 < |h.ring| && End(s) == h.ring[t+1].start)
      && s.start != Next(h.ring, t).start && s.start != h.ring[t].start
  {
    var n := if t + 1 < |h.ring| then t + 1 else 0;
    NotInRing(h.ring, t, h.live[li], n);
    NotInRing(h.ring, t, h.live[li], t);
    assert Owned(h.live[li], h.obtained) && In(h.live[li], h.live[li].start);
  }

  /** What free makes of the headers of `s` and of place `t`. */
  ghost predicate Spliced(ptr: map<nat, nat>, size: map<nat, nat>, r: seq<Span>, t: nat, s: Span,
                          ptr': map<nat, nat>, size': map<nat, nat>)
    requires t < |r|
  {
    var right := t + 1 < |r| && End(s) == r[t+1].start;
    var next := if right then Next(r, t + 1).start else Next(r, t).start;
    var n := if right then s.size + r[t+1].size else s.size;
    var size1 := if right then size[s.start := n] else size;
    if End(r[t]) == s.start then
      ptr' == ptr[s.start := next][r[t].start := next] && size' == size1[r[t].start := r[t].size + n]
    else ptr' == ptr[s.start := next][r[t].start := s.start] && size' == size1
  }

  lemma FreedLinked(ptr: map<nat, nat>, size: map<nat, nat>, h: Heap, base: nat, t: nat, li: nat,
                    ptr': map<nat, nat>, size': map<nat, nat>)
    requires HeapOk(h, base) && li < |h.live| && Fits(h.ring, t, h.live[li])
    requires Linked(ptr, size, h.ring) && Headers(size, h.live)
    requires Spliced(ptr, size, h.ring, t, h.live[li], ptr', size')
    ensures Linked(ptr', size', FreedHeap(h, t, li).ring) && Headers(size', FreedHeap(h, t, li).live)
  {
    assert HeaderAt(size, h.live, li);
    FreedLinks(ptr, size, h.ring, t, h.live[li], ptr', size');
    FreedHeaders(size, h, base, t, li, size');
  }

  lemma FreedLinks(ptr: map<nat, nat>, size: map<nat, nat>, r: seq<Span>, t: nat, s: Span,
                   ptr': map<nat, nat>, size': map<nat, nat>)
    requires Sorted(r) && Fits(r, t, s) && Linked(ptr, size, r) && s.start in size && size[s.start] == s.size
    requires Spliced(ptr, size, r, t, s, ptr', size')
    ensures Linked(ptr', size', Freed(r, t, s))
  {
    if End(r[t]) == s.start && t + 1 < |r| && End(s) == r[t+1].start {
      LinkBoth(ptr, size, r, t, s, Span(r[t].start, r[t].size + s.size + r[t+1].size), ptr', size');
    } else if End(r[t]) == s.start {
      LinkLeft(ptr, size, r, t, s, ptr', size');
    } else if t + 1 < |r| && End(s) == r[t+1].start {
      LinkRight(ptr, size, r, t, s, ptr', size');
    } else {
      LinkInsert(ptr, size, r, t, s, ptr');
    }
  }

  /** The headers of the other live blocks are as before. */
  lemma FreedHeaders(size: map<nat, nat>, h: Heap, base: nat, t: nat, li: nat, size': map<nat, nat>)
    requires HeapOk(h, base) && li < |h.live| && t < |h.ring| && Headers(size, h.live)
    requires forall a :: a in size && a != h.live[li].start && a != h.ring[t].start ==>
      a in size' && size'[a] == size[a]
    requires h.ring[t].size == 0 && h.ring[t].start in size ==>
      h.ring[t].start in size' && size'[h.ring[t].start] == size[h.ring[t].start]
    ensures Headers(size', Remove(h.live, li))
  {
    var live' := Remove(h.live, li);
    forall j | 0 <= j < |live'| ensures HeaderAt(size', live', j) {
      var m := if j < li then j else j + 1;
      assert HeaderAt(size, h.live, m) && LiveApart(h.live, m, li) && FreeApart(h.ring, h.live, t, m);
    }
  }
}
