/** What the bits, the hand and the time stamps of sc and esc mean, in terms of the references
    that the frames have served. */
module PolicyMarks {
  import opened Common
  import opened Paging
  import opened Belady
  import opened Recency
  import opened Policies

  /** Frame `k` holds the page of reference `j` once that was served. */
  ghost predicate ServedBy(pages: seq<int>, n: nat, vs: seq<nat>, j: nat, k: nat)
    requires Choices(n, vs, |pages|) && j < |pages|
  {
    k < |At([], n, pages, vs, j + 1)| && At([], n, pages, vs, j + 1)[k] == pages[j]
  }

  /** Reference `j` is to a page that is in no frame. */
  ghost predicate Faults(pages: seq<int>, n: nat, vs: seq<nat>, j: nat)
    requires Choices(n, vs, |pages|) && j < |pages|
  {
    pages[j] !in At([], n, pages, vs, j)
  }

  /** Reference `j` needs a victim. */
  ghost predicate Replaces(pages: seq<int>, n: nat, vs: seq<nat>, j: nat)
    requires Choices(n, vs, |pages|) && j < |pages|
  {
    Faults(pages, n, vs, j) && |At([], n, pages, vs, j)| == n
  }

  /** The frame that serves a reference: the one that has the page, the first one that is
      empty, or the victim. */
  lemma ServerIs(pages: seq<int>, n: nat, vs: seq<nat>, i: nat, k: nat)
    requires Choices(n, vs, |pages|) && i < |pages|
    ensures var f := At([], n, pages, vs, i);
      ServedBy(pages, n, vs, i, k) <==>
        k == if pages[i] in f then NextUse(f, pages[i]) else if |f| < n then |f| else vs[i]
  {
    AtStep([], n, pages, vs, i);
    AtValid(n, pages, vs, i);
  }

  // --------------------------------------------------------------- least frequently used

  /** Those of the first `i` references that frame `k` has served. */
  ghost function ServedTo(pages: seq<int>, n: nat, vs: seq<nat>, i: nat, k: nat): set<nat>
    requires Choices(n, vs, |pages|) && i <= |pages|
  {
    set j: nat | j < i && ServedBy(pages, n, vs, j, k)
  }

  lemma ServedStep(pages: seq<int>, n: nat, vs: seq<nat>, i: nat, k: nat)
    requires Choices(n, vs, |pages|) && i < |pages|
    ensures |ServedTo(pages, n, vs, i + 1, k)| ==
      |ServedTo(pages, n, vs, i, k)| + if ServedBy(pages, n, vs, i, k) then 1 else 0
  {
    var rest := ServedTo(pages, n, vs, i, k);
    assert ServedTo(pages, n, vs, i + 1, k) == if ServedBy(pages, n, vs, i, k) then rest + {i} else rest;
  }

  /** The counter of a frame is the number of references it has served. */
  lemma {:induction false} UsesMean(pages: seq<int>, n: nat, vs: seq<nat>, i: nat, k: nat)
    requires Choices(n, vs, |pages|) && i <= |pages|
    ensures Uses(pages, n, vs, i, k) == |ServedTo(pages, n, vs, i, k)|
  {
    if i > 0 {
      UsesMean(pages, n, vs, i - 1, k);
      ServedStep(pages, n, vs, i - 1, k);
    }
  }

  // ------------------------------------------------------------------ second chance

  /** Looking for the victim of reference `j`, the hand passed frame `k`. */
  ghost predicate HandPassed(pages: seq<int>, n: nat, vs: seq<nat>, j: nat, k: nat)
    requires n > 0 && Choices(n, vs, |pages|) && j < |pages|
  {
    var (bits, head) := Clock(pages, n, vs, j);
    Replaces(pages, n, vs, j) && exists e :: 0 <= e < Chances(bits, head, 0) && Walk(head, e, n) == k
  }

  /** Of the first `i` references frame `k` has served one since the hand last passed it. */
  ghost predicate UsedSincePassed(pages: seq<int>, n: nat, vs: seq<nat>, i: nat, k: nat)
    requires n > 0 && Choices(n, vs, |pages|) && i <= |pages|
  {
    exists j :: 0 <= j < i && UsedAt(pages, n, vs, i, k, j)
  }

  ghost predicate UsedAt(pages: seq<int>, n: nat, vs: seq<nat>, i: nat, k: nat, j: nat)
    requires n > 0 && Choices(n, vs, |pages|) && j < i <= |pages|
  {
    ServedBy(pages, n, vs, j, k) && forall m :: j < m < i ==> !HandPassed(pages, n, vs, m, k)
  }

  lemma UsedStep(pages: seq<int>, n: nat, vs: seq<nat>, i: nat, k: nat, i': nat)
    requires n > 0 && Choices(n, vs, |pages|) && i < |pages| && i' == i + 1
    ensures UsedSincePassed(pages, n, vs, i', k) <==>
      ServedBy(pages, n, vs, i, k) || (UsedSincePassed(pages, n, vs, i, k) && !HandPassed(pages, n, vs, i, k))
  {
    assert UsedAt(pages, n, vs, i', k, i) <==> ServedBy(pages, n, vs, i, k);
    if j :| 0 <= j < i' && UsedAt(pages, n, vs, i', k, j) {
      if j < i { UsedAtStep(pages, n, vs, i, k, j); }
    }
    if j :| 0 <= j < i && UsedAt(pages, n, vs, i, k, j) {
      UsedAtStep(pages, n, vs, i, k, j);
    }
  }

  lemma UsedAtStep(pages: seq<int>, n: nat, vs: seq<nat>, i: nat, k: nat, j: nat)
    requires n > 0 && Choices(n, vs, |pages|) && j < i < |pages|
    ensures UsedAt(pages, n, vs, i + 1, k, j) <==> UsedAt(pages, n, vs, i, k, j) && !HandPassed(pages, n, vs, i, k)
  {
  }

  /** How far frame `k` is in front of the hand. */
  lemma Distance(h: nat, n: nat, k: nat) returns (e: nat)
    requires h < n && k < n
    ensures e < n && Walk(h, e, n) == k && forall d :: 0 <= d < n && Walk(h, d, n) == k ==> d == e
  {
    e := if k >= h then k - h else k + n - h;
  }

  lemma BitStep(pages: seq<int>, n: nat, vs: seq<nat>, i: nat, k: nat)
    requires n > 0 && Choices(n, vs, |pages|) && i < |pages| && k < n && OutOfChances(n, pages, vs, i)
    ensures Clock(pages, n, vs, i + 1).0[k] ==
      if ServedBy(pages, n, vs, i, k) then 1
      else if HandPassed(pages, n, vs, i, k) then 0
      else Clock(pages, n, vs, i).0[k]
  {
    var (bits, head) := Clock(pages, n, vs, i);
    ServerIs(pages, n, vs, i, k);
    AtValid(n, pages, vs, i);
    if Replaces(pages, n, vs, i) {
      var e := Distance(head, n, k);
      assert Cleared(bits, head, Chances(bits, head, 0))[Walk(head, e, n)] ==
        if e < Chances(bits, head, 0) then 0 else bits[Walk(head, e, n)];
    }
  }

  /** The reference bit of a frame is set exactly if the frame has served a reference since the
      hand last passed it. */
  lemma {:induction false} BitMeans(pages: seq<int>, n: nat, vs: seq<nat>, i: nat, k: nat)
    requires n > 0 && Choices(n, vs, |pages|) && i <= |pages| && k < n
    requires forall j :: 0 <= j < i ==> OutOfChances(n, pages, vs, j)
    ensures Clock(pages, n, vs, i).0[k] == if UsedSincePassed(pages, n, vs, i, k) then 1 else 0
  {
    if i > 0 {
      BitMeans(pages, n, vs, i - 1, k);
      UsedStep(pages, n, vs, i - 1, k, i);
      BitStep(pages, n, vs, i - 1, k);
    }
  }

  /** A reference moves the hand from `h` to `h'`, with `c` and `c'` frames taken: a hit moves it
      on, loading into an empty frame does not, and a replacement puts it on the victim `v`. */
  ghost predicate Moves(n: nat, v: nat, h: nat, h': nat, c: nat, c': nat, hit: bool, full: bool) {
    && h < n && (full ==> !hit && c == n && h' == v < n) && (!full && !hit ==> c < n && h' == h)
    && (hit ==> h' == Walk(h, 1, n)) && c' == c + if hit || full then 0 else 1
  }

  lemma HandMoves(pages: seq<int>, n: nat, vs: seq<nat>, i: nat)
    requires n > 0 && Choices(n, vs, |pages|) && i < |pages| && OutOfChances(n, pages, vs, i)
    ensures Moves(n, vs[i], Clock(pages, n, vs, i).1, Clock(pages, n, vs, i + 1).1,
                  |At([], n, pages, vs, i)|, |At([], n, pages, vs, i + 1)|,
                  !Faults(pages, n, vs, i), Replaces(pages, n, vs, i))
  {
    AtStep([], n, pages, vs, i);
    AtValid(n, pages, vs, i);
  }

  /** Where the hand stands and how many frames are taken before and after every reference, and
      which references are hits and which replace a page. */
  datatype Hands = Hands(at: seq<nat>, taken: seq<nat>, hits: seq<bool>, full: seq<bool>)

  ghost predicate MovesAt(h: Hands, n: nat, vs: seq<nat>, i: nat)
    requires i < |vs| == |h.hits| == |h.full| && |h.at| == |h.taken| == |vs| + 1
  {
    Moves(n, vs[i], h.at[i], h.at[i+1], h.taken[i], h.taken[i+1], h.hits[i], h.full[i])
  }

  ghost predicate HandRun(h: Hands, n: nat, vs: seq<nat>) {
    && n > 0 && |vs| == |h.hits| == |h.full| && |h.at| == |h.taken| == |vs| + 1
    && h.at[0] == 0 && h.taken[0] == 0
    && forall i :: 0 <= i < |vs| ==> MovesAt(h, n, vs, i)
  }

  ghost function Positions(pages: seq<int>, n: nat, vs: seq<nat>): (at: seq<nat>)
    requires n > 0 && Choices(n, vs, |pages|)
    ensures |at| == |pages| + 1 && forall i :: 0 <= i <= |pages| ==> at[i] == Clock(pages, n, vs, i).1
  {
    seq(|pages| + 1, i requires 0 <= i <= |pages| => Clock(pages, n, vs, i).1)
  }

  ghost function Occupied(pages: seq<int>, n: nat, vs: seq<nat>): (c: seq<nat>)
    requires Choices(n, vs, |pages|)
    ensures |c| == |pages| + 1 && forall i :: 0 <= i <= |pages| ==> c[i] == |At([], n, pages, vs, i)|
  {
    seq(|pages| + 1, i requires 0 <= i <= |pages| => |At([], n, pages, vs, i)|)
  }

  ghost function Hits(pages: seq<int>, n: nat, vs: seq<nat>): (b: seq<bool>)
    requires Choices(n, vs, |pages|)
    ensures |b| == |pages| && forall i :: 0 <= i < |pages| ==> (b[i] <==> !Faults(pages, n, vs, i))
  {
    seq(|pages|, i requires 0 <= i < |pages| => !Faults(pages, n, vs, i))
  }

  ghost function Full(pages: seq<int>, n: nat, vs: seq<nat>): (b: seq<bool>)
    requires Choices(n, vs, |pages|)
    ensures |b| == |pages| && forall i :: 0 <= i < |pages| ==> (b[i] <==> Replaces(pages, n, vs, i))
  {
    seq(|pages|, i requires 0 <= i < |pages| => Replaces(pages, n, vs, i))
  }

  /** The hand of a run of sc. */
  ghost function HandsOf(pages: seq<int>, n: nat, vs: seq<nat>): Hands
    requires n > 0 && Choices(n, vs, |pages|)
  {
    Hands(Positions(pages, n, vs), Occupied(pages, n, vs), Hits(pages, n, vs), Full(pages, n, vs))
  }

  lemma HandsRun(pages: seq<int>, n: nat, vs: seq<nat>)
    requires n > 0 && Choices(n, vs, |pages|) && forall j :: 0 <= j < |pages| ==> OutOfChances(n, pages, vs, j)
    ensures HandRun(HandsOf(pages, n, vs), n, vs)
  {
    forall i | 0 <= i < |vs| ensures MovesAt(HandsOf(pages, n, vs), n, vs, i) { HandMoves(pages, n, vs, i); }
  }

  /** Before the first replacement the hand has moved on once for every hit: for every reference
      that has taken no frame. */
  lemma {:induction false} HandAtFirst(h: Hands, n: nat, vs: seq<nat>, i: nat)
    requires HandRun(h, n, vs) && i <= |vs| && forall j :: 0 <= j < i ==> !h.full[j]
    ensures h.taken[i] <= i && h.at[i] == Turn(i - h.taken[i], n)
  {
    if i > 0 {
      HandAtFirst(h, n, vs, i - 1);
      assert MovesAt(h, n, vs, i - 1);
    }
  }

  lemma {:induction false} TurnBelow(v: nat, n: nat)
    requires v < n
    ensures Turn(v, n) == v
  {
    if v > 0 { TurnBelow(v - 1, n); }
  }

  /** After a replacement it stands on the victim, and moves on with every reference up to the
      next one. */
  lemma {:induction false} HandAfter(h: Hands, n: nat, vs: seq<nat>, j: nat, i: nat)
    requires HandRun(h, n, vs) && j < i <= |vs| && h.full[j] && forall m :: j < m < i ==> !h.full[m]
    ensures h.taken[i] == n && h.at[i] == Turn(vs[j] + (i - j - 1), n)
  {
    assert MovesAt(h, n, vs, i - 1);
    if i == j + 1 {
      TurnBelow(vs[j], n);
    } else {
      HandAfter(h, n, vs, j, i - 1);
    }
  }

  // ---------------------------------------------------------- enhanced second chance

  /** Frame `q` serves reference `i`. */
  lemma MarksNext(refs: seq<Ref>, n: nat, vs: seq<nat>, i: nat) returns (q: nat)
    requires Choices(n, vs, |refs|) && i < |refs| && n > 0
    ensures q < n && forall k :: ServedBy(Pages(refs), n, vs, i, k) <==> k == q
    ensures MarksAt(refs, n, vs, i + 1) ==
      Marked(MarksAt(refs, n, vs, i), q, !Faults(Pages(refs), n, vs, i), refs[i].rw, i + 1)
  {
    var f, f' := At([], n, Pages(refs), vs, i), At([], n, Pages(refs), vs, i + 1);
    AtStep([], n, Pages(refs), vs, i);
    AtValid(n, Pages(refs), vs, i);
    q := if refs[i].data in f then NextUse(f, refs[i].data) else if |f| < n then |f| else vs[i];
    forall k: nat ensures ServedBy(Pages(refs), n, vs, i, k) <==> k == q { ServerIs(Pages(refs), n, vs, i, k); }
    assert ServedBy(Pages(refs), n, vs, i, q);
    assert NextUse(f', refs[i].data) == q;
  }

  /** The marks before and after every reference, the frame that serves it, and whether it is a
      fault. */
  datatype Served = Served(marks: seq<Marks>, frame: seq<nat>, fault: seq<bool>)

  ghost predicate ServeMarks(t: Served, n: nat, refs: seq<Ref>, i: nat)
    requires i < |refs| == |t.frame| == |t.fault| && |t.marks| == |refs| + 1
  {
    var m := t.marks[i];
    && |m.r| == |m.w| == |m.stamps| == n && t.frame[i] < n
    && t.marks[i+1] == Marked(m, t.frame[i], !t.fault[i], refs[i].rw, i + 1)
  }

  ghost predicate ServedRun(t: Served, n: nat, refs: seq<Ref>) {
    && |refs| == |t.frame| == |t.fault| && |t.marks| == |refs| + 1
    && forall i :: 0 <= i < |refs| ==> ServeMarks(t, n, refs, i)
  }

  ghost predicate ServesAt(refs: seq<Ref>, n: nat, vs: seq<nat>, i: nat, q: nat)
    requires Choices(n, vs, |refs|) && i < |refs|
  {
    && q < n && (forall k :: ServedBy(Pages(refs), n, vs, i, k) <==> k == q)
    && MarksAt(refs, n, vs, i + 1) ==
         Marked(MarksAt(refs, n, vs, i), q, !Faults(Pages(refs), n, vs, i), refs[i].rw, i + 1)
  }

  /** The marks of a run of esc. */
  lemma MarksOf(refs: seq<Ref>, n: nat, vs: seq<nat>) returns (t: Served)
    requires n > 0 && Choices(n, vs, |refs|)
    ensures ServedRun(t, n, refs) && forall i :: 0 <= i <= |refs| ==> t.marks[i] == MarksAt(refs, n, vs, i)
    ensures forall i :: 0 <= i < |refs| ==> ServesAt(refs, n, vs, i, t.frame[i])
    ensures forall i :: 0 <= i < |refs| ==> (t.fault[i] <==> Faults(Pages(refs), n, vs, i))
  {
    var frame := ServersOf(refs, n, vs, |refs|);
    t := Served(seq(|refs| + 1, i requires 0 <= i <= |refs| => MarksAt(refs, n, vs, i)), frame,
                seq(|refs|, i requires 0 <= i < |refs| => Faults(Pages(refs), n, vs, i)));
    forall i | 0 <= i < |refs| ensures ServeMarks(t, n, refs, i) { assert ServesAt(refs, n, vs, i, frame[i]); }
  }

  lemma {:induction false} ServersOf(refs: seq<Ref>, n: nat, vs: seq<nat>, m: nat) returns (frame: seq<nat>)
    requires n > 0 && Choices(n, vs, |refs|) && m <= |refs|
    ensures |frame| == m && forall i :: 0 <= i < m ==> ServesAt(refs, n, vs, i, frame[i])
  {
    frame := [];
    if m > 0 {
      frame := ServersOf(refs, n, vs, m - 1);
      var q := MarksNext(refs, n, vs, m - 1);
      assert ServesAt(refs, n, vs, m - 1, q);
      frame := frame + [q];
    }
  }

  /** The time stamp of a frame is that of the last reference it has served. */
  lemma {:induction false} StampMeans(t: Served, n: nat, refs: seq<Ref>, j: nat, i: nat, k: nat)
    requires ServedRun(t, n, refs) && j < i <= |refs| && k < n && t.frame[j] == k
    requires forall m :: j < m < i ==> t.frame[m] != k
    ensures |t.marks[i].stamps| == n && t.marks[i].stamps[k] == j + 1
  {
    assert ServeMarks(t, n, refs, j) && ServeMarks(t, n, refs, i - 1);
    if i > j + 1 { StampMeans(t, n, refs, j, i - 1, k); }
  }

  /** The read bit of a frame is set exactly if its page was loaded for reading; the write bit
      exactly if it was loaded for writing or has been hit since. */
  lemma {:induction false} MarksMean(t: Served, n: nat, refs: seq<Ref>, j: nat, i: nat, k: nat)
    requires ServedRun(t, n, refs) && j < i <= |refs| && k < n && t.frame[j] == k && t.fault[j]
    requires forall m :: j < m < i && t.frame[m] == k ==> !t.fault[m]
    ensures var m := t.marks[i];
      && |m.r| == |m.w| == n && m.r[k] == (if refs[j].rw == 0 then 1 else 0)
      && m.w[k] == if refs[j].rw != 0 || k in t.frame[j+1..i] then 1 else 0
  {
    assert ServeMarks(t, n, refs, i - 1);
    if i > j + 1 {
      MarksMean(t, n, refs, j, i - 1, k);
      assert t.frame[j+1..i] == t.frame[j+1..i-1] + [t.frame[i-1]];
    }
  }
}
