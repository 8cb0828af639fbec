/** The page-replacement simulator: what a run of demand paging is.

    A run is described by the reference string, the number of frames and one
    victim index per reference; the index is looked at only when the reference
    faults and every frame is taken. All seven policies are runs of this kind
    and differ only in how they choose victims.
 */
module Paging {
  import opened Common

  datatype Ref = Ref(data: int, rw: int)

  /** The marker stored in a frame that holds no page. */
  const EMPTY := -1

  function Pages(refs: seq<Ref>): (ps: seq<int>)
    ensures |ps| == |refs|
    ensures forall i :: 0 <= i < |refs| ==> ps[i] == refs[i].data
  {
    seq(|refs|, i requires 0 <= i < |refs| => refs[i].data)
  }

  /** `vs` names an existing frame for every reference. */
  ghost predicate Choices(n: nat, vs: seq<nat>, len: nat) {
    |vs| == len && forall i :: 0 <= i < |vs| ==> vs[i] < n
  }

  /** The occupied frames after page `p` was referenced. */
  function Serve(frames: seq<int>, n: nat, p: int, v: nat): seq<int>
    requires v < n
  {
    if p in frames then frames
    else if |frames| < n then frames + [p]
    else frames[v := p]
  }

  function Miss(frames: seq<int>, p: int): nat {
    if p in frames then 0 else 1
  }

  ghost function After(frames: seq<int>, n: nat, pages: seq<int>, vs: seq<nat>): seq<int>
    requires Choices(n, vs, |pages|)
    decreases |pages|
  {
    if pages == [] then frames
    else After(Serve(frames, n, pages[0], vs[0]), n, pages[1..], vs[1..])
  }

  ghost function Cost(frames: seq<int>, n: nat, pages: seq<int>, vs: seq<nat>): nat
    requires Choices(n, vs, |pages|)
    decreases |pages|
  {
    if pages == [] then 0
    else Miss(frames, pages[0]) + Cost(Serve(frames, n, pages[0], vs[0]), n, pages[1..], vs[1..])
  }

  /** The occupied frames once the first `i` references were served. */
  ghost function At(frames: seq<int>, n: nat, pages: seq<int>, vs: seq<nat>, i: nat): seq<int>
    requires Choices(n, vs, |pages|) && i <= |pages|
  {
    After(frames, n, pages[..i], vs[..i])
  }

  lemma {:induction false} Snoc(frames: seq<int>, n: nat, pages: seq<int>, vs: seq<nat>, p: int, v: nat)
    requires Choices(n, vs, |pages|) && v < n
    ensures After(frames, n, pages + [p], vs + [v]) == Serve(After(frames, n, pages, vs), n, p, v)
    ensures Cost(frames, n, pages + [p], vs + [v])
         == Cost(frames, n, pages, vs) + Miss(After(frames, n, pages, vs), p)
    decreases |pages|
  {
    if pages == [] {
      assert (pages + [p])[1..] == [] && (vs + [v])[1..] == [];
      assert After(Serve(frames, n, p, v), n, [], []) == Serve(frames, n, p, v);
    } else {
      assert (pages + [p])[1..] == pages[1..] + [p];
      assert (vs + [v])[1..] == vs[1..] + [v];
      Snoc(Serve(frames, n, pages[0], vs[0]), n, pages[1..], vs[1..], p, v);
    }
  }

  /** One more reference of the same run. */
  lemma AtStep(frames: seq<int>, n: nat, pages: seq<int>, vs: seq<nat>, i: nat)
    requires Choices(n, vs, |pages|) && i < |pages|
    ensures At(frames, n, pages, vs, i + 1) == Serve(At(frames, n, pages, vs, i), n, pages[i], vs[i])
    ensures Cost(frames, n, pages[..i+1], vs[..i+1])
         == Cost(frames, n, pages[..i], vs[..i]) + Miss(At(frames, n, pages, vs, i), pages[i])
  {
    assert pages[..i+1] == pages[..i] + [pages[i]];
    assert vs[..i+1] == vs[..i] + [vs[i]];
    Snoc(frames, n, pages[..i], vs[..i], pages[i], vs[i]);
  }

  lemma AtTail(frames: seq<int>, n: nat, pages: seq<int>, vs: seq<nat>, i: nat)
    requires Choices(n, vs, |pages|) && i < |pages|
    ensures At(frames, n, pages, vs, i + 1)
         == At(Serve(frames, n, pages[0], vs[0]), n, pages[1..], vs[1..], i)
  {
    assert pages[..i+1][1..] == pages[1..][..i];
    assert vs[..i+1][1..] == vs[1..][..i];
  }

  /** Every reachable set of frames holds distinct pages, at most `n` of them,
      and only pages that were referenced. */
  lemma {:induction false} AtValid(n: nat, pages: seq<int>, vs: seq<nat>, i: nat)
    requires Choices(n, vs, |pages|) && i <= |pages|
    ensures var f := At([], n, pages, vs, i);
      Distinct(f) && |f| <= n && forall k :: 0 <= k < |f| ==> f[k] in pages[..i]
  {
    if i > 0 {
      AtValid(n, pages, vs, i - 1);
      AtStep([], n, pages, vs, i - 1);
      assert pages[..i] == pages[..i-1] + [pages[i-1]];
    }
  }

  /** The array `page_frame` that holds `frames` in its first slots. */
  ghost predicate Holds(a: seq<int>, n: nat, frames: seq<int>) {
    |frames| <= n && |a| == n && a[..|frames|] == frames
    && forall i :: |frames| <= i < n ==> a[i] == EMPTY
  }
}
