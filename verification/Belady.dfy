/** Belady's theorem: evicting the resident page whose next use is farthest
    away never costs more faults than any other choice of victims. */
module Belady {
  import opened Common
  import opened Paging

  /** Index of the first occurrence of `p`, or |s| when there is none. */
  ghost function NextUse(s: seq<int>, p: int): (j: nat)
    ensures j <= |s|
    ensures j < |s| ==> s[j] == p
    ensures forall k :: 0 <= k < j ==> s[k] != p
  {
    if s == [] || s[0] == p then 0 else 1 + NextUse(s[1..], p)
  }

  /** If a victim is needed, frame `v` holds a page used no sooner than any other resident page. */
  ghost predicate Farthest(frames: seq<int>, n: nat, p: int, future: seq<int>, v: nat) {
    |frames| == n && p !in frames ==>
      v < n && forall k :: 0 <= k < n ==> NextUse(future, frames[k]) <= NextUse(future, frames[v])
  }

  ghost predicate FarthestAt(frames: seq<int>, n: nat, pages: seq<int>, vs: seq<nat>, i: nat)
    requires Choices(n, vs, |pages|) && i < |pages|
  {
    Farthest(At(frames, n, pages, vs, i), n, pages[i], pages[i+1..], vs[i])
  }

  /** Every victim of the run is the page whose next use is farthest away. */
  ghost predicate FarthestFrom(frames: seq<int>, n: nat, pages: seq<int>, vs: seq<nat>)
    requires Choices(n, vs, |pages|)
  {
    forall i :: 0 <= i < |pages| ==> FarthestAt(frames, n, pages, vs, i)
  }

  /** `pages` can be served from the full set of frames `c` with at most `k` faults. */
  ghost predicate CanServe(pages: seq<int>, c: set<int>, k: nat)
    decreases |pages|
  {
    if pages == [] then true
    else if pages[0] in c then CanServe(pages[1..], c, k)
    else k > 0 && exists u :: u in c && CanServe(pages[1..], c - {u} + {pages[0]}, k - 1)
  }

  lemma {:induction false} CanServeMore(pages: seq<int>, c: set<int>, k: nat, k': nat)
    requires k <= k' && CanServe(pages, c, k)
    ensures CanServe(pages, c, k')
  {
    if pages == [] {
    } else if pages[0] in c {
      CanServeMore(pages[1..], c, k, k');
    } else {
      var u :| u in c && CanServe(pages[1..], c - {u} + {pages[0]}, k - 1);
      CanServeMore(pages[1..], c - {u} + {pages[0]}, k - 1, k' - 1);
    }
  }

  /** Holding `x` in place of `y` costs at most one fault more. */
  lemma {:induction false} Replace(pages: seq<int>, s: set<int>, x: int, y: int, k: nat)
    requires x !in s && y !in s && CanServe(pages, s + {y}, k)
    ensures CanServe(pages, s + {x}, k + 1)
  {
    if x == y || pages == [] {
      CanServeMore(pages, s + {y}, k, k + 1);
      return;
    }
    var r, rest := pages[0], pages[1..];
    if r in s {
      Replace(rest, s, x, y, k);
    } else if r == y {
      assert s + {x} - {x} + {r} == s + {y};
    } else {
      var u :| u in s + {y} && CanServe(rest, s + {y} - {u} + {r}, k - 1);
      if r == x {
        if u == y {
          assert s + {y} - {u} + {r} == s + {x};
          CanServeMore(rest, s + {x}, k - 1, k + 1);
        } else {
          assert s + {y} - {u} + {r} == (s - {u} + {x}) + {y};
          Replace(rest, s - {u} + {x}, u, y, k - 1);
          assert (s - {u} + {x}) + {u} == s + {x};
          CanServeMore(rest, s + {x}, k, k + 1);
        }
      } else if u == y {
        assert s + {y} - {u} + {r} == s + {x} - {x} + {r};
        CanServeMore(rest, s + {x} - {x} + {r}, k - 1, k);
      } else {
        assert s + {y} - {u} + {r} == (s - {u} + {r}) + {y};
        Replace(rest, s - {u} + {r}, x, y, k - 1);
        assert (s - {u} + {r}) + {x} == s + {x} - {u} + {r};
      }
    }
  }

  /** The exchange argument: holding the page that is used sooner is at least as good. */
  lemma {:induction false} Exchange(pages: seq<int>, s: set<int>, a: int, b: int, k: nat)
    requires a !in s && b !in s && NextUse(pages, a) <= NextUse(pages, b)
    requires CanServe(pages, s + {b}, k)
    ensures CanServe(pages, s + {a}, k)
  {
    if a == b || pages == [] { return; }
    var r, rest := pages[0], pages[1..];
    if r in s {
      Exchange(rest, s, a, b, k);
    } else {
      assert r != b;
      var u :| u in s + {b} && CanServe(rest, s + {b} - {u} + {r}, k - 1);
      if r == a {
        if u == b {
          assert s + {b} - {u} + {r} == s + {a};
          CanServeMore(rest, s + {a}, k - 1, k);
        } else {
          assert s + {b} - {u} + {r} == (s - {u} + {a}) + {b};
          Replace(rest, s - {u} + {a}, u, b, k - 1);
          assert (s - {u} + {a}) + {u} == s + {a};
        }
      } else if u == b {
        assert s + {b} - {u} + {r} == s + {a} - {a} + {r};
      } else {
        assert s + {b} - {u} + {r} == (s - {u} + {r}) + {b};
        Exchange(rest, s - {u} + {r}, a, b, k - 1);
        assert (s - {u} + {r}) + {a} == s + {a} - {u} + {r};
      }
    }
  }

  lemma ServeSet(frames: seq<int>, n: nat, p: int, v: nat)
    requires v < n == |frames| && Distinct(frames) && p !in frames
    ensures SetOf(Serve(frames, n, p, v)) == SetOf(frames) - {frames[v]} + {p}
    ensures Distinct(Serve(frames, n, p, v)) && |Serve(frames, n, p, v)| == n
  {
    var f := frames[v := p];
    forall x ensures x in f <==> x in SetOf(frames) - {frames[v]} + {p} {
      if x in frames && x != frames[v] {
        var k :| 0 <= k < |frames| && frames[k] == x;
        assert f[k] == x;
      }
      assert f[v] == p;
    }
  }

  /** Any run from full frames is a witness that its own number of faults suffices. */
  lemma {:induction false} RunCanServe(frames: seq<int>, n: nat, pages: seq<int>, vs: seq<nat>)
    requires Choices(n, vs, |pages|) && |frames| == n && Distinct(frames)
    ensures CanServe(pages, SetOf(frames), Cost(frames, n, pages, vs))
    decreases |pages|
  {
    if pages != [] {
      var next := Serve(frames, n, pages[0], vs[0]);
      if pages[0] in frames {
        RunCanServe(frames, n, pages[1..], vs[1..]);
      } else {
        ServeSet(frames, n, pages[0], vs[0]);
        RunCanServe(next, n, pages[1..], vs[1..]);
        var u, c := frames[vs[0]], SetOf(frames);
        assert u in c && CanServe(pages[1..], c - {u} + {pages[0]}, Cost(next, n, pages[1..], vs[1..]));
      }
    }
  }

  lemma FarthestTail(frames: seq<int>, n: nat, pages: seq<int>, vs: seq<nat>)
    requires Choices(n, vs, |pages|) && pages != [] && FarthestFrom(frames, n, pages, vs)
    ensures FarthestFrom(Serve(frames, n, pages[0], vs[0]), n, pages[1..], vs[1..])
  {
    var next := Serve(frames, n, pages[0], vs[0]);
    forall i | 0 <= i < |pages[1..]|
      ensures FarthestAt(next, n, pages[1..], vs[1..], i)
    {
      assert FarthestAt(frames, n, pages, vs, i + 1);
      AtTail(frames, n, pages, vs, i);
      assert pages[1..][i+1..] == pages[i+2..];
    }
  }

  lemma FarthestHead(frames: seq<int>, n: nat, pages: seq<int>, vs: seq<nat>)
    requires Choices(n, vs, |pages|) && pages != [] && FarthestFrom(frames, n, pages, vs)
    requires |frames| == n && pages[0] !in frames
    ensures frames[vs[0]] in SetOf(frames)
    ensures forall u :: u in SetOf(frames) ==> NextUse(pages[1..], u) <= NextUse(pages[1..], frames[vs[0]])
  {
    assert FarthestAt(frames, n, pages, vs, 0);
    assert At(frames, n, pages, vs, 0) == frames;
  }

  /** Evicting the page used farthest away keeps every feasible number of faults feasible. */
  lemma BestVictim(c: set<int>, p: int, rest: seq<int>, f: int, k: nat)
    requires p !in c && f in c && CanServe([p] + rest, c, k)
    requires forall u :: u in c ==> NextUse(rest, u) <= NextUse(rest, f)
    ensures k > 0 && CanServe(rest, c - {f} + {p}, k - 1)
  {
    assert ([p] + rest)[1..] == rest;
    var u :| u in c && CanServe(rest, c - {u} + {p}, k - 1);
    if u != f {
      var s := c - {u, f} + {p};
      assert c - {u} + {p} == s + {f} && c - {f} + {p} == s + {u};
      Exchange(rest, s, u, f, k - 1);
    }
  }

  /** From full frames, farthest-next-use reaches every feasible number of faults. */
  lemma {:induction false} FarthestIsLeast(frames: seq<int>, n: nat, pages: seq<int>, vs: seq<nat>, k: nat)
    requires Choices(n, vs, |pages|) && |frames| == n && Distinct(frames)
    requires FarthestFrom(frames, n, pages, vs) && CanServe(pages, SetOf(frames), k)
    ensures Cost(frames, n, pages, vs) <= k
    decreases |pages|
  {
    if pages != [] {
      var p, rest, v := pages[0], pages[1..], vs[0];
      FarthestTail(frames, n, pages, vs);
      if p in frames {
        FarthestIsLeast(frames, n, rest, vs[1..], k);
      } else {
        FarthestHead(frames, n, pages, vs);
        assert pages == [p] + rest;
        BestVictim(SetOf(frames), p, rest, frames[v], k);
        ServeSet(frames, n, p, v);
        FarthestIsLeast(Serve(frames, n, p, v), n, rest, vs[1..], k - 1);
      }
    }
  }

  /** The same from any number of occupied frames: filling up is the same for every policy. */
  lemma {:induction false} OptimalFrom(frames: seq<int>, n: nat, pages: seq<int>, vs: seq<nat>, ws: seq<nat>)
    requires Choices(n, vs, |pages|) && Choices(n, ws, |pages|) && |frames| <= n && Distinct(frames)
    requires FarthestFrom(frames, n, pages, vs)
    ensures Cost(frames, n, pages, vs) <= Cost(frames, n, pages, ws)
    decreases |pages|
  {
    if |frames| == n {
      RunCanServe(frames, n, pages, ws);
      FarthestIsLeast(frames, n, pages, vs, Cost(frames, n, pages, ws));
    } else if pages != [] {
      FarthestTail(frames, n, pages, vs);
      var next := Serve(frames, n, pages[0], vs[0]);
      assert next == Serve(frames, n, pages[0], ws[0]);
      OptimalFrom(next, n, pages[1..], vs[1..], ws[1..]);
    }
  }

  /** Belady optimality, from empty frames, against every sequence of victims. */
  lemma BeladyOptimality(n: nat, pages: seq<int>, vs: seq<nat>, ws: seq<nat>)
    requires Choices(n, vs, |pages|) && FarthestFrom([], n, pages, vs)
    requires Choices(n, ws, |pages|)
    ensures Cost([], n, pages, vs) <= Cost([], n, pages, ws)
  {
    OptimalFrom([], n, pages, vs, ws);
  }

  /** The optimal run has no more than `faults` faults. */
  ghost predicate NotBeaten(n: nat, pages: seq<int>, faults: nat) {
    forall vs :: Choices(n, vs, |pages|) && FarthestFrom([], n, pages, vs) ==> Cost([], n, pages, vs) <= faults
  }

  /** Every run, of whatever policy, has at least the faults of the optimal one. */
  lemma NoRunBeatsOptimal(n: nat, pages: seq<int>, ws: seq<nat>)
    requires Choices(n, ws, |pages|)
    ensures NotBeaten(n, pages, Cost([], n, pages, ws))
  {
    forall vs | Choices(n, vs, |pages|) && FarthestFrom([], n, pages, vs)
      ensures Cost([], n, pages, vs) <= Cost([], n, pages, ws)
    {
      BeladyOptimality(n, pages, vs, ws);
    }
  }
}
