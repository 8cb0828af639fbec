/** What several parts of the model share. */
module Common {

  /** Machine words of 32 bits wrap around here. */
  const WORD := 0x1_0000_0000

  /** From param.h: blocks an operation may log, blocks a transaction may hold, buffers. */
  const MAXOPBLOCKS := 10
  const LOGSIZE := 30
  const NBUF := 30

  type Byte = x: int | 0 <= x < 256

  datatype Option<T> = None | Some(value: T)

  ghost predicate Distinct<T>(s: seq<T>) {
    forall i, j :: 0 <= i < j < |s| ==> s[i] != s[j]
  }

  /** A place of `x` in `s`. */
  ghost function IndexOf<T>(s: seq<T>, x: T): (k: nat)
    requires x in s
    ensures k < |s| && s[k] == x
  {
    var k :| 0 <= k < |s| && s[k] == x;
    k
  }

  // ------------------------------------------------------------------- finite sets

  ghost function SetOf<T>(s: seq<T>): set<T> { set x | x in s }

  lemma {:induction false} DistinctCard<T>(s: seq<T>)
    requires Distinct(s)
    ensures |SetOf(s)| == |s|
  {
    if s != [] {
      var m := |s| - 1;
      DistinctCard(s[..m]);
      assert s == s[..m] + [s[m]];
      assert SetOf(s) == SetOf(s[..m]) + {s[m]};
    }
  }

  lemma {:induction false} SetSmall<T>(s: seq<T>)
    ensures |SetOf(s)| <= |s|
  {
    if s != [] {
      var m := |s| - 1;
      SetSmall(s[..m]);
      assert s == s[..m] + [s[m]];
      assert SetOf(s) == SetOf(s[..m]) + {s[m]};
    }
  }

  ghost predicate Between(a: int, x: int, b: int) { a <= x < b }

  ghost function Range(a: nat, b: nat): set<nat> {
    set x: nat | x < b && Between(a, x, b)
  }

  lemma {:induction false} RangeSize(a: nat, b: nat)
    ensures |Range(a, b)| == if a <= b then b - a else 0
    decreases b
  {
    if b <= a {
      assert Range(a, b) == {};
    } else {
      RangeSize(a, b - 1);
      assert Range(a, b) == Range(a, b - 1) + {b - 1};
    }
  }

  lemma SubsetSize<T>(a: set<T>, b: set<T>)
    requires a <= b
    ensures |a| <= |b|
  {
    assert b == a + (b - a);
  }

  lemma UnionSize<T>(a: set<T>, b: set<T>)
    ensures |a + b| <= |a| + |b|
  {
    assert a + b == a + (b - a);
    SubsetSize(b - a, b);
  }

  /** The elements of a set, each of them once. */
  lemma {:induction false} SetToSeq<T>(a: set<T>) returns (s: seq<T>)
    ensures Distinct(s) && SetOf(s) == a && |s| == |a|
  {
    if a == {} {
      s := [];
    } else {
      var x :| x in a;
      var r := SetToSeq(a - {x});
      s := r + [x];
      assert x !in SetOf(r);
      assert SetOf(s) == SetOf(r) + {x};
    }
  }
}
