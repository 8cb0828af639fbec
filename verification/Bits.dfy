/** Bytes as bits: the masks with which balloc and bfree work. */
module Bits {
  import opened Common

  /** 1 << k. */
  function Mask(k: nat): (m: nat)
    ensures m > 0
  {
    if k == 0 then 1 else 2 * Mask(k - 1)
  }

  /** x & y. */
  function And(x: nat, y: nat): (z: nat)
    ensures z <= x
  {
    if x == 0 then 0 else 2 * And(x / 2, y / 2) + if x % 2 == 1 && y % 2 == 1 then 1 else 0
  }

  /** x | y. */
  function Or(x: nat, y: nat): nat
    decreases x + y
  {
    if x == 0 then y else 2 * Or(x / 2, y / 2) + if x % 2 + y % 2 > 0 then 1 else 0
  }

  /** Bit `j` of x. */
  ghost function Bit(x: nat, j: nat): bool {
    if j == 0 then x % 2 == 1 else Bit(x / 2, j - 1)
  }

  lemma {:induction false} AndBit(x: nat, y: nat, j: nat)
    ensures Bit(And(x, y), j) == (Bit(x, j) && Bit(y, j))
    decreases j
  {
    if x == 0 { NoBits(j); } else if j > 0 { AndBit(x / 2, y / 2, j - 1); }
  }

  lemma {:induction false} NoBits(j: nat)
    ensures !Bit(0, j)
  {
    if j > 0 { NoBits(j - 1); }
  }

  lemma {:induction false} OrBit(x: nat, y: nat, j: nat)
    ensures Bit(Or(x, y), j) == (Bit(x, j) || Bit(y, j))
    decreases j
  {
    if x == 0 { NoBits(j); } else if j > 0 { OrBit(x / 2, y / 2, j - 1); }
  }

  lemma {:induction false} MaskBit(k: nat, j: nat)
    ensures Bit(Mask(k), j) == (j == k)
  {
    if k == 0 {
      if j > 0 { NoBits(j - 1); }
    } else if j > 0 {
      MaskBit(k - 1, j - 1);
    }
  }

  /** ~x among the lower `n` bits. */
  lemma {:induction false} NotBit(n: nat, x: nat, j: nat)
    requires x < Mask(n) && j < n
    ensures Bit(Mask(n) - 1 - x, j) == !Bit(x, j)
  {
    if j > 0 {
      assert (Mask(n) - 1 - x) / 2 == Mask(n - 1) - 1 - x / 2;
      NotBit(n - 1, x / 2, j - 1);
    }
  }

  lemma {:induction false} AndNone(x: nat)
    ensures And(x, 0) == 0
  {
    if x > 0 { AndNone(x / 2); }
  }

  lemma {:induction false} AndMask(x: nat, k: nat)
    ensures And(x, Mask(k)) == if Bit(x, k) then Mask(k) else 0
    decreases k
  {
    if x == 0 {
      NoBits(k);
    } else if k == 0 {
      AndNone(x / 2);
    } else {
      AndMask(x / 2, k - 1);
    }
  }

  lemma {:induction false} OrBound(n: nat, x: nat, y: nat)
    requires x < Mask(n) && y < Mask(n)
    ensures Or(x, y) < Mask(n)
  {
    if n > 0 && x > 0 { OrBound(n - 1, x / 2, y / 2); }
  }

  lemma {:induction false} MaskBound(k: nat, n: nat)
    requires k < n
    ensures Mask(k) < Mask(n)
  {
    if k > 0 {
      MaskBound(k - 1, n - 1);
    } else if n > 1 {
      MaskBound(0, n - 1);
    }
  }

  lemma ByteMask(k: nat)
    requires k < 8
    ensures Mask(8) == 256 && Mask(k) < 256
  {
    assert Mask(4) == 16;
    MaskBound(k, 8);
  }

  // ------------------------------------------------------- one bit of a byte

  predicate HasBit(x: Byte, k: nat) {
    And(x, Mask(k)) != 0
  }

  function WithBit(x: Byte, k: nat): Byte
    requires k < 8
  {
    ByteMask(k);
    OrBound(8, x, Mask(k));
    Or(x, Mask(k))
  }

  function WithoutBit(x: Byte, k: nat): Byte
    requires k < 8
  {
    ByteMask(k);
    And(x, 255 - Mask(k))
  }

  lemma ByteBits(x: Byte, k: nat, j: nat)
    requires k < 8 && j < 8
    ensures HasBit(WithBit(x, k), j) == (j == k || HasBit(x, j))
    ensures HasBit(WithoutBit(x, k), j) == (j != k && HasBit(x, j))
  {
    ByteMask(k);
    AndMask(x, j);
    AndMask(WithBit(x, k), j);
    AndMask(WithoutBit(x, k), j);
    OrBit(x, Mask(k), j);
    AndBit(x, 255 - Mask(k), j);
    NotBit(8, Mask(k), j);
    MaskBit(k, j);
  }
}
