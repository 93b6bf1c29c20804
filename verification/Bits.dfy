/** Powers of two, and the single bits of a byte. */
module Bits {

  const UINT64 := 0x1_0000_0000_0000_0000

  function Exp2(k: nat): (r: nat)
    ensures r >= 1
  {
    if k == 0 then 1 else 2 * Exp2(k - 1)
  }

  lemma {:induction false} Exp2Add(a: nat, b: nat)
    ensures Exp2(a + b) == Exp2(a) * Exp2(b)
  {
    if a > 0 {
      Exp2Add(a - 1, b);
      MulTwo(Exp2(a - 1), Exp2(b));
    }
  }

  lemma MulTwo(x: nat, y: nat)
    ensures 2 * (x * y) == (2 * x) * y
  {
  }

  lemma {:induction false} Exp2Exceeds(k: nat)
    ensures Exp2(k) > k
  {
    if k > 0 {
      Exp2Exceeds(k - 1);
    }
  }

  /** x >> k */
  function ShiftRight(x: nat, k: nat): nat {
    if k == 0 then x else ShiftRight(x / 2, k - 1)
  }

  /** x << k, without overflow */
  function ShiftLeft(x: nat, k: nat): nat
    decreases k
  {
    if k == 0 then x else ShiftLeft(2 * x, k - 1)
  }

  lemma {:induction false} ShiftLeftLinear(x: nat, k: nat)
    ensures ShiftLeft(2 * x, k) == 2 * ShiftLeft(x, k)
    ensures ShiftLeft(x + 1, k) == ShiftLeft(x, k) + Exp2(k)
    ensures ShiftLeft(0, k) == 0
    decreases k
  {
    if k > 0 {
      ShiftLeftLinear(2 * x, k - 1);
      ShiftLeftLinear(2 * x + 1, k - 1);
      ShiftLeftLinear(0, k - 1);
    }
  }

  /** Shifting right divides: x >> k is the largest y with y << k at most x. */
  lemma {:induction false} ShiftRightExact(x: nat, k: nat, y: nat)
    ensures ShiftRight(x, k) >= y <==> x >= ShiftLeft(y, k)
  {
    if k > 0 {
      ShiftRightExact(x / 2, k - 1, y);
      ShiftLeftLinear(y, k - 1);
    }
  }

  /** The byte with only bit k set. */
  function Mask(k: nat): bv8
    requires k < 8
  {
    if k == 0 then 1 else if k == 1 then 2 else if k == 2 then 4 else if k == 3 then 8
    else if k == 4 then 16 else if k == 5 then 32 else if k == 6 then 64 else 128
  }

  predicate BitOf(b: bv8, k: nat)
    requires k < 8
  {
    b & Mask(k) != 0
  }

  lemma SetBit(b: bv8, j: nat, k: nat)
    requires j < 8 && k < 8
    ensures BitOf(b | Mask(j), k) == (BitOf(b, k) || j == k)
  {
    assert (b | Mask(j)) & Mask(k) == (b & Mask(k)) | (Mask(j) & Mask(k));
  }

  lemma NoBits(k: nat)
    requires k < 8
    ensures !BitOf(0, k)
  {
  }

  /** A byte is zero exactly if none of its bits is set. */
  lemma ZeroByte(b: bv8)
    ensures b == 0 <==> forall k :: 0 <= k < 8 ==> !BitOf(b, k)
  {
    if b != 0 {
      if b & 1 != 0 { assert BitOf(b, 0); }
      else if b & 2 != 0 { assert BitOf(b, 1); }
      else if b & 4 != 0 { assert BitOf(b, 2); }
      else if b & 8 != 0 { assert BitOf(b, 3); }
      else if b & 16 != 0 { assert BitOf(b, 4); }
      else if b & 32 != 0 { assert BitOf(b, 5); }
      else if b & 64 != 0 { assert BitOf(b, 6); }
      else { assert b & 128 != 0; assert BitOf(b, 7); }
    }
  }
}
