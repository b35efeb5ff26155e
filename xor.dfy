/**
 * Swift's bitwise `^` on `Int`, used to combine hash values, as
 * two's-complement exclusive or on unbounded integers (the sign bit repeats
 * forever). `XorInt64` shows that operands within the 64-bit range give a
 * result within it, so no wrap-around needs modelling.
 */
module Bitwise {

  function Abs(x: int): nat {
    if x < 0 then -x else x
  }

  predicate SignOnly(x: int) {
    x == 0 || x == -1
  }

  /** Bitwise exclusive or, lowest bit first: the low bits differ exactly when the result is odd. */
  function Xor(x: int, y: int): (z: int)
    ensures z % 2 == (if x % 2 == y % 2 then 0 else 1)
    decreases Abs(x) + Abs(y)
  {
    if SignOnly(x) && SignOnly(y) then (if x == y then 0 else -1)
    else 2 * Xor(x / 2, y / 2) + (if x % 2 == y % 2 then 0 else 1)
  }

  function Pow2(k: nat): (p: int)
    ensures p >= 1
  {
    if k == 0 then 1 else 2 * Pow2(k - 1)
  }

  /** Two operands of k + 1 two's-complement bits give a result of k + 1 bits. */
  lemma {:induction false} XorInRange(x: int, y: int, k: nat)
    requires -Pow2(k) <= x < Pow2(k) && -Pow2(k) <= y < Pow2(k)
    ensures -Pow2(k) <= Xor(x, y) < Pow2(k)
    decreases k
  {
    if k == 0 {
      assert SignOnly(x) && SignOnly(y);
    } else if !(SignOnly(x) && SignOnly(y)) {
      XorInRange(x / 2, y / 2, k - 1);
    }
  }

  /** `^` on two 64-bit `Int` values stays a 64-bit `Int`. */
  lemma XorInt64(x: int, y: int)
    requires -Pow2(63) <= x < Pow2(63) && -Pow2(63) <= y < Pow2(63)
    ensures -Pow2(63) <= Xor(x, y) < Pow2(63)
  {
    XorInRange(x, y, 63);
  }

  /** The low bit of `Xor(x, y)` is the exclusive or of the low bits, and the rest is `Xor` of the rest. */
  lemma XorSplit(x: int, y: int)
    ensures Xor(x, y) / 2 == Xor(x / 2, y / 2)
    ensures Xor(x, y) % 2 == (if x % 2 == y % 2 then 0 else 1)
  {
  }

  /** An integer is determined by its low bit and the rest. */
  lemma BitsDetermine(a: int, b: int)
    requires a / 2 == b / 2 && a % 2 == b % 2
    ensures a == b
  {
  }

  lemma {:induction false} XorCommutes(x: int, y: int)
    ensures Xor(x, y) == Xor(y, x)
    decreases Abs(x) + Abs(y)
  {
    if !(SignOnly(x) && SignOnly(y)) {
      HalfShrinks(x);
      HalfShrinks(y);
      XorCommutes(x / 2, y / 2);
    }
  }

  lemma HalfShrinks(x: int)
    ensures Abs(x / 2) <= Abs(x)
    ensures !SignOnly(x) ==> Abs(x / 2) < Abs(x)
  {
  }

  lemma {:induction false} XorAssociates(x: int, y: int, z: int)
    ensures Xor(Xor(x, y), z) == Xor(x, Xor(y, z))
    decreases Abs(x) + Abs(y) + Abs(z)
  {
    if SignOnly(x) && SignOnly(y) && SignOnly(z) {
      assert SignOnly(Xor(x, y)) && SignOnly(Xor(y, z));
    } else {
      HalfShrinks(x);
      HalfShrinks(y);
      HalfShrinks(z);
      XorAssociates(x / 2, y / 2, z / 2);
      var l, r := Xor(Xor(x, y), z), Xor(x, Xor(y, z));
      XorSplit(Xor(x, y), z);
      XorSplit(x, y);
      XorSplit(x, Xor(y, z));
      XorSplit(y, z);
      assert l / 2 == r / 2;
      assert l % 2 == r % 2;
      BitsDetermine(l, r);
    }
  }

  lemma XorZero(x: int)
    ensures Xor(x, 0) == x && Xor(0, x) == x
    decreases Abs(x)
  {
    if !SignOnly(x) {
      HalfShrinks(x);
      XorZero(x / 2);
    }
  }
}
