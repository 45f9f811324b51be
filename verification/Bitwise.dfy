/** Bitwise operations on unbounded natural numbers, and how they split at a
    bit position. */
module Bitwise {
  import opened Bits

  datatype Logic = And | Or | Xor

  function Bit(op: Logic, x: nat, y: nat): (b: nat)
    requires x < 2 && y < 2
    ensures b < 2
  {
    match op
    case And => if x + y == 2 then 1 else 0
    case Or => if x + y == 0 then 0 else 1
    case Xor => if x == y then 0 else 1
  }

  function Apply(op: Logic, a: nat, b: nat): nat
    decreases a + b
  {
    if a == 0 && b == 0 then 0
    else 2 * Apply(op, a / 2, b / 2) + Bit(op, a % 2, b % 2)
  }

  lemma ApplyStep(op: Logic, a: nat, b: nat)
    ensures Apply(op, a, b) == 2 * Apply(op, a / 2, b / 2) + Bit(op, a % 2, b % 2)
  {
  }

  lemma ShrNatural(a: nat, k: nat)
    ensures 0 <= Shr(a, k)
  {
    QuotientNonNegative(a, Pow2(k));
  }

  /** Shifting and wrapping at bit k of a number, from its half. */
  lemma Halving(a: nat, k: nat)
    requires 0 < k
    ensures Shr(a, k) == Shr(a / 2, k - 1)
    ensures Wrap(a, k) / 2 == Wrap(a / 2, k - 1) && Wrap(a, k) % 2 == a % 2
  {
    var q := Pow2(k - 1);
    assert Pow2(k) == 2 * q;
    hide Pow2;
    DivDiv(a, 2, q);
    ModProduct(a, 2, q);
    DivMod(a / 2, q);
  }

  /** A bitwise operation works on the high and the low part separately. */
  lemma {:induction false} ApplySplit(op: Logic, a: nat, b: nat, k: nat)
    ensures 0 <= Shr(a, k) && 0 <= Shr(b, k)
    ensures Apply(op, a, b) == Apply(op, Shr(a, k), Shr(b, k)) * Pow2(k) + Apply(op, Wrap(a, k), Wrap(b, k))
    ensures IsWord(Apply(op, Wrap(a, k), Wrap(b, k)), k)
    decreases k
  {
    ShrNatural(a, k);
    ShrNatural(b, k);
    if k != 0 {
      var q := Pow2(k - 1);
      assert Pow2(k) == 2 * q;
      hide Apply, Pow2, Bit, Shr, Wrap;
      ApplySplit(op, a / 2, b / 2, k - 1);
      Halving(a, k);
      Halving(b, k);
      ApplyStep(op, a, b);
      ApplyStep(op, Wrap(a, k), Wrap(b, k));
      SplitStep(Apply(op, Shr(a, k), Shr(b, k)), q);
    }
  }

  lemma SplitStep(high: int, q: int)
    ensures high * (2 * q) == 2 * (high * q)
  {
  }

  /** The low k bits of the result come from the low k bits of the operands. */
  lemma ApplyLowBits(op: Logic, a: nat, b: nat, k: nat)
    ensures Wrap(Apply(op, a, b), k) == Apply(op, Wrap(a, k), Wrap(b, k))
  {
    hide Apply;
    ApplySplit(op, a, b, k);
    var low := Apply(op, Wrap(a, k), Wrap(b, k));
    Parts(Apply(op, Shr(a, k), Shr(b, k)), low, k);
  }

  lemma ApplyWord(op: Logic, a: nat, b: nat, k: nat)
    requires IsWord(a, k) && IsWord(b, k)
    ensures IsWord(Apply(op, a, b), k)
  {
    hide Apply;
    ApplySplit(op, a, b, k);
    WrapSmall(a, k, k);
    WrapSmall(b, k, k);
  }

  lemma {:induction false} ApplyZero(op: Logic, a: nat)
    ensures Apply(op, a, 0) == if op.And? then 0 else a
    ensures Apply(op, 0, a) == if op.And? then 0 else a
  {
    if a != 0 { ApplyZero(op, a / 2); }
  }

  lemma WrapNothing(a: nat)
    ensures Wrap(a, 0) == 0
  {
  }

  lemma {:induction false} AndOnes(a: nat, k: nat)
    ensures Apply(And, a, Pow2(k) - 1) == Wrap(a, k)
    decreases k
  {
    hide Apply, Wrap;
    if k == 0 {
      ApplyZero(And, a);
      WrapNothing(a);
    } else {
      var q := Pow2(k - 1);
      assert Pow2(k) == 2 * q;
      hide Pow2;
      assert (2 * q - 1) / 2 == q - 1 && (2 * q - 1) % 2 == 1;
      AndOnes(a / 2, k - 1);
      Halving(a, k);
      ApplyStep(And, a, 2 * q - 1);
    }
  }

  /** The two parts of a number below and above bit k. */
  lemma Parts(high: nat, low: nat, k: nat)
    requires low < Pow2(k)
    ensures 0 <= high * Pow2(k)
    ensures (high * Pow2(k) + low) / Pow2(k) == high
    ensures (high * Pow2(k) + low) % Pow2(k) == low
  {
    MulLe(0, high, Pow2(k));
    DivAddMultiple(low, high, Pow2(k));
    ModSmall(low, Pow2(k));
  }

  /** The operation on two numbers given by their parts. */
  lemma ApplyParts(op: Logic, ah: nat, al: nat, bh: nat, bl: nat, k: nat)
    requires al < Pow2(k) && bl < Pow2(k)
    ensures 0 <= ah * Pow2(k) && 0 <= bh * Pow2(k)
    ensures Apply(op, ah * Pow2(k) + al, bh * Pow2(k) + bl) == Apply(op, ah, bh) * Pow2(k) + Apply(op, al, bl)
  {
    hide Apply, Pow2;
    Parts(ah, al, k);
    Parts(bh, bl, k);
    ApplySplit(op, ah * Pow2(k) + al, bh * Pow2(k) + bl, k);
  }
}
