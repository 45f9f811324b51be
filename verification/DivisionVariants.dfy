/** The arithmetic of every signed and add-correction root that the division
    matchers recognise, not only of the ones compilers emit, and the dividends
    on which each of them is the division that replaces it.  The notation is
    that of MagicDivision. */
module DivisionVariants {
  import opened Bits
  import opened MagicDivision

  // ----- the signed form: a quotient and a sign -------------------------------------

  /** What the signed matcher does not look at: the amount of a second arithmetic
      shift, the operand order of a subtraction, and whether the subtracted sign
      is 0/-1 or, from a logical shift, 0/1. */
  datatype SignedVariant = SignedVariant(secondShift: nat, swapped: bool, logicalSign: bool)

  const PLAIN := SignedVariant(0, false, false)

  /** What such a root computes. */
  function VariantForm(M: nat, K: nat, v: SignedVariant, x: int): int {
    var quotient := ShiftedProduct(x, M, K + v.secondShift);
    var sign := if 0 <= x then 0 else if v.logicalSign then -1 else 1;
    if v.swapped then -(quotient + sign) else quotient + sign
  }

  function Magnitude(x: int): nat {
    if x < 0 then -x else x
  }

  /** The product is a power of two and d divides the dividend: the floor of a
      negative quotient is then exact, and adding one overshoots. */
  predicate Overshoots(M: nat, K: nat, d: nat, x: int)
    requires 0 < d
  {
    x < 0 && M * d == Pow2(K) && Magnitude(x) % d == 0
  }

  /** The dividends on which the root equals the sdiv by the pattern d. */
  predicate VariantRight(M: nat, K: nat, W: nat, v: SignedVariant, d: nat, x: int)
    requires 0 < W && 0 < d < Pow2(W)
  {
    var n, m := Magnitude(x), Magnitude(ToSigned(d, W));
    if n < m then
      0 <= x || !v.logicalSign
    else if Pow2(W - 1) <= d then
      x < 0 && v.logicalSign && 2 * m <= n < 3 * m && (v.swapped || W == 2)
    else if v.swapped then
      false
    else if 0 <= x || !v.logicalSign then
      v.secondShift == 0 && !Overshoots(M, K, d, x)
    else if v.secondShift == 1 then
      3 <= n / d + (if Overshoots(M, K, d, x) then 1 else 0) <= 4
    else
      v.secondShift != 0 && n / d == 2
  }

  /** The floor of the product after both shifts. */
  lemma VariantFloor(M: nat, K: nat, L: nat, d: nat, s: nat, x: int)
    requires IsMagicFor(M, K, d) && ErrorFits(M, K, L, d) && -(Pow2(L) as int) <= x < Pow2(L)
    ensures 0 <= x ==> ShiftedProduct(x, M, K + s) == (x / d) / Pow2(s)
    ensures x < 0 ==> ShiftedProduct(x, M, K + s) == -(Steps(M, K, d, x) / Pow2(s)) - 1
  {
    TwoShifts(x * M, K, s);
    hide Pow2;
    if 0 <= x {
      UnsignedQuotient(M, K, L, d, x);
    } else {
      NegativeSteps(M, K, L, d, x);
      FloorOfComplement(Steps(M, K, d, x), Pow2(s));
    }
  }

  /** How many whole multiples of d the floor of a negative quotient has passed. */
  function Steps(M: nat, K: nat, d: nat, x: int): int
    requires 0 < d
  {
    Magnitude(x) / d - (if Overshoots(M, K, d, x) then 1 else 0)
  }

  lemma NegativeSteps(M: nat, K: nat, L: nat, d: nat, x: int)
    requires IsMagicFor(M, K, d) && ErrorFits(M, K, L, d) && -(Pow2(L) as int) <= x < 0
    ensures ShiftedProduct(x, M, K) == -Steps(M, K, d, x) - 1
  {
    hide Pow2;
    if M * d != Pow2(K) {
      NegativeQuotient(M, K, L, d, x);
    } else {
      ExactFloor(x, M, Pow2(K), d);
    }
  }

  /** Without a rounding error the floor of the product is that of x / d. */
  lemma ExactFloor(x: int, M: int, P: int, d: int)
    requires x < 0 && 0 < d && 0 < P && M * d == P
    ensures (x * M) / P == -((-x) / d) - (if (-x) % d == 0 then 0 else 1)
  {
    var q := -((-x) / d) - (if (-x) % d == 0 then 0 else 1);
    DivMod(-x, d);
    NegateFactor((-x) / d, d);
    MulDistrib(q, 1, d);
    MulDistrib(q + 1, -1, d);
    MulLe(q * d, x, P);
    MulLt(x, (q + 1) * d, P);
    ScaledFloor(x, M, P, d, 0, q);
  }

  lemma NegateFactor(a: int, b: int)
    ensures (-a) * b == -(a * b)
  {
  }

  lemma FloorOfComplement(a: int, p: int)
    requires 0 < p
    ensures (-a - 1) / p == -(a / p) - 1
  {
    DivMod(a, p);
    NegateFactor(a / p, p);
    MulDistrib(-(a / p), -1, p);
    DivUnique(-a - 1, p, -(a / p) - 1);
  }

  lemma ShiftedSteps(a: nat, s: nat)
    ensures s == 0 ==> a / Pow2(s) == a
    ensures s == 1 ==> a / Pow2(s) == a / 2
    ensures 2 <= s ==> 0 <= a / Pow2(s) && 4 * (a / Pow2(s)) <= a
  {
    assert Pow2(0) == 1 && Pow2(1) == 2;
    if 2 <= s {
      Pow2Le(2, s);
      assert Pow2(2) == 4;
      DivMod(a, Pow2(s));
      QuotientNonNegative(a, Pow2(s));
      MulLe(4, Pow2(s), a / Pow2(s));
    }
  }

  /** Patterns of numbers less than 2^w apart agree only when the numbers do. */
  lemma WrapDiffers(a: int, b: int, w: nat)
    requires -(Pow2(w) as int) < a - b < Pow2(w)
    ensures Wrap(a, w) == Wrap(b, w) <==> a == b
  {
    var p := Pow2(w);
    DivMod(a, p);
    DivMod(b, p);
    if a % p == b % p {
      assert a - b == (a / p - b / p) * p by { MulDistrib(a / p, -(b / p), p); }
      MulCancelLt(a / p - b / p, 1, p);
      MulCancelLt(-1, a / p - b / p, p);
    }
  }

  /** The value of a variant, for R = (number of whole steps) >> s. */
  function SignedSteps(v: SignedVariant, negative: bool, R: int): int {
    var r := if !negative then R else if v.logicalSign then -R - 2 else -R;
    if v.swapped then -r else r
  }

  lemma SmallDivisor(n: nat, Q: int, over: bool, R: int, H: nat, v: SignedVariant, negative: bool)
    requires 0 <= 3 * Q <= n <= H && 3 < H
    requires over ==> negative && 0 < Q
    requires var a := Q - (if over then 1 else 0); var s := v.secondShift;
             (s == 0 ==> R == a) && (s == 1 ==> R == a / 2) && (2 <= s ==> 0 <= R && 4 * R <= a)
    ensures var a, b := SignedSteps(v, negative, R), if negative then -Q else Q;
      && -2 * H < a - b < 2 * H
      && (a == b <==>
            if Q == 0 then !negative || !v.logicalSign
            else if v.swapped then false
            else if !negative || !v.logicalSign then v.secondShift == 0 && !over
            else if v.secondShift == 1 then 3 <= Q + (if over then 1 else 0) <= 4
            else v.secondShift != 0 && Q == 2)
  {
  }

  lemma LargeDivisor(n: nat, m: nat, W: nat, v: SignedVariant, negative: bool)
    requires 0 < m && 2 <= W && n <= Pow2(W - 1)
    ensures var a, b := SignedSteps(v, negative, 0), if negative then n / m else -(n / m);
      Wrap(a, W) == Wrap(b, W) <==>
        if n < m then !negative || !v.logicalSign
        else negative && v.logicalSign && 2 * m <= n < 3 * m && (v.swapped || W == 2)
  {
    var a, b := SignedSteps(v, negative, 0), if negative then n / m else -(n / m);
    assert Pow2(W) == 2 * Pow2(W - 1);
    Pow2Le(1, W - 1);
    assert Pow2(1) == 2;
    DivBounds(n, m, 1);
    DivBounds(n, m, 2);
    DivBounds(n, m, 3);
    ShiftShrinks(n, m);
    if W == 2 && a == -2 && b == 2 {
      WrapNegative(a, W);
    } else {
      if 2 < W { Pow2Le(2, W - 1); assert Pow2(2) == 4; }
      hide Wrap, Pow2;
      WrapDiffers(a, b, W);
    }
  }

  lemma VariantSteps(M: nat, K: nat, L: nat, v: SignedVariant, d: nat, x: int)
    requires IsMagicFor(M, K, d) && ErrorFits(M, K, L, d) && -(Pow2(L) as int) <= x < Pow2(L)
    ensures VariantForm(M, K, v, x) == SignedSteps(v, x < 0, Steps(M, K, d, x) / Pow2(v.secondShift))
  {
    hide Pow2, ShiftedProduct;
    VariantFloor(M, K, L, d, v.secondShift, x);
  }

  lemma QuotientSteps(n: nat, d: nat)
    requires 3 <= d
    ensures 0 <= 3 * (n / d) <= n
    ensures n / d == 0 <==> n < d
    ensures n % d == 0 && 0 < n ==> 0 < n / d
  {
    var q := n / d;
    DivMod(n, d);
    DivBounds(n, d, 1);
    QuotientNonNegative(n, d);
    MulLe(3, d, q);
    assert d * q == q * d;
  }

  lemma PositiveDivisor(d: nat, x: int, W: nat)
    requires 2 <= W && 0 < d < Pow2(W - 1)
    ensures d < Pow2(W) == 2 * Pow2(W - 1) && ToSigned(d, W) == d
    ensures SignedQuotientByConstant(x, d, W) == if x < 0 then -(Magnitude(x) / d) else Magnitude(x) / d
  {
  }

  /** A divisor that reads as a positive number. */
  lemma VariantSmall(M: nat, K: nat, S: nat, W: nat, v: SignedVariant, d: nat, x: int)
    requires 2 <= S <= W && Accepts(M, K, S - 1, W, false, d) && IsSigned(x, S) && d < Pow2(W - 1)
    ensures Wrap(VariantForm(M, K, v, x), W) == Wrap(SignedQuotientByConstant(x, d, W), W)
        <==> VariantRight(M, K, W, v, d, x)
  {
    hide Wrap, Pow2, VariantForm, SignedQuotientByConstant, ToSigned, ErrorFits, SignedSteps;
    PositiveDivisor(d, x, W);
    var n, H, over := Magnitude(x), Pow2(W - 1), Overshoots(M, K, d, x);
    Pow2Le(S - 1, W - 1);
    var Q := n / d;
    var steps := Q - (if over then 1 else 0);
    QuotientSteps(n, d);
    VariantSteps(M, K, S - 1, v, d, x);
    assert over ==> x < 0 && 0 < Q;
    ShiftedSteps(steps, v.secondShift);
    hide Overshoots, Accepts;
    SmallDivisor(n, Q, over, steps / Pow2(v.secondShift), H, v, x < 0);
    WrapDiffers(VariantForm(M, K, v, x), SignedQuotientByConstant(x, d, W), W);
  }

  /** A divisor whose pattern reads as a negative number. */
  lemma VariantLarge(M: nat, K: nat, S: nat, W: nat, v: SignedVariant, d: nat, x: int)
    requires 2 <= S <= W && Accepts(M, K, S - 1, W, false, d) && IsSigned(x, S) && Pow2(W - 1) <= d
    ensures Wrap(VariantForm(M, K, v, x), W) == Wrap(SignedQuotientByConstant(x, d, W), W)
        <==> VariantRight(M, K, W, v, d, x)
  {
    var n, H, over := Magnitude(x), Pow2(W - 1), Overshoots(M, K, d, x);
    Pow2Le(S - 1, W - 1);
    assert n <= H && Pow2(W) == 2 * H;
    if d == H { TopDivisorHasNoError(M, K, W); }
    VariantSteps(M, K, S - 1, v, d, x);
    assert Steps(M, K, d, x) == 0 by {
      if n < d { ModSmall(n, d); } else { DivUnique(n, d, 1); }
    }
    ModSmall(0, Pow2(v.secondShift));
    var m := Pow2(W) - d;
    assert ToSigned(d, W) == -m;
    var a, b := VariantForm(M, K, v, x), SignedQuotientByConstant(x, d, W);
    assert b == if x < 0 then n / m else -(n / m);
    assert a == SignedSteps(v, x < 0, 0);
    hide Wrap, Pow2, VariantForm, Overshoots, SignedQuotientByConstant, ToSigned, Accepts;
    LargeDivisor(n, m, W, v, x < 0);
  }

  /** A recognised signed root of the quotient-and-sign form that the solver
      accepts equals its sdiv exactly on the dividends of VariantRight. */
  lemma VariantExactly(M: nat, K: nat, S: nat, W: nat, v: SignedVariant, d: nat, x: int)
    requires 2 <= S <= W && Accepts(M, K, S - 1, W, false, d) && IsSigned(x, S)
    ensures Wrap(VariantForm(M, K, v, x), W) == Wrap(SignedQuotientByConstant(x, d, W), W)
        <==> VariantRight(M, K, W, v, d, x)
  {
    hide *;
    if d < Pow2(W - 1) {
      VariantSmall(M, K, S, W, v, d, x);
    } else {
      VariantLarge(M, K, S, W, v, d, x);
    }
  }

  /** SignedGuard is the part of VariantRight that does not mention the dividend. */
  lemma GuardedPlain(M: nat, K: nat, S: nat, W: nat, d: nat, x: int)
    requires 2 <= S <= W && Accepts(M, K, S - 1, W, false, d) && SignedGuard(M, K, S, W, d) && IsSigned(x, S)
    ensures VariantRight(M, K, W, PLAIN, d, x)
  {
    Pow2Le(S - 1, W - 1);
    assert Pow2(W) == 2 * Pow2(W - 1);
    if d == Pow2(W - 1) { TopDivisorHasNoError(M, K, W); }
    assert Magnitude(x) <= Pow2(S - 1);
  }

  /** (x * M) >> k for a W-bit x, a positive W-bit M and k >= W stays a W-bit
      signed number with the sign of x. */
  lemma SignedHighRange(x: int, M: nat, W: nat, k: nat)
    requires 0 < W <= k && IsSigned(x, W) && 0 < M < Pow2(W)
    ensures IsSigned(x * M, 2 * W)
    ensures IsSigned((x * M) / Pow2(k), W)
    ensures (x * M) / Pow2(k) < 0 <==> x < 0
  {
    var B, H := Pow2(W), Pow2(W - 1);
    ProductRange(x, M, B, H);
    SignedFromProduct(x * M, W);
    TwoShifts(x * M, W, k - W);
    ShiftedRange(x * M, B, H);
    SignedShift((x * M) / B, W, k - W);
  }

  lemma ProductRange(x: int, M: int, B: int, H: int)
    requires 0 < M < B && -H <= x < H
    ensures -(H * B) <= x * M < H * B
    ensures x * M < 0 <==> x < 0
  {
    if x < 0 {
      MulLe(-x, H, B);
      MulLe(M, B, -x);
      MulLt(0, M, -x);
      assert M * (-x) == -(x * M) && B * (-x) == (-x) * B;
    } else {
      MulLe(0, x, M);
      MulLt(x, H, B);
      MulLe(M, B, x);
      assert M * x == x * M && B * x == x * B;
    }
  }

  lemma ShiftedRange(p: int, B: int, H: int)
    requires 0 < B && -(H * B) <= p < H * B
    ensures -H <= p / B < H
    ensures p / B < 0 <==> p < 0
  {
    assert (-H) * B == -(H * B);
    DivBounds(p, B, H);
    DivBounds(p, B, -H);
    DivBounds(p, B, 0);
  }

  lemma SignedFromProduct(p: int, width: nat)
    requires 0 < width && -(Pow2(width - 1) * Pow2(width)) <= p < Pow2(width - 1) * Pow2(width)
    ensures IsSigned(p, 2 * width)
  {
    Pow2Add(width - 1, width);
  }

  /** The three departures by themselves, for a divisor that reads as positive. */
  lemma DepartureRight(M: nat, K: nat, W: nat, v: SignedVariant, d: nat, x: int)
    requires 0 < W && 0 < d < Pow2(W - 1) && d < Pow2(W)
    ensures !v.logicalSign && (v.swapped || 0 < v.secondShift) ==>
              (VariantRight(M, K, W, v, d, x) <==> -(d as int) < x < d)
    ensures v == SignedVariant(0, false, true) ==> (VariantRight(M, K, W, v, d, x) <==> 0 <= x)
  {
    hide Pow2;
  }

  // ----- the signed form that adds x back ---------------------------------------------

  /** An arithmetic shift, plus one for a negative number. */
  function Rounded(u: int, s: nat): int {
    u / Pow2(s) + (if u < 0 then 1 else 0)
  }

  /** The numbers that are rounded to q. */
  predicate RoundsTo(u: int, s: nat, q: int) {
    var p: int := Pow2(s);
    if q == 0 then -p <= u < p else if 0 < q then q * p <= u < (q + 1) * p else (q - 1) * p <= u < q * p
  }

  lemma RoundedExactly(u: int, s: nat, q: int)
    ensures Rounded(u, s) == q <==> RoundsTo(u, s, q)
  {
    var p := Pow2(s);
    hide Pow2;
    DivBounds(u, p, q - 1);
    DivBounds(u, p, q);
    DivBounds(u, p, q + 1);
    DivBounds(u, p, 0);
    if q > 0 { MulLe(1, q, p); } else if q < 0 { MulLe(q, -1, p); }
  }

  /** The high half of y * magic plus x, in a register of W bits: y is the view of
      the dividend x that is multiplied. */
  function PlusXSum(x: int, y: int, magic: int, W: nat): (u: int)
    requires 0 < W
    ensures IsSigned(u, W)
  {
    SignedRoundTrip(Wrap(ShiftedProduct(y, magic, W) + x, W), W);
    ToSigned(Wrap(ShiftedProduct(y, magic, W) + x, W), W)
  }

  lemma QuotientWithin(x: int, d: nat, W: nat)
    requires 0 < W && 0 < d < Pow2(W) && IsSigned(x, W)
    ensures Magnitude(SignedQuotientByConstant(x, d, W)) <= Pow2(W - 1)
  {
    ShiftShrinks(Magnitude(x), Magnitude(ToSigned(d, W)));
  }

  /** Shifting and rounding a W-bit sum gives the sdiv exactly when the sum lies
      where the shift maps to the quotient. */
  lemma RoundingExactly(u: int, s: nat, W: nat, d: nat, x: int)
    requires 0 < W && 0 < d < Pow2(W) && IsSigned(x, W) && IsSigned(u, W)
    ensures Wrap(Rounded(u, s), W) == Wrap(SignedQuotientByConstant(x, d, W), W)
        <==> RoundsTo(u, s, SignedQuotientByConstant(x, d, W))
  {
    var T := SignedQuotientByConstant(x, d, W);
    QuotientWithin(x, d, W);
    SignedShift(u, W, s);
    assert Pow2(W) == 2 * Pow2(W - 1);
    RoundedExactly(u, s, T);
    ShiftUp(u, s);
    hide Wrap, Pow2, SignedQuotientByConstant, RoundsTo;
    WrapDiffers(Rounded(u, s), T, W);
  }

  /** Shifting a negative number never takes it further from zero. */
  lemma ShiftUp(u: int, s: nat)
    ensures u < 0 ==> u <= u / Pow2(s)
  {
    var p := Pow2(s);
    hide Pow2;
    if u < 0 {
      MulLe(1, p, -u);
      assert p * (-u) == -(u * p) && 1 * (-u) == -u;
      DivBounds(u, p, u);
    }
  }

  /** With magic == M - j * 2^W and the whole dividend as the view, the sum is the
      high half of x * M less (j - 1) * x, as far as W bits show it. */
  lemma PlusXDisplaced(x: int, M: int, j: int, W: nat)
    requires 0 < W
    ensures PlusXSum(x, x, M - j * Pow2(W), W)
         == ToSigned(Wrap(ShiftedProduct(x, M, W) - (j - 1) * x, W), W)
  {
    hide Wrap, Pow2;
    DisplacedFloor(x, M, j, Pow2(W));
  }

  lemma DisplacedFloor(x: int, M: int, j: int, B: int)
    requires 0 < B
    ensures (x * (M - j * B)) / B + x == (x * M) / B - (j - 1) * x
  {
    assert x * (M - j * B) == x * M + (-j * x) * B;
    DivAddMultiple(x * M, -j * x, B);
  }

  lemma WrapDropped(f: int, k: int, W: nat)
    requires Wrap(k, W) == 0
    ensures Wrap(f - k, W) == Wrap(f, W)
  {
    var B := Pow2(W);
    hide Pow2;
    DivMod(k, B);
    NegateFactor(k / B, B);
    ModShift(f, f - k, B, -(k / B));
  }

  /** A displacement of which W bits show nothing. */
  lemma PlusXUndisplaced(x: int, M: nat, j: int, W: nat)
    requires 0 < W && IsSigned(x, W) && 0 < M < Pow2(W) && Wrap((j - 1) * x, W) == 0
    ensures PlusXSum(x, x, M - j * Pow2(W), W) == ShiftedProduct(x, M, W)
  {
    var f := ShiftedProduct(x, M, W);
    assert IsSigned(f, W) by { hide Pow2; SignedHighRange(x, M, W, W); }
    hide *;
    PlusXDisplaced(x, M, j, W);
    WrapSigned(f, W);
    WrapDropped(f, (j - 1) * x, W);
  }

  /** If no bit of (j - 1) * x is left in W bits, the root is right exactly where the
      plain variant is. */
  lemma PlusXPlain(x: int, M: nat, j: int, s: nat, W: nat, d: nat)
    requires 2 <= W && Accepts(M, W + s, W - 1, W, false, d) && IsSigned(x, W)
    requires Wrap((j - 1) * x, W) == 0
    ensures RoundsTo(PlusXSum(x, x, M - j * Pow2(W), W), s, SignedQuotientByConstant(x, d, W))
        <==> VariantRight(M, W + s, W, PLAIN, d, x)
  {
    hide *;
    AcceptedRange(M, W + s, W - 1, W, d);
    PlusXUndisplaced(x, M, j, W);
    PlusXRounded(x, M, s, W);
    RoundingExactly(PlusXSum(x, x, M - j * Pow2(W), W), s, W, d, x);
    VariantExactly(M, W + s, W, W, PLAIN, d, x);
  }

  lemma AcceptedRange(M: nat, K: nat, L: nat, W: nat, d: nat)
    requires Accepts(M, K, L, W, false, d)
    ensures 0 < M < Pow2(W) && 3 <= d < Pow2(W)
  {
  }

  lemma PlusXRounded(x: int, M: nat, s: nat, W: nat)
    requires 0 < W && IsSigned(x, W) && 0 < M < Pow2(W)
    ensures Rounded(ShiftedProduct(x, M, W), s) == VariantForm(M, W + s, PLAIN, x)
  {
    hide Pow2;
    SignedHighRange(x, M, W, W);
    TwoShifts(x * M, W, s);
    hide IsSigned;
  }

  /** A magic below -2^W takes x away once more: as long as the sum fits, the root
      is right only for dividends whose quotient and rounded sum are both 0. */
  lemma PlusXBelow(x: int, M: nat, j: int, s: nat, W: nat, d: nat)
    requires 2 <= W && 2 <= j && 0 < M < Pow2(W) && 0 < d < Pow2(W - 1) && IsSigned(x, W)
    requires d < Pow2(W) && IsSigned(ShiftedProduct(x, M, W) - (j - 1) * x, W)
    ensures var u := PlusXSum(x, x, M - j * Pow2(W), W);
      && u == ShiftedProduct(x, M, W) - (j - 1) * x
      && (RoundsTo(u, s, SignedQuotientByConstant(x, d, W)) <==> Magnitude(x) < d && RoundsTo(u, s, 0))
  {
    hide Wrap, Pow2, PlusXSum, SignedQuotientByConstant, ShiftedProduct, RoundsTo;
    var f, u := ShiftedProduct(x, M, W), ShiftedProduct(x, M, W) - (j - 1) * x;
    PlusXDisplaced(x, M, j, W);
    WrapSigned(u, W);
    DisplacedSign(f, x, M, j, W);
    PositiveDivisor(d, x, W);
    QuotientZero(Magnitude(x), d);
    RoundingSign(u, s, SignedQuotientByConstant(x, d, W));
  }

  lemma QuotientZero(n: nat, d: nat)
    requires 0 < d
    ensures 0 <= n / d && (n / d == 0 <==> n < d)
  {
    DivBounds(n, d, 1);
    QuotientNonNegative(n, d);
  }

  lemma DisplacedSign(f: int, x: int, M: nat, j: int, W: nat)
    requires 0 < M < Pow2(W) && 2 <= j && f == ShiftedProduct(x, M, W)
    ensures var u := f - (j - 1) * x; (0 < x ==> u < 0) && (x <= 0 ==> 0 <= u)
  {
    HighBelow(x, M, Pow2(W));
    if 0 < x {
      MulLe(1, j - 1, x);
    } else {
      MulLe(1, j - 1, -x);
      assert (j - 1) * (-x) == -((j - 1) * x);
    }
  }

  /** What is rounded to a nonzero number has its sign. */
  lemma RoundingSign(u: int, s: nat, q: int)
    ensures RoundsTo(u, s, q) ==> (0 < q ==> 0 < u) && (q < 0 ==> u < 0)
  {
    var p := Pow2(s);
    hide Pow2;
    if 0 < q { MulLe(1, q, p); } else if q < 0 { MulLe(q, -1, p); }
  }

  lemma HighBelow(x: int, M: nat, B: nat)
    requires 0 < M < B
    ensures 0 < x ==> (x * M) / B < x
    ensures x <= 0 ==> x <= (x * M) / B
  {
    DivBounds(x * M, B, x);
    assert x * M == M * x && x * B == B * x;
    if 0 < x {
      MulLt(M, B, x);
    } else {
      MulLe(M, B, -x);
      NegateFactor(x, M);
      NegateFactor(x, B);
      assert M * (-x) == (-x) * M && B * (-x) == (-x) * B;
    }
  }

  // ----- the add-correction form ------------------------------------------------------

  /** ((x - h) >> 1) + h, or with h - x in its place: below 2^W the latter is off by
      2^(W-1) - (x - h), except at x = 0. */
  function AddSum(x: int, h: int, W: nat, swapped: bool): int
    requires 0 < W
  {
    (x + h) / 2 + (if swapped && x != 0 then Pow2(W - 1) - (x - h) else 0)
  }

  /** The dividends whose sum lies where the last shift maps to the quotient. */
  predicate AddRight(x: int, h: int, W: nat, swapped: bool, s: nat, d: nat)
    requires 0 < W && 0 < d
  {
    (x / d) * Pow2(s) <= AddSum(x, h, W, swapped) < (x / d + 1) * Pow2(s)
  }

  /** The accepted divisor is 3 or more, so the high half is at most x / 2. */
  lemma HighAtMostHalf(y: nat, M: nat, P: nat, d: nat)
    requires 3 <= d && (d - 1) * M < P
    ensures 0 <= 2 * ((y * M) / P) <= y
  {
    var h := (y * M) / P;
    DivMod(y * M, P);
    MulLe(0, y, M);
    QuotientNonNegative(y * M, P);
    MulLe(2, d - 1, M);
    MulLe(2 * M, P, y);
    assert (2 * M) * y == 2 * (y * M) && P * y == y * P && (2 * h) * P == 2 * (h * P);
    MulCancelLe(2 * h, y, P);
  }

  /** The sum never leaves W bits, in either order. */
  lemma AddSumValue(x: nat, h: nat, W: nat, swapped: bool)
    requires 0 < W && 2 * h <= x < Pow2(W)
    ensures Wrap(h + Shr(Wrap(if swapped then h - x else x - h, W), 1), W) == AddSum(x, h, W, swapped)
  {
    assert Pow2(1) == 2 && Pow2(W) == 2 * Pow2(W - 1);
    hide Pow2;
    AddSumResidue(x, h, Pow2(W - 1), Pow2(W), swapped);
  }

  lemma AddSumResidue(x: nat, h: nat, H: nat, B: nat, swapped: bool)
    requires 2 * h <= x < B == 2 * H
    ensures (h + ((if swapped then h - x else x - h) % B) / 2) % B
         == (x + h) / 2 + (if swapped && x != 0 then H - (x - h) else 0)
  {
    var y := if swapped && x != 0 then h - x + B else x - h;
    if swapped && x != 0 { ModShift(h - x, y, B, 1); }
    ModSmall(y, B);
    ModSmall(h + y / 2, B);
  }

  lemma AddExactly(x: nat, h: nat, W: nat, swapped: bool, s: nat, d: nat)
    requires 0 < W && 0 < d && 2 * h <= x < Pow2(W)
    ensures Shr(Wrap(h + Shr(Wrap(if swapped then h - x else x - h, W), 1), W), s) == x / d
        <==> AddRight(x, h, W, swapped, s, d)
  {
    hide Wrap, Pow2, AddSum;
    AddSumValue(x, h, W, swapped);
    DivBounds(AddSum(x, h, W, swapped), Pow2(s), x / d);
    DivBounds(AddSum(x, h, W, swapped), Pow2(s), x / d + 1);
  }

  /** Where the closed form of MagicDivision is the quotient, so is the ordered root. */
  lemma ClosedFormRight(M: nat, N: nat, s: nat, W: nat, d: nat, x: nat)
    requires 0 < W && 0 < d && AddClosedForm(M, N, s + 1, x) == x / d
    ensures AddRight(x, ShiftedProduct(x, M, N), W, false, s, d)
  {
    var sum := x + ShiftedProduct(x, M, N);
    assert Pow2(s + 1) == 2 * Pow2(s);
    hide Pow2;
    DivDiv(sum, 2, Pow2(s));
    DivBounds(sum / 2, Pow2(s), x / d);
    DivBounds(sum / 2, Pow2(s), x / d + 1);
  }

  /** x - h with the shifts that fit d, h coming from a view of x: the product of
      the view must not fall short of the quotient by more than the remainder. */
  lemma OrderedRight(M: nat, N: nat, s: nat, W: nat, d: nat, x: nat, h: nat)
    requires 0 < W && IsMagicFor(M, N, d) && (d - 1) * M < Pow2(N) && d + 1 == Pow2(s + 1)
    requires x < Pow2(N) && h <= ShiftedProduct(x, M, N)
    ensures AddRight(x, h, W, false, s, d) <==> x / d <= x % d + h
  {
    var q, full := x / d, ShiftedProduct(x, M, N);
    assert Pow2(s + 1) == 2 * Pow2(s);
    hide Pow2, IsMagicFor;
    SumDecomposes(M, N, d, x);
    ExcessStaysBelow(M, N, d, x);
    hide ExcessAt;
    OrderedBucket(x, h, full, d, Pow2(s), q, x % d);
  }

  lemma OrderedBucket(x: int, h: int, full: int, d: int, P: int, q: int, r: int)
    requires 0 < d && d + 1 == 2 * P && q == x / d && r == x % d && h <= full
    requires x + full <= q * (d + 1) + d
    ensures q * P <= (x + h) / 2 < (q + 1) * P <==> q <= r + h
  {
    DivMod(x, d);
    assert q * (d + 1) == q * d + q && q * (2 * P) == 2 * (q * P) && (q + 1) * P == q * P + P;
  }

  /** h - x with the shifts that fit d: right at most where x - h is 2^(W-1) up to
      the bits that the last shift drops. */
  lemma SwappedRight(M: nat, N: nat, s: nat, L: nat, W: nat, d: nat, x: nat)
    requires 0 < W && AddAccepts(M, N, s + 1, L, W, d) && d + 1 == Pow2(s + 1) && 0 < x < Pow2(L)
    ensures var h := ShiftedProduct(x, M, N);
            AddRight(x, h, W, true, s, d) ==> -(Pow2(s) as int) < Pow2(W - 1) - (x - h) < Pow2(s)
  {
    AddMatchingShift(M, N, s + 1, L, W, d, x);
    assert Pow2(s + 1) == 2 * Pow2(s);
    hide Pow2, AddAccepts;
    SwappedBucket(x, ShiftedProduct(x, M, N), x / d, Pow2(s), Pow2(W - 1));
  }

  lemma SwappedBucket(x: int, h: int, q: int, P: int, H: int)
    requires 0 < P && (x + h) / (2 * P) == q
    ensures q * P <= (x + h) / 2 + H - (x - h) < (q + 1) * P ==> -P < H - (x - h) < P
  {
    DivMod(x + h, 2 * P);
    assert q * (2 * P) == 2 * (q * P) && (q + 1) * P == q * P + P;
  }
}
