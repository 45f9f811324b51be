/** Powers of two, floor division and fixed-width machine integers.
    A machine integer of width w is a natural number below Pow2(w); its signed
    reading is ToSigned.  Dafny's / and % round towards minus infinity for a
    positive divisor, which is the floor used throughout. */
module Bits {

  function Pow2(n: nat): (p: nat)
    ensures p > 0
  {
    if n == 0 then 1 else 2 * Pow2(n - 1)
  }

  lemma {:induction false} Pow2Add(a: nat, b: nat)
    ensures Pow2(a + b) == Pow2(a) * Pow2(b)
  {
    if a != 0 {
      Pow2Add(a - 1, b);
      assert Pow2(a + b) == 2 * Pow2(a - 1 + b);
      MulAssoc(2, Pow2(a - 1), Pow2(b));
    }
  }

  lemma Pow2Square(a: nat)
    ensures Pow2(2 * a) == Pow2(a) * Pow2(a)
  {
    hide Pow2;
    Pow2Add(a, a);
  }

  lemma {:induction false} Pow2Le(a: nat, b: nat)
    requires a <= b
    ensures Pow2(a) <= Pow2(b)
  {
    if a < b {
      Pow2Le(a, b - 1);
    }
  }

  lemma {:induction false} Pow2Lt(a: nat, b: nat)
    requires a < b
    ensures 2 * Pow2(a) <= Pow2(b)
  {
    Pow2Le(a + 1, b);
  }

  lemma Pow2Values()
    ensures Pow2(7) == 0x80 && Pow2(8) == 0x100
    ensures Pow2(16) == 0x1_0000
    ensures Pow2(31) == 0x8000_0000 && Pow2(32) == 0x1_0000_0000 && Pow2(33) == 0x2_0000_0000
    ensures Pow2(63) == 0x8000_0000_0000_0000 && Pow2(64) == 0x1_0000_0000_0000_0000
  {
    assert Pow2(4) == 16;
    Pow2Add(4, 3);
    assert Pow2(8) == 2 * Pow2(7);
    Pow2Add(8, 8);
    Pow2Add(16, 16);
    assert Pow2(32) == 2 * Pow2(31);
    assert Pow2(33) == 2 * Pow2(32);
    Pow2Add(32, 32);
    assert Pow2(64) == 2 * Pow2(63);
  }

  // Small facts about products, stated once so that proofs can name them.

  lemma MulAssoc(a: int, b: int, c: int)
    ensures (a * b) * c == a * (b * c)
  {
  }

  lemma MulLe(a: int, b: int, c: int)
    requires a <= b && 0 <= c
    ensures a * c <= b * c
  {
  }

  lemma MulLt(a: int, b: int, c: int)
    requires a < b && 0 < c
    ensures a * c < b * c
  {
  }

  lemma MulCancelLe(a: int, b: int, c: int)
    requires a * c <= b * c && 0 < c
    ensures a <= b
  {
    if b < a { MulLt(b, a, c); }
  }

  lemma MulCancelLt(a: int, b: int, c: int)
    requires a * c < b * c && 0 <= c
    ensures a < b
  {
    if b <= a { MulLe(b, a, c); }
  }

  lemma DivMod(x: int, d: int)
    requires 0 < d
    ensures x == (x / d) * d + x % d
    ensures 0 <= x % d < d
  {
  }

  /** A quotient is pinned down by the two products around the dividend. */
  lemma DivUnique(x: int, d: int, q: int)
    requires 0 < d
    requires q * d <= x < (q + 1) * d
    ensures x / d == q
    ensures x % d == x - q * d
  {
    DivMod(x, d);
    var k := x / d;
    assert (k + 1) * d == k * d + d;
    if k < q {
      MulLe(k + 1, q, d);
    } else if q < k {
      MulLe(q + 1, k, d);
    }
  }

  lemma DivMono(x: int, y: int, d: int)
    requires x <= y && 0 < d
    ensures x / d <= y / d
  {
    DivMod(x, d);
    DivMod(y, d);
    assert (y / d + 1) * d == (y / d) * d + d;
    if y / d < x / d {
      MulLe(y / d + 1, x / d, d);
    }
  }

  lemma DivBounds(x: int, d: int, q: int)
    requires 0 < d
    ensures x < q * d <==> x / d < q
  {
    DivMod(x, d);
    if x / d < q {
      MulLe(x / d + 1, q, d);
      assert (x / d + 1) * d == (x / d) * d + d;
    } else {
      MulLe(q, x / d, d);
    }
  }

  lemma DivDiv(x: int, a: int, b: int)
    requires 0 < a && 0 < b
    ensures 0 < a * b
    ensures (x / a) / b == x / (a * b)
  {
    MulLt(0, a, b);
    var q := x / a;
    var k := q / b;
    DivMod(x, a);
    DivMod(q, b);
    MulAssoc(k, b, a);
    assert b * a == a * b;
    assert k * (a * b) == (k * b) * a;
    MulLe(k * b, q, a);
    MulLe(q + 1, (k + 1) * b, a);
    assert (q + 1) * a == q * a + a;
    MulAssoc(k + 1, b, a);
    assert (k + 1) * (a * b) == ((k + 1) * b) * a;
    DivUnique(x, a * b, k);
  }

  lemma DivAddMultiple(x: int, k: int, d: int)
    requires 0 < d
    ensures (x + k * d) / d == x / d + k
    ensures (x + k * d) % d == x % d
  {
    DivMod(x, d);
    assert (x / d + k) * d == (x / d) * d + k * d;
    assert (x / d + k + 1) * d == (x / d) * d + k * d + d;
    DivUnique(x + k * d, d, x / d + k);
  }

  lemma ModSmall(x: int, d: int)
    requires 0 <= x < d
    ensures x % d == x && x / d == 0
  {
  }

  /** Two numbers with the same residue differ by a multiple, and conversely. */
  lemma ModShift(x: int, y: int, d: int, k: int)
    requires 0 < d && y == x + k * d
    ensures y % d == x % d
  {
    DivAddMultiple(x, k, d);
  }

  lemma ModMod(x: int, a: int, b: int)
    requires 0 < a && 0 < b
    ensures 0 < a * b && (x % (a * b)) % a == x % a
  {
    MulLt(0, a, b);
    var q := x / (a * b);
    DivMod(x, a * b);
    MulAssoc(q, b, a);
    assert q * (a * b) == (q * b) * a;
    ModShift(x % (a * b), x, a, q * b);
  }

  lemma ModAdd(x: int, y: int, d: int)
    requires 0 < d
    ensures (x % d + y) % d == (x + y) % d
    ensures (x % d - y) % d == (x - y) % d
    ensures (y - x % d) % d == (y - x) % d
  {
    DivMod(x, d);
    ModShift(x % d + y, x + y, d, x / d);
    ModShift(x % d - y, x - y, d, x / d);
    ModShift(y - x, y - x % d, d, x / d);
  }

  lemma ModMul(x: int, y: int, d: int)
    requires 0 < d
    ensures ((x % d) * y) % d == (x * y) % d
  {
    DivMod(x, d);
    var q := x / d;
    assert x * y == (x % d) * y + (q * d) * y;
    assert (q * d) * y == (q * y) * d;
    ModShift((x % d) * y, x * y, d, q * y);
  }

  lemma MulDistrib(a: int, b: int, c: int)
    ensures (a + b) * c == a * c + b * c
  {
  }

  lemma ModProduct(x: int, p: int, r: int)
    requires 0 < p && 0 < r
    ensures 0 < p * r
    ensures x % (p * r) == x % p + ((x / p) % r) * p
  {
    DivDiv(x, p, r);
    var q := x / p;
    var k := q / r;
    var s := q % r;
    DivMod(x, p);
    DivMod(q, r);
    DivMod(x, p * r);
    MulDistrib(k * r, s, p);
    MulAssoc(k, r, p);
    assert r * p == p * r;
  }

  /** The residue modulo 2^(a + b) splits at bit a. */
  lemma ModSplit(x: int, a: nat, b: nat)
    ensures x % Pow2(a + b) == x % Pow2(a) + ((x / Pow2(a)) % Pow2(b)) * Pow2(a)
  {
    Pow2Add(a, b);
    ModProduct(x, Pow2(a), Pow2(b));
  }

  // ----- machine integers ---------------------------------------------------

  predicate IsWord(v: int, w: nat) {
    0 <= v < Pow2(w)
  }

  /** The w-bit pattern of an integer (wrap-around). */
  function Wrap(x: int, w: nat): (v: nat)
    ensures IsWord(v, w)
  {
    x % Pow2(w)
  }

  /** A right shift: division by 2^s, rounded down. */
  function Shr(x: int, s: nat): int {
    x / Pow2(s)
  }

  /** The two's complement reading of a w-bit pattern. */
  function ToSigned(v: nat, w: nat): int
    requires 0 < w && IsWord(v, w)
  {
    if v < Pow2(w - 1) then v else v - Pow2(w)
  }

  predicate IsSigned(x: int, w: nat)
    requires 0 < w
  {
    -(Pow2(w - 1) as int) <= x < Pow2(w - 1)
  }

  lemma SignedRoundTrip(v: nat, w: nat)
    requires 0 < w && IsWord(v, w)
    ensures IsSigned(ToSigned(v, w), w)
    ensures Wrap(ToSigned(v, w), w) == v
  {
    var p := Pow2(w);
    ModSmall(v, p);
    if v >= Pow2(w - 1) {
      ModShift(v, v - p, p, -1);
    }
  }

  lemma WrapNegative(v: int, w: nat)
    requires -(Pow2(w) as int) <= v < 0
    ensures Wrap(v, w) == v + Pow2(w)
  {
    ModShift(v, v + Pow2(w), Pow2(w), 1);
    ModSmall(v + Pow2(w), Pow2(w));
  }

  lemma WrapWord(v: int, w: nat)
    requires IsWord(v, w)
    ensures Wrap(v, w) == v
  {
    ModSmall(v, Pow2(w));
  }

  lemma WrapSigned(x: int, w: nat)
    requires 0 < w && IsSigned(x, w)
    ensures ToSigned(Wrap(x, w), w) == x
    ensures Wrap(x, w) == if x < 0 then x + Pow2(w) else x
  {
    assert Pow2(w) == 2 * Pow2(w - 1);
    hide Pow2, Wrap;
    if x < 0 {
      WrapNegative(x, w);
    } else {
      WrapWord(x, w);
    }
  }

  lemma WrapSmall(v: int, n: nat, w: nat)
    requires 0 <= v < Pow2(n) && n <= w
    ensures Wrap(v, w) == v
  {
    Pow2Le(n, w);
    ModSmall(v, Pow2(w));
  }

  /** Sums, differences and products only depend on the wrapped operands. */
  lemma WrapOps(x: int, y: int, w: nat)
    ensures Wrap(Wrap(x, w) + Wrap(y, w), w) == Wrap(x + y, w)
    ensures Wrap(Wrap(x, w) - Wrap(y, w), w) == Wrap(x - y, w)
    ensures Wrap(Wrap(x, w) * Wrap(y, w), w) == Wrap(x * y, w)
  {
    WrapSum(x, y, w);
    WrapProduct(x, y, w);
  }

  lemma WrapSum(x: int, y: int, w: nat)
    ensures Wrap(Wrap(x, w) + Wrap(y, w), w) == Wrap(x + y, w)
    ensures Wrap(Wrap(x, w) - Wrap(y, w), w) == Wrap(x - y, w)
  {
    var d := Pow2(w);
    ModAdd(x, y % d, d);
    ModAdd(y, x, d);
    ModAdd(x, -(y % d), d);
    ModAdd(y, x, d);
  }

  lemma WrapProduct(x: int, y: int, w: nat)
    ensures Wrap(Wrap(x, w) * Wrap(y, w), w) == Wrap(x * y, w)
  {
    var d := Pow2(w);
    var r := y % d;
    ModMul(x, r, d);
    ModMul(y, x, d);
    assert r * x == x * r;
    assert y * x == x * y;
  }

  /** Truncating twice is truncating once. */
  lemma WrapWrap(x: int, wide: nat, w: nat)
    requires w <= wide
    ensures Wrap(Wrap(x, wide), w) == Wrap(x, w)
  {
    Pow2Add(w, wide - w);
    ModMod(x, Pow2(w), Pow2(wide - w));
  }

  /** The high part of a pattern is the pattern of the floor. */
  lemma WrapHigh(x: int, low: nat, high: nat)
    ensures Wrap(x, low + high) / Pow2(low) == Wrap(x / Pow2(low), high)
  {
    ModSplit(x, low, high);
    DivAddMultiple(x % Pow2(low), Wrap(x / Pow2(low), high), Pow2(low));
    ModSmall(x % Pow2(low), Pow2(low));
  }

  /** Multiplying by 2^s moves the low k - s bits to the low k bits. */
  lemma ShlLow(a: int, s: nat, k: nat)
    ensures Wrap(a * Pow2(s), k) == if s < k then Wrap(a, k - s) * Pow2(s) else 0
  {
    if s < k {
      Pow2Add(s, k - s);
      var p, q := Pow2(s), Pow2(k - s);
      hide Pow2;
      DivAddMultiple(0, a, p);
      ModSmall(0, p);
      ModProduct(a * p, p, q);
    } else {
      Pow2Add(k, s - k);
      var p, q := Pow2(k), Pow2(s - k);
      hide Pow2;
      MulAssoc(a, q, p);
      assert p * q == q * p;
      assert a * (q * p) == (a * q) * p;
      DivAddMultiple(0, a * q, p);
      ModSmall(0, p);
    }
  }

  lemma QuotientNonNegative(x: int, d: int)
    requires 0 <= x && 0 < d
    ensures 0 <= x / d
  {
    DivBounds(x, d, 0);
  }

  lemma ShiftShrinks(x: nat, P: nat)
    requires 0 < P
    ensures 0 <= x / P <= x
  {
    DivMod(x, P);
    DivMono(0, x, P);
    MulLe(1, P, x / P);
    assert P * (x / P) == (x / P) * P;
  }

  /** An arithmetic shift keeps a signed number in range. */
  lemma SignedShift(x: int, w: nat, s: nat)
    requires 0 < w && IsSigned(x, w)
    ensures IsSigned(x / Pow2(s), w)
    ensures x < 0 <==> x / Pow2(s) < 0
  {
    FloorTowardsZero(x, Pow2(s), Pow2(w - 1));
  }

  lemma FloorTowardsZero(x: int, P: int, H: int)
    requires 0 < P && -H <= x < H
    ensures -H <= x / P < H
    ensures x < 0 <==> x / P < 0
  {
    DivBounds(x, P, 0);
    MulLe(1, P, H);
    assert P * H == H * P;
    assert (-H) * P == -(H * P);
    DivBounds(x, P, H);
    DivBounds(x, P, -H);
  }

  /** Shifting twice is shifting by the sum. */
  lemma TwoShifts(p: int, a: nat, b: nat)
    ensures (p / Pow2(a)) / Pow2(b) == p / Pow2(a + b)
  {
    Pow2Add(a, b);
    DivDiv(p, Pow2(a), Pow2(b));
  }

  /** Division as C, LLVM's sdiv and x86's idiv round it: towards zero. */
  function TruncDiv(x: int, d: int): int
    requires d != 0
  {
    var q := (if x < 0 then -x else x) / (if d < 0 then -d else d);
    if (x < 0) == (d < 0) then q else -q
  }
}
