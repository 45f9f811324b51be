/** The two solvers that recover a divisor from a compiler's "magic multiply"
    constant, and the arithmetic that says when the recovered divisor is right.

    Notation of the proofs: K is the total right shift, L bounds the dividend
    (x < 2^L), W is the machine width, M the magic constant, d the candidate
    divisor and e = M*d - 2^K the rounding error. */
module MagicDivision {
  import opened Bits
  import opened Wrappers

  // ----- arithmetic on APInt values of an explicit width --------------------

  function ApAdd(w: nat, a: int, b: int): nat {
    Wrap(a + b, w)
  }

  function ApSub(w: nat, a: int, b: int): nat {
    Wrap(a - b, w)
  }

  function ApMul(w: nat, a: int, b: int): nat {
    Wrap(a * b, w)
  }

  function ApShl(w: nat, a: int, s: nat): nat {
    Wrap(a * Pow2(s), w)
  }

  /** The single divisor both solvers try: 2^K / M, plus one if it is inexact. */
  function ApCandidate(w: nat, powerOfTwo: nat, magic: nat): int
    requires 0 < magic
  {
    var quotient := powerOfTwo / magic;
    if powerOfTwo % magic != 0 then ApAdd(w, quotient, 1) else quotient
  }

  /** solveMagicDivisor, in the solver's own wrapping arithmetic. */
  function SolveMagicDivisor(magic: nat, shift: nat, inputBits: nat, valueWidth: nat,
                             allowShortShift: bool): Option<nat>
  {
    var minShift := if allowShortShift then 1 else valueWidth;
    if magic == 0 || valueWidth == 0 || valueWidth > 64 || magic >= Pow2(valueWidth) ||
       inputBits == 0 || inputBits > valueWidth || shift < minShift || shift > 2 * valueWidth then
      None
    else
      var width := shift + 2 * valueWidth;
      var powerOfTwo := Pow2(shift);
      var divisor := ApCandidate(width, powerOfTwo, magic);
      if divisor < 3 || divisor >= Pow2(valueWidth) then
        None
      else
        var product := ApMul(width, magic, divisor);
        var previous := ApMul(width, ApSub(width, magic, 1), divisor);
        if product < powerOfTwo || previous >= powerOfTwo then
          None
        else
          var error := ApSub(width, product, powerOfTwo);
          if ApShl(width, error, inputBits) > powerOfTwo then None else Some(divisor)
  }

  // ----- what the solver decides, over unbounded integers -------------------

  /** M is 2^K / d rounded up. */
  predicate IsMagicFor(M: nat, K: nat, d: nat) {
    0 < M && 0 < d && (M - 1) * d < Pow2(K) <= M * d
  }

  /** The error condition of Granlund and Montgomery for dividends below 2^L. */
  predicate ErrorFits(M: nat, K: nat, L: nat, d: nat) {
    (M * d - Pow2(K)) * Pow2(L) <= Pow2(K)
  }

  predicate SolverInput(M: nat, K: nat, L: nat, W: nat, short: bool) {
    && 0 < W <= 64
    && 0 < M < Pow2(W)
    && 0 < L <= W
    && (if short then 1 else W) <= K <= 2 * W
  }

  predicate Accepts(M: nat, K: nat, L: nat, W: nat, short: bool, d: nat) {
    && SolverInput(M, K, L, W, short)
    && IsCandidate(M, K, W, d)
    && ErrorFits(M, K, L, d)
  }

  /** d is the least number with M*d >= 2^K, M is 2^K / d rounded up, and d is a
      W-bit number of 3 or more. */
  predicate IsCandidate(M: nat, K: nat, W: nat, d: nat) {
    3 <= d < Pow2(W) && (d - 1) * M < Pow2(K) && IsMagicFor(M, K, d)
  }

  lemma CandidateDecides(M: nat, K: nat, W: nat, d: nat)
    requires 0 < M
    ensures IsCandidate(M, K, W, d) <==>
              d == Candidate(M, Pow2(K)) && 3 <= d < Pow2(W) && (M - 1) * d < Pow2(K)
    ensures d == Candidate(M, Pow2(K)) ==> Pow2(K) <= M * d
  {
    hide Pow2, Candidate;
    CandidateIsCeiling(M, Pow2(K), d);
    assert M * d == d * M;
  }

  function Candidate(M: nat, P: nat): nat
    requires 0 < M
  {
    P / M + (if P % M != 0 then 1 else 0)
  }

  /** The candidate is 2^K / M rounded up, and it is the only such number. */
  lemma CandidateIsCeiling(M: nat, P: nat, d: nat)
    requires 0 < M && 0 < P
    ensures d == Candidate(M, P) <==> (d - 1) * M < P <= d * M
  {
    var q := P / M;
    DivMod(P, M);
    assert (q + 1) * M == q * M + M;
    assert (q - 1) * M == q * M - M;
    if (d - 1) * M < P <= d * M {
      if P % M == 0 {
        MulCancelLt(d - 1, q, M);
        MulCancelLe(q, d, M);
      } else {
        MulCancelLt(d - 1, q + 1, M);
        MulCancelLt(q, d, M);
      }
    }
  }

  lemma CandidateNoWrap(M: nat, K: nat, width: nat)
    requires 0 < M && K < width
    ensures ApCandidate(width, Pow2(K), M) == Candidate(M, Pow2(K))
  {
    ShiftShrinks(Pow2(K), M);
    Pow2Lt(K, width);
    if Pow2(K) % M != 0 {
      WrapSmall(Pow2(K) / M + 1, width, width);
    }
  }

  /** No intermediate of the solver wraps at its width K + 2W, so its wrapping
      computation decides exactly the conditions on unbounded integers. */
  lemma SolverDecides(M: nat, K: nat, L: nat, W: nat, short: bool, d: nat)
    ensures SolveMagicDivisor(M, K, L, W, short) == Some(d) <==> Accepts(M, K, L, W, short, d)
  {
    hide Pow2, Candidate, ApCandidate, Wrap, ApMul, ApSub, ApShl;
    if SolverInput(M, K, L, W, short) {
      var width := K + 2 * W;
      var P := Pow2(K);
      var c := Candidate(M, P);
      CandidateIsCeiling(M, P, d);
      CandidateIsCeiling(M, P, c);
      CandidateNoWrap(M, K, width);
      assert M * c == c * M;
      if 3 <= c < Pow2(W) {
        NoWrap(M, K, L, W, c, M * c - P, width);
      }
    }
  }

  lemma NoWrap(M: nat, K: nat, L: nat, W: nat, c: nat, e: nat, w: nat)
    requires 0 < M < Pow2(W) && 0 < c < Pow2(W) && 0 < W && L <= W && 2 * W <= w
    requires (c - 1) * M < Pow2(K) && M * c == Pow2(K) + e
    ensures ApMul(w, M, c) == M * c
    ensures ApSub(w, M, 1) == M - 1
    ensures ApMul(w, M - 1, c) == (M - 1) * c
    ensures ApSub(w, M * c, Pow2(K)) == e
    ensures ApShl(w, e, L) == e * Pow2(L)
  {
    NoWrapProducts(M, K, L, W, c, e, w);
    NoWrapError(M, K, L, W, c, e, w);
  }

  lemma NoWrapProducts(M: nat, K: nat, L: nat, W: nat, c: nat, e: nat, w: nat)
    requires 0 < M < Pow2(W) && 0 < c < Pow2(W) && 0 < W && L <= W && 2 * W <= w
    requires (c - 1) * M < Pow2(K) && M * c == Pow2(K) + e
    ensures ApMul(w, M, c) == M * c
    ensures ApSub(w, M, 1) == M - 1
    ensures ApMul(w, M - 1, c) == (M - 1) * c
  {
    IntermediateBounds(M, K, L, W, c, e);
    WrapSmall(M * c, 2 * W, w);
    Pow2Le(W, 2 * W);
    WrapSmall(M - 1, 2 * W, w);
    WrapSmall((M - 1) * c, 2 * W, w);
  }

  lemma NoWrapError(M: nat, K: nat, L: nat, W: nat, c: nat, e: nat, w: nat)
    requires 0 < M < Pow2(W) && 0 < c < Pow2(W) && 0 < W && L <= W && 2 * W <= w
    requires (c - 1) * M < Pow2(K) && M * c == Pow2(K) + e
    ensures ApSub(w, M * c, Pow2(K)) == e
    ensures ApShl(w, e, L) == e * Pow2(L)
  {
    IntermediateBounds(M, K, L, W, c, e);
    WrapSmall(e, 2 * W, w);
    WrapSmall(e * Pow2(L), 2 * W, w);
  }

  lemma IntermediateBounds(M: nat, K: nat, L: nat, W: nat, c: nat, e: nat)
    requires 0 < M < Pow2(W) && 0 < c < Pow2(W) && 0 < W && L <= W
    requires (c - 1) * M < Pow2(K) && M * c == Pow2(K) + e
    ensures M * c < Pow2(2 * W)
    ensures 0 <= (M - 1) * c < Pow2(2 * W)
    ensures e < M && e < Pow2(2 * W)
    ensures 0 <= e * Pow2(L) < Pow2(2 * W)
  {
    var B := Pow2(2 * W);
    assert B == Pow2(W) * Pow2(W) by { Pow2Add(W, W); }
    Pow2Le(L, W);
    SolverBounds(M, c, Pow2(K), e, Pow2(W), Pow2(L));
  }

  lemma SolverBounds(M: nat, c: nat, P: nat, e: nat, B: nat, X: nat)
    requires 0 < M < B && 0 < c < B && X <= B
    requires (c - 1) * M < P && M * c == P + e
    ensures M * c < B * B
    ensures 0 <= (M - 1) * c < B * B
    ensures e < M && e < B * B
    ensures 0 <= e * X < B * B
  {
    assert c * M == M * c;
    MulDistrib(c, -1, M);
    ProductBelow(M, B, c, B);
    MulDistrib(M, -1, c);
    MulLe(0, M - 1, c);
    ProductBelow(e, B, X, B);
    MulLe(0, e, X);
  }

  lemma ProductBelow(a: nat, A: nat, b: nat, B: nat)
    requires a < A && b <= B && 0 < B
    ensures a * b < A * B
  {
    MulLe(b, B, a);
    MulLt(a, A, B);
  }

  // ----- floor(x * M / 2^K) --------------------------------------------------

  /** With M*d == P + e, the floor of x*M/P is the q whose multiples of d*P
      enclose x*P + x*e.  x and e may be negative. */
  lemma ScaledFloor(x: int, M: int, P: int, d: int, e: int, q: int)
    requires 0 < d && 0 < P && M * d == P + e
    requires (q * d) * P <= x * P + x * e < ((q + 1) * d) * P
    ensures (x * M) / P == q
  {
    var y := x * M;
    assert y * d == x * P + x * e by {
      MulAssoc(x, M, d);
      assert x * (P + e) == x * P + x * e;
    }
    SwapFactors(q, d, P);
    SwapFactors(q + 1, d, P);
    MulCancelLe(q * P, y, d);
    MulCancelLt(y, (q + 1) * P, d);
    DivUnique(y, P, q);
  }

  lemma SwapFactors(a: int, b: int, c: int)
    ensures (a * b) * c == (a * c) * b
  {
    MulAssoc(a, b, c);
    MulAssoc(a, c, b);
    assert b * c == c * b;
  }

  /** floor(x * M / 2^K) is x / d for every x below 2^L. */
  lemma UnsignedQuotient(M: nat, K: nat, L: nat, d: nat, x: nat)
    requires IsMagicFor(M, K, d) && ErrorFits(M, K, L, d)
    requires x < Pow2(L)
    ensures (x * M) / Pow2(K) == x / d
  {
    var P := Pow2(K);
    var e := M * d - P;
    ErrorBelow(x, e, Pow2(L), P);
    UnsignedFloor(x, M, P, d, e);
  }

  lemma UnsignedFloor(x: nat, M: nat, P: nat, d: nat, e: nat)
    requires 0 < d && 0 < P && M * d == P + e
    requires x * e < P
    ensures (x * M) / P == x / d
  {
    var q := x / d;
    DivMod(x, d);
    MulDistrib(q, 1, d);
    MulLe(q * d, x, P);
    MulLe(0, x, e);
    MulLe(x + 1, (q + 1) * d, P);
    MulDistrib(x, 1, P);
    ScaledFloor(x, M, P, d, e, q);
  }

  lemma ErrorBelow(x: nat, e: nat, X: nat, P: nat)
    requires x < X && e * X <= P && 0 < P
    ensures x * e < P
  {
    if e > 0 {
      MulLt(x, X, e);
      assert X * e == e * X;
    }
  }

  // ----- completeness ----------------------------------------------------------

  /** If some divisor explains M, the solver finds one: its single candidate is
      accepted, never exceeds that divisor, and is that divisor as soon as it
      lies in the dividend range. */
  lemma SolverFindsDivisor(M: nat, K: nat, L: nat, W: nat, short: bool, d: nat)
    requires SolverInput(M, K, L, W, short) && 3 <= K && 3 <= d < Pow2(W)
    requires IsMagicFor(M, K, d) && ErrorFits(M, K, L, d)
    ensures exists c: nat :: SolveMagicDivisor(M, K, L, W, short) == Some(c) && c <= d &&
              (c < Pow2(L) ==> c == d)
  {
    hide Pow2, Candidate, SolveMagicDivisor;
    var P := Pow2(K);
    var c := Candidate(M, P);
    CandidateIsCeiling(M, P, c);
    CandidatePositive(M, P);
    CandidateQualifies(M, P, d, c, Pow2(L));
    CandidateAtLeastThree(M, K, d, c);
    assert Accepts(M, K, L, W, short, c);
    SolverDecides(M, K, L, W, short, c);
    if c < Pow2(L) {
      SameQuotientOnRange(M, K, L, c, d);
    }
  }

  lemma CandidatePositive(M: nat, P: nat)
    requires 0 < M && 0 < P
    ensures 0 < Candidate(M, P)
  {
    DivMod(P, M);
    DivBounds(P, M, 0);
  }

  /** Two divisors that both explain M agree once the smaller is a dividend. */
  lemma SameQuotientOnRange(M: nat, K: nat, L: nat, c: nat, d: nat)
    requires IsMagicFor(M, K, c) && ErrorFits(M, K, L, c)
    requires IsMagicFor(M, K, d) && ErrorFits(M, K, L, d)
    requires c <= d && c < Pow2(L)
    ensures c == d
  {
    hide Pow2;
    UnsignedQuotient(M, K, L, c, c);
    UnsignedQuotient(M, K, L, d, c);
    DivUnique(c, c, 1);
    if c < d {
      ModSmall(c, d);
    }
  }

  lemma CandidateQualifies(M: nat, P: nat, d: nat, c: nat, X: nat)
    requires 0 < M && 0 < c && 0 < d && 0 < P
    requires (c - 1) * M < P <= c * M
    requires (M - 1) * d < P <= M * d && (M * d - P) * X <= P
    ensures c <= d
    ensures (M - 1) * c < P <= M * c && (M * c - P) * X <= P
  {
    assert c * M == M * c && d * M == M * d;
    MulCancelLt(c - 1, d, M);
    MulDistrib(M, -1, c);
    MulDistrib(M, -1, d);
    MulLe(c, d, M);
    MulLe(c, d, M - 1);
    assert c * (M - 1) == (M - 1) * c && d * (M - 1) == (M - 1) * d;
    MulLe(M * c - P, M * d - P, X);
  }

  lemma CandidateAtLeastThree(M: nat, K: nat, d: nat, c: nat)
    requires 3 <= K && 3 <= d && (M - 1) * d < Pow2(K) <= c * M && 0 < M
    ensures 3 <= c
  {
    var P := Pow2(K);
    Pow2Le(3, K);
    assert Pow2(3) == 8;
    MulLe(3, d, M - 1);
    assert d * (M - 1) == (M - 1) * d;
    if c <= 2 {
      MulLe(c, 2, M);
    }
  }

  // ----- signed division ----------------------------------------------------------

  function ShiftedProduct(x: int, M: int, K: nat): int {
    (x * M) / Pow2(K)
  }

  /** What the signed chains compute: floor(x * M / 2^K) plus one for negative x. */
  function SignedClosedForm(M: nat, K: nat, x: int): int {
    ShiftedProduct(x, M, K) + (if x < 0 then 1 else 0)
  }

  /** The sdiv that replaces the chain: its constant operand is the W-bit
      pattern of d, so a d of 2^(W-1) or more reads as a negative number. */
  function SignedQuotientByConstant(x: int, d: nat, W: nat): int
    requires 0 < d < Pow2(W) && 0 < W
  {
    TruncDiv(x, ToSigned(d, W))
  }

  lemma NegativeQuotient(M: nat, K: nat, L: nat, d: nat, x: int)
    requires IsMagicFor(M, K, d) && ErrorFits(M, K, L, d)
    requires -(Pow2(L) as int) <= x < 0
    requires M * d != Pow2(K) || -x < d
    ensures SignedClosedForm(M, K, x) == -((-x) / d)
  {
    var P := Pow2(K);
    var e: nat, y: nat := M * d - P, -x;
    assert y * e <= P by {
      MulLe(y, Pow2(L), e);
      assert e * Pow2(L) == Pow2(L) * e;
    }
    NegativeFloor(x, y, M, P, d, e);
  }

  lemma NegativeFloor(x: int, y: int, M: int, P: int, d: int, e: int)
    requires 0 < y && x == -y && 0 < d && 0 < P && 0 <= e && M * d == P + e
    requires y * e <= P && (0 < e || y < d)
    ensures (x * M) / P == -(y / d) - 1
  {
    var q := y / d;
    NegativeBounds(y, P, d, e, q);
    Negate(y, P, e, x);
    NegateProduct(q + 1, d, P);
    NegateProduct(q, d, P);
    ScaledFloor(x, M, P, d, e, -(q + 1));
  }

  lemma Negate(y: int, P: int, e: int, x: int)
    requires x == -y
    ensures x * P + x * e == -(y * P + y * e)
  {
  }

  lemma NegativeBounds(y: int, P: int, d: int, e: int, q: int)
    requires 0 < y && 0 < d && 0 < P && 0 <= e && q == y / d
    requires y * e <= P && (0 < e || y < d)
    ensures (q * d) * P < y * P + y * e <= ((q + 1) * d) * P
  {
    DivMod(y, d);
    MulDistrib(q, 1, d);
    MulLe(y + 1, (q + 1) * d, P);
    MulDistrib(y, 1, P);
    if 0 < e {
      MulLe(q * d, y, P);
      MulLt(0, y, e);
    } else {
      ModSmall(y, d);
      MulLt(0, y, P);
      assert q * d == 0;
    }
  }

  lemma NegateProduct(a: int, b: int, c: int)
    ensures ((-a) * b) * c == -((a * b) * c)
  {
    assert (-a) * b == -(a * b);
    assert (-(a * b)) * c == -((a * b) * c);
  }

  /** A rounding error of zero and a divisor of 2^(W-1) go together. */
  lemma TopDivisorHasNoError(M: nat, K: nat, W: nat)
    requires 0 < W <= K && IsMagicFor(M, K, Pow2(W - 1))
    ensures M * Pow2(W - 1) == Pow2(K)
  {
    var d, k := Pow2(W - 1), K - (W - 1);
    Pow2Add(k, W - 1);
    var g := Pow2(k);
    assert g * d == Pow2(K);
    MulCancelLt(M - 1, g, d);
    MulCancelLe(g, M, d);
  }

  ghost predicate SignedRewriteExact(M: nat, K: nat, S: nat, W: nat, d: nat)
    requires 0 < d < Pow2(W) && 0 < S <= W
  {
    forall x: int | IsSigned(x, S) :: SignedClosedForm(M, K, x) == SignedQuotientByConstant(x, d, W)
  }

  /** The guard the solver lacks for signed chains on S-bit sources: a rounding
      error of zero needs a divisor beyond the source range, and so does a
      divisor whose W-bit pattern is negative. */
  predicate SignedGuard(M: nat, K: nat, S: nat, W: nat, d: nat)
    requires 0 < S <= W
  {
    && (M * d != Pow2(K) || Pow2(S - 1) < d)
    && (d <= Pow2(W - 1) || Pow2(S - 1) < Pow2(W) - d)
  }

  /** A signed chain that the solver accepts equals its sdiv on every S-bit
      dividend exactly when SignedGuard holds. */
  lemma SignedRewriteExactly(M: nat, K: nat, S: nat, W: nat, d: nat)
    requires 2 <= S <= W && Accepts(M, K, S - 1, W, false, d)
    ensures SignedRewriteExact(M, K, S, W, d) <==> SignedGuard(M, K, S, W, d)
  {
    if SignedGuard(M, K, S, W, d) {
      forall x: int | IsSigned(x, S)
        ensures SignedClosedForm(M, K, x) == SignedQuotientByConstant(x, d, W)
      {
        SignedPoint(M, K, S, W, d, x);
      }
    } else {
      var x := if M * d == Pow2(K) && d <= Pow2(S - 1) then -(d as int) else -(Pow2(W) - d as int);
      SignedFailure(M, K, S, W, d, x);
      assert IsSigned(x, S) && SignedClosedForm(M, K, x) != SignedQuotientByConstant(x, d, W);
    }
  }

  lemma SignedPoint(M: nat, K: nat, S: nat, W: nat, d: nat, x: int)
    requires 2 <= S <= W && Accepts(M, K, S - 1, W, false, d) && SignedGuard(M, K, S, W, d)
    requires IsSigned(x, S)
    ensures SignedClosedForm(M, K, x) == SignedQuotientByConstant(x, d, W)
  {
    var H, y := Pow2(W - 1), if x < 0 then -x else x;
    Pow2Le(S - 1, W - 1);
    if d == H { TopDivisorHasNoError(M, K, W); }
    if x >= 0 {
      UnsignedQuotient(M, K, S - 1, d, x);
    } else {
      NegativeQuotient(M, K, S - 1, d, x);
    }
    if d >= H {
      ModSmall(y, d);
      ModSmall(y, Pow2(W) - d);
    }
  }

  lemma SignedFailure(M: nat, K: nat, S: nat, W: nat, d: nat, x: int)
    requires 2 <= S <= W && Accepts(M, K, S - 1, W, false, d)
    requires || (M * d == Pow2(K) && d <= Pow2(S - 1) && x == -(d as int))
             || (Pow2(W - 1) < d && Pow2(W) - d <= Pow2(S - 1) && x == -(Pow2(W) - d as int))
    ensures IsSigned(x, S)
    ensures SignedClosedForm(M, K, x) != SignedQuotientByConstant(x, d, W)
  {
    var y: nat := -x;
    Pow2Le(S - 1, W - 1);
    DivUnique(y, y, 1);
    if M * d == Pow2(K) && d <= Pow2(S - 1) && y == d {
      ExactMultiple(M, Pow2(K), d, x);
    } else {
      NegativeQuotient(M, K, S - 1, d, x);
      ModSmall(y, d);
    }
  }

  lemma ExactMultiple(M: int, P: int, d: int, x: int)
    requires 0 < P && M * d == P && x == -d
    ensures (x * M) / P == -1
  {
    assert x * M == -(M * d);
    DivUnique(x * M, P, -1);
  }

  /** For a full-width dividend the guard reads: M is not a power of two and d
      is a positive sdiv operand. */
  lemma FullWidthSignedGuard(M: nat, K: nat, W: nat, d: nat)
    requires 2 <= W && Accepts(M, K, W - 1, W, false, d)
    ensures SignedGuard(M, K, W, W, d) <==> M * d != Pow2(K) && d < Pow2(W - 1)
  {
    if d == Pow2(W - 1) { TopDivisorHasNoError(M, K, W); }
  }

  /** 2^31 as a 32-bit magic with K = 33 is accepted as d = 4, but the chain
      sends -4 to 0. */
  lemma PowerOfTwoMagicFails()
    ensures SolveMagicDivisor(0x8000_0000, 33, 31, 32, false) == Some(4)
    ensures SignedClosedForm(0x8000_0000, 33, -4) == 0 && TruncDiv(-4, 4) == -1
  {
    Pow2Values();
    SolverDecides(0x8000_0000, 33, 31, 32, false, 4);
  }

  /** 3 with K = 33 is accepted as a divisor whose 32-bit pattern is negative. */
  lemma NegativeDivisorFails()
    ensures SolveMagicDivisor(3, 33, 31, 32, false) == Some(2863311531)
    ensures SignedClosedForm(3, 33, 0x7fff_ffff) == 0
    ensures TruncDiv(0x7fff_ffff, 2863311531 - 0x1_0000_0000) == -1
  {
    Pow2Values();
    SolverDecides(3, 33, 31, 32, false, 2863311531);
  }

  // ----- unsigned division with an add correction --------------------------------

  /** The solver's worst-error probe, in its wrapping arithmetic. */
  function ApWorstError(w: nat, q: int, r: int, error: int, magic: int, highShift: nat): nat {
    ApAdd(w, r, ApAdd(w, ApMul(w, q, error), ApMul(w, r, magic)) / Pow2(highShift))
  }

  /** The larger of the solver's probes at the last step and the one below it. */
  function ApWorstCorner(w: nat, top: int, divisor: int, error: int, magic: int, highShift: nat): int
    requires 0 < divisor
  {
    var qMax := top / divisor;
    var rMax := ApSub(w, top, ApMul(w, qMax, divisor));
    var worst := ApWorstError(w, qMax, rMax, error, magic, highShift);
    var other := if qMax == 0 then worst
                 else ApWorstError(w, ApSub(w, qMax, 1), ApSub(w, divisor, 1), error, magic, highShift);
    if worst < other then other else worst
  }

  /** solveUnsignedAddMagicDivisor, in the solver's own wrapping arithmetic. */
  function SolveUnsignedAddMagicDivisor(magic: nat, highShift: nat, extraShift: nat, inputBits: nat,
                                        valueWidth: nat): Option<nat>
  {
    if magic == 0 || valueWidth == 0 || valueWidth > 64 || magic >= Pow2(valueWidth) ||
       inputBits == 0 || inputBits > valueWidth || highShift < valueWidth ||
       highShift > 2 * valueWidth || extraShift == 0 || extraShift > valueWidth then
      None
    else
      var width := 2 * valueWidth + inputBits + extraShift + 8;
      var powerOfTwo := Pow2(highShift);
      var divisor := ApCandidate(width, powerOfTwo, magic);
      if divisor < 3 || divisor >= Pow2(valueWidth) then
        None
      else
        var product := ApMul(width, magic, divisor);
        var previous := ApMul(width, ApSub(width, magic, 1), divisor);
        if product < powerOfTwo || previous >= powerOfTwo then
          None
        else
          var error := ApSub(width, product, powerOfTwo);
          var limit := Pow2(extraShift);
          var top := ApSub(width, Pow2(inputBits) - 1, 1);
          if ApWorstCorner(width, top, divisor, error, magic, highShift) >= limit then None else Some(divisor)
  }

  /** E(q, r) = r + floor((q*e + r*M) / 2^N), the amount by which x + h exceeds
      q*(d + 1) when x = q*d + r and h = floor(x*M / 2^N). */
  function Excess(M: int, N: nat, e: int, q: int, r: int): int {
    r + (q * e + r * M) / Pow2(N)
  }

  function ExcessAt(M: int, N: nat, e: int, d: nat, x: nat): int
    requires 0 < d
  {
    Excess(M, N, e, x / d, x % d)
  }

  ghost predicate ExcessBelow(M: int, N: nat, e: int, d: nat, X: int, limit: int)
    requires 0 < d
  {
    forall x: nat | x <= X :: ExcessAt(M, N, e, d, x) < limit
  }

  predicate AddSolverInput(M: nat, N: nat, extra: nat, L: nat, W: nat) {
    0 < W <= 64 && 0 < M < Pow2(W) && 0 < L <= W && W <= N <= 2 * W && 0 < extra <= W
  }

  /** The solver's verdict: every x up to 2^L - 2 keeps its excess below 2^extra. */
  ghost predicate AddAccepts(M: nat, N: nat, extra: nat, L: nat, W: nat, d: nat) {
    && AddSolverInput(M, N, extra, L, W)
    && IsCandidate(M, N, W, d)
    && ExcessBelow(M, N, M * d - Pow2(N), d, Pow2(L) - 2, Pow2(extra))
  }

  lemma ExcessMono(M: nat, N: nat, e: nat, q: int, r: int, q': int, r': int)
    requires q <= q' && r <= r'
    ensures Excess(M, N, e, q, r) <= Excess(M, N, e, q', r')
  {
    MulLe(q, q', e);
    MulLe(r, r', M);
    DivMono(q * e + r * M, q' * e + r' * M, Pow2(N));
  }

  /** The larger of the two corners of the staircase q*d + r <= X. */
  function CornerExcess(M: int, N: nat, e: int, d: nat, X: int): int
    requires 0 < d
  {
    var worst := Excess(M, N, e, X / d, X % d);
    var other := if X / d == 0 then worst else Excess(M, N, e, X / d - 1, d - 1);
    if worst < other then other else worst
  }

  /** The excess over the staircase is largest at one of its two corners, and
      both corners lie on the staircase. */
  lemma CornersBoundStaircase(M: nat, N: nat, e: nat, d: nat, X: nat)
    requires 0 < d
    ensures forall x: nat | x <= X :: ExcessAt(M, N, e, d, x) <= CornerExcess(M, N, e, d, X)
    ensures exists x: nat :: x <= X && ExcessAt(M, N, e, d, x) == CornerExcess(M, N, e, d, X)
  {
    forall x: nat | x <= X
      ensures ExcessAt(M, N, e, d, x) <= CornerExcess(M, N, e, d, X)
    {
      BelowCorners(M, N, e, d, X, x);
    }
    var x := CornerWitness(M, N, e, d, X);
  }

  lemma BelowCorners(M: nat, N: nat, e: nat, d: nat, X: nat, x: nat)
    requires 0 < d && x <= X
    ensures ExcessAt(M, N, e, d, x) <= CornerExcess(M, N, e, d, X)
  {
    var q, r, qMax, rMax := x / d, x % d, X / d, X % d;
    assert q < qMax || (q == qMax && r <= rMax) by {
      DivMod(x, d);
      DivMod(X, d);
      DivMono(x, X, d);
    }
    if q == qMax {
      ExcessMono(M, N, e, q, r, qMax, rMax);
    } else {
      assert 0 <= q by { DivMono(0, x, d); ModSmall(0, d); }
      ExcessMono(M, N, e, q, r, qMax - 1, d - 1);
    }
  }

  lemma CornerWitness(M: nat, N: nat, e: nat, d: nat, X: nat) returns (x: nat)
    requires 0 < d
    ensures x <= X && ExcessAt(M, N, e, d, x) == CornerExcess(M, N, e, d, X)
  {
    x := X;
    var qMax := X / d;
    assert 0 <= qMax by { DivMono(0, X, d); ModSmall(0, d); }
    if qMax > 0 && ExcessAt(M, N, e, d, X) != CornerExcess(M, N, e, d, X) {
      x := StepBelow(X, d, qMax);
    }
  }

  lemma StepBelow(X: nat, d: nat, q: nat) returns (x: nat)
    requires 0 < d && q == X / d && 0 < q
    ensures x <= X && x / d == q - 1 && x % d == d - 1
  {
    DivMod(X, d);
    MulLe(1, q, d);
    MulDistrib(q, -1, d);
    x := q * d - 1;
    DivUnique(x, d, q - 1);
  }

  lemma WorstErrorExact(w: nat, W: nat, q: nat, r: nat, e: nat, M: nat, N: nat)
    requires q < Pow2(W) && r < Pow2(W) && e < Pow2(W) && M < Pow2(W) && 2 * W + 2 <= w
    ensures ApWorstError(w, q, r, e, M, N) == Excess(M, N, e, q, r)
  {
    hide Pow2, Wrap;
    var a, b := q * e, r * M;
    WordProduct(q, e, W);
    WordProduct(r, M, W);
    assert ApMul(w, q, e) == Wrap(a, w) && ApMul(w, r, M) == Wrap(b, w);
    hide ApMul;
    SumOfProductsExact(w, W, a, b, r, N);
  }

  lemma SumOfProductsExact(w: nat, W: nat, a: int, b: int, r: nat, N: nat)
    requires 0 <= a < Pow2(2 * W) && 0 <= b < Pow2(2 * W) && r < Pow2(W) && 2 * W + 2 <= w
    ensures Wrap(r + Wrap(Wrap(a, w) + Wrap(b, w), w) / Pow2(N), w) == r + (a + b) / Pow2(N)
  {
    assert Pow2(2 * W + 2) == 4 * Pow2(2 * W);
    Pow2Le(W, 2 * W);
    hide Pow2, Wrap;
    ShiftShrinks(a + b, Pow2(N));
    WrapSmall(a, 2 * W, w);
    WrapSmall(b, 2 * W, w);
    WrapSmall(a + b, 2 * W + 2, w);
    WrapSmall(r + (a + b) / Pow2(N), 2 * W + 2, w);
  }

  lemma WordProduct(a: nat, b: nat, W: nat)
    requires a < Pow2(W) && b < Pow2(W)
    ensures 0 <= a * b < Pow2(2 * W)
  {
    hide *;
    Pow2Add(W, W);
    ProductBelow(a, Pow2(W), b, Pow2(W));
    MulLe(0, a, b);
  }

  /** No intermediate of the solver wraps, and its two probes decide the whole
      dividend range up to 2^L - 2. */
  lemma AddSolverDecides(M: nat, N: nat, extra: nat, L: nat, W: nat, d: nat)
    ensures SolveUnsignedAddMagicDivisor(M, N, extra, L, W) == Some(d) <==> AddAccepts(M, N, extra, L, W, d)
  {
    if AddSolverInput(M, N, extra, L, W) {
      AddSolverValue(M, N, extra, L, W, d);
      AddVerdict(M, N, extra, L, W, d);
    }
  }

  predicate CornersFit(M: nat, N: nat, extra: nat, L: nat, d: nat)
    requires 0 < d
  {
    CornerExcess(M, N, M * d - Pow2(N), d, Pow2(L) - 2) < Pow2(extra)
  }

  lemma AddSolverValue(M: nat, N: nat, extra: nat, L: nat, W: nat, d: nat)
    requires AddSolverInput(M, N, extra, L, W)
    ensures SolveUnsignedAddMagicDivisor(M, N, extra, L, W) == Some(d) <==>
              IsCandidate(M, N, W, d) && CornersFit(M, N, extra, L, d)
  {
    var width := 2 * W + L + extra + 8;
    CandidateNoWrap(M, N, width);
    CandidateDecides(M, N, W, d);
    if d == Candidate(M, Pow2(N)) && 3 <= d < Pow2(W) {
      AddSolverAt(M, N, extra, L, W, d);
    } else {
      hide Pow2, IsCandidate, Candidate, ApCandidate, Wrap, ApAdd, ApMul, ApSub, ApWorstCorner;
      assert SolveUnsignedAddMagicDivisor(M, N, extra, L, W) != Some(d);
    }
  }

  lemma AddSolverAt(M: nat, N: nat, extra: nat, L: nat, W: nat, d: nat)
    requires AddSolverInput(M, N, extra, L, W) && 3 <= d < Pow2(W)
    requires d == Candidate(M, Pow2(N))
    ensures SolveUnsignedAddMagicDivisor(M, N, extra, L, W) ==
            if (M - 1) * d < Pow2(N) && CornersFit(M, N, extra, L, d) then Some(d) else None
  {
    hide Pow2, Candidate, ApCandidate, Wrap, ApAdd, ApMul, ApSub, ApWorstCorner, CornerExcess;
    var width := 2 * W + L + extra + 8;
    CandidateNoWrap(M, N, width);
    CandidateIsCeiling(M, Pow2(N), d);
    AddErrorExact(M, N, W, d, width);
    AddProbesExact(M, N, L, W, d, width);
    assert d * M == M * d;
  }

  lemma AddErrorExact(M: nat, N: nat, W: nat, c: nat, width: nat)
    requires 0 < M < Pow2(W) && 3 <= c < Pow2(W) && 0 < W && 2 * W + 8 <= width
    requires (c - 1) * M < Pow2(N) <= c * M
    ensures ApMul(width, M, c) == M * c
    ensures ApMul(width, ApSub(width, M, 1), c) == (M - 1) * c
    ensures ApSub(width, M * c, Pow2(N)) == M * c - Pow2(N)
  {
    hide Pow2, ApMul, ApSub;
    assert c * M == M * c;
    NoWrap(M, N, 1, W, c, M * c - Pow2(N), width);
  }

  lemma AddProbesExact(M: nat, N: nat, L: nat, W: nat, c: nat, width: nat)
    requires 0 < M < Pow2(W) && 3 <= c < Pow2(W) && 0 < L <= W && 2 * W + 8 <= width
    requires (c - 1) * M < Pow2(N) <= c * M
    ensures ApSub(width, Pow2(L) - 1, 1) == Pow2(L) - 2
    ensures ApWorstCorner(width, Pow2(L) - 2, c, M * c - Pow2(N), M, N)
         == CornerExcess(M, N, M * c - Pow2(N), c, Pow2(L) - 2)
  {
    assert Pow2(1) == 2;
    hide Pow2, ApMul, ApSub, ApWorstError, Excess;
    assert c * M == M * c;
    var e := M * c - Pow2(N);
    assert e < Pow2(W) by { MulDistrib(c, -1, M); }
    Pow2Le(1, L);
    Pow2Le(L, W);
    QuotientNonNegative(Pow2(L) - 2, c);
    ProbesExact(M, N, e, W, c, Pow2(L) - 2, width, Pow2(L));
  }

  lemma AddVerdict(M: nat, N: nat, extra: nat, L: nat, W: nat, d: nat)
    requires AddSolverInput(M, N, extra, L, W)
    ensures AddAccepts(M, N, extra, L, W, d) <==> IsCandidate(M, N, W, d) && CornersFit(M, N, extra, L, d)
  {
    if IsCandidate(M, N, W, d) {
      Pow2Le(1, L);
      ExcessBelowAtCorners(M, N, M * d - Pow2(N), d, Pow2(L) - 2, Pow2(extra));
    }
  }

  lemma ExcessBelowAtCorners(M: nat, N: nat, e: nat, d: nat, X: nat, limit: int)
    requires 0 < d
    ensures ExcessBelow(M, N, e, d, X, limit) <==> CornerExcess(M, N, e, d, X) < limit
  {
    hide Excess, ExcessAt, CornerExcess;
    CornersBoundStaircase(M, N, e, d, X);
  }

  lemma ProbesExact(M: nat, N: nat, e: nat, W: nat, c: nat, X: nat, w: nat, A: nat)
    requires 0 < c < Pow2(W) && M < Pow2(W) && e < Pow2(W) && 2 * W + 8 <= w
    requires 2 <= A <= Pow2(W) && X == A - 2
    ensures ApSub(w, A - 1, 1) == X
    ensures ApSub(w, X, ApMul(w, X / c, c)) == X % c
    ensures ApWorstError(w, X / c, X % c, e, M, N) == Excess(M, N, e, X / c, X % c)
    ensures 0 < X / c ==>
              && ApSub(w, X / c, 1) == X / c - 1
              && ApSub(w, c, 1) == c - 1
              && ApWorstError(w, X / c - 1, c - 1, e, M, N) == Excess(M, N, e, X / c - 1, c - 1)
  {
    var q := X / c;
    DivMod(X, c);
    ShiftShrinks(X, c);
    MulLe(0, q, c);
    WrapSmall(X, W, w);
    WrapSmall(q * c, W, w);
    WrapSmall(X % c, W, w);
    WorstErrorExact(w, W, q, X % c, e, M, N);
    if 0 < q {
      WrapSmall(q - 1, W, w);
      WrapSmall(c - 1, W, w);
      WorstErrorExact(w, W, q - 1, c - 1, e, M, N);
    }
  }

  // ----- when the add-correction chain is exact -------------------------------------

  /** What the chain ((x - h) >> 1) + h) >> s computes, with extra = s + 1. */
  function AddClosedForm(M: nat, N: nat, extra: nat, x: nat): int {
    (x + (x * M) / Pow2(N)) / Pow2(extra)
  }

  /** x + h = q*(d + 1) + E(q, r). */
  lemma SumDecomposes(M: nat, N: nat, d: nat, x: nat)
    requires IsMagicFor(M, N, d)
    ensures x + (x * M) / Pow2(N) == (x / d) * (d + 1) + ExcessAt(M, N, M * d - Pow2(N), d, x)
  {
    DivMod(x, d);
    HighPart(M, Pow2(N), d, M * d - Pow2(N), x / d, x % d, x);
    assert (x / d) * (d + 1) == (x / d) * d + x / d;
  }

  lemma HighPart(M: int, P: int, d: int, e: int, q: int, r: int, x: int)
    requires 0 < P && M * d == P + e && x == q * d + r
    ensures (x * M) / P == q + (q * e + r * M) / P
  {
    var s := q * e + r * M;
    assert x * M == (q * d) * M + r * M by { MulDistrib(q * d, r, M); }
    assert (q * d) * M == q * P + q * e by {
      MulAssoc(q, d, M);
      assert d * M == P + e;
      assert q * (P + e) == q * P + q * e;
    }
    DivAddMultiple(s, q, P);
  }

  ghost predicate AddRewriteExact(M: nat, N: nat, extra: nat, L: nat, d: nat)
    requires 0 < d
  {
    forall x: nat | x < Pow2(L) :: AddClosedForm(M, N, extra, x) == x / d
  }

  /** An add-correction chain that the solver accepts equals its udiv on every
      dividend below 2^L exactly when d + 1 is the power of two that the final
      shifts divide by, or d lies beyond the dividend range. */
  lemma AddRewriteExactly(M: nat, N: nat, extra: nat, L: nat, W: nat, d: nat)
    requires AddAccepts(M, N, extra, L, W, d)
    ensures AddRewriteExact(M, N, extra, L, d) <==> d + 1 == Pow2(extra) || Pow2(L) <= d
  {
    if d + 1 == Pow2(extra) || Pow2(L) <= d {
      forall x: nat | x < Pow2(L)
        ensures AddClosedForm(M, N, extra, x) == x / d
      {
        if Pow2(L) <= d {
          AddBeyondRange(M, N, extra, L, W, d, x);
        } else {
          AddMatchingShift(M, N, extra, L, W, d, x);
        }
      }
    } else {
      var x := AddFailure(M, N, extra, L, W, d);
      assert x < Pow2(L) && AddClosedForm(M, N, extra, x) != x / d;
    }
  }

  /** Below 2^L - 1 the solver's verdict bounds the excess; the one dividend it
      never probes, 2^L - 1, is covered because the excess never passes r + 1. */
  lemma AddMatchingShift(M: nat, N: nat, extra: nat, L: nat, W: nat, d: nat, x: nat)
    requires AddAccepts(M, N, extra, L, W, d) && d + 1 == Pow2(extra)
    requires x < Pow2(L)
    ensures AddClosedForm(M, N, extra, x) == x / d
  {
    Pow2Le(L, N);
    ExcessStaysBelow(M, N, d, x);
    SumDecomposes(M, N, d, x);
    FloorOfSum(x / d, d + 1, ExcessAt(M, N, M * d - Pow2(N), d, x));
  }

  lemma FloorOfSum(q: int, n: int, s: int)
    requires 0 <= s < n
    ensures (q * n + s) / n == q
  {
    MulDistrib(q, 1, n);
    DivUnique(q * n + s, n, q);
  }

  lemma ExcessStaysBelow(M: nat, N: nat, d: nat, x: nat)
    requires IsMagicFor(M, N, d) && (d - 1) * M < Pow2(N)
    requires x < Pow2(N)
    ensures 0 <= ExcessAt(M, N, M * d - Pow2(N), d, x) <= d
  {
    hide Pow2;
    DivMod(x, d);
    QuotientNonNegative(x, d);
    ExcessAtMostRemainderPlusOne(M, Pow2(N), d, M * d - Pow2(N), x / d, x % d);
  }

  lemma ExcessAtMostRemainderPlusOne(M: int, P: int, d: int, e: int, q: int, r: int)
    requires 0 < d && 0 < M && 0 < P && (M - 1) * d < P && (d - 1) * M < P && M * d == P + e && 0 <= e
    requires 0 <= q && 0 <= r < d && q * d + r < P
    ensures 0 <= (q * e + r * M) / P <= 1
  {
    var a, b := q * e, r * M;
    assert 0 <= a < P by {
      MulDistrib(M, -1, d);
      MulLe(e, d, q);
      assert e * q == q * e && d * q == q * d;
      MulLe(0, q, e);
    }
    assert 0 <= b < P by {
      MulLe(r, d - 1, M);
      MulLe(0, r, M);
    }
    if a + b < P { ModSmall(a + b, P); } else { DivUnique(a + b, P, 1); }
  }

  lemma AddBeyondRange(M: nat, N: nat, extra: nat, L: nat, W: nat, d: nat, x: nat)
    requires AddAccepts(M, N, extra, L, W, d) && Pow2(L) <= d
    requires x < Pow2(L)
    ensures AddClosedForm(M, N, extra, x) == x / d
  {
    assert Pow2(extra) == 2 * Pow2(extra - 1) && Pow2(L) == 2 * Pow2(L - 1);
    SmallDividendExcess(M, N, d, Pow2(L) - 2);
    assert Pow2(L) - 2 < Pow2(extra);
    HighPartVanishes(M, N, d, x);
    ModSmall(x, d);
    ModSmall(x, Pow2(extra));
  }

  /** Below d the excess is the dividend itself. */
  lemma SmallDividendExcess(M: nat, N: nat, d: nat, x: nat)
    requires IsMagicFor(M, N, d) && (d - 1) * M < Pow2(N) && x < d
    ensures ExcessAt(M, N, M * d - Pow2(N), d, x) == x
  {
    SumDecomposes(M, N, d, x);
    HighPartVanishes(M, N, d, x);
    ModSmall(x, d);
  }

  lemma HighPartVanishes(M: nat, N: nat, d: nat, x: nat)
    requires 0 < d && (d - 1) * M < Pow2(N) && x < d
    ensures (x * M) / Pow2(N) == 0
  {
    MulLe(x, d - 1, M);
    MulLe(0, x, M);
    ModSmall(x * M, Pow2(N));
  }

  /** A dividend on which a mismatched chain differs from the division: d when
      the chain divides by too much, 2d - 1 when it divides by d itself. */
  lemma AddFailure(M: nat, N: nat, extra: nat, L: nat, W: nat, d: nat) returns (x: nat)
    requires AddAccepts(M, N, extra, L, W, d)
    requires d < Pow2(L) && d + 1 != Pow2(extra)
    ensures x < Pow2(L) && AddClosedForm(M, N, extra, x) != x / d
  {
    if d + 1 < Pow2(extra) {
      x := d;
      Pow2Le(L, N);
      HighPartOfDivisor(M, Pow2(N), d);
      ModSmall(d + 1, Pow2(extra));
      DivUnique(d, d, 1);
    } else {
      SmallDividendExcess(M, N, d, d - 1);
      assert d == Pow2(extra);
      if L <= extra { Pow2Le(L, extra); } else { Pow2Lt(extra, L); }
      x := 2 * d - 1;
      DivUnique(x, d, 1);
      HighPartAtLeastOne(M, Pow2(N), d, x);
      DivBounds(x + (x * M) / Pow2(N), d, 2);
    }
  }

  lemma HighPartOfDivisor(M: int, P: int, d: int)
    requires 0 < d && 0 < M && d < P && (M - 1) * d < P <= M * d
    ensures (d * M) / P == 1
  {
    MulDistrib(M, -1, d);
    assert d * M == M * d;
    DivUnique(d * M, P, 1);
  }

  lemma HighPartAtLeastOne(M: int, P: int, d: int, x: int)
    requires 0 < d && 0 < M && 0 < P <= M * d && d <= x
    ensures 1 <= (x * M) / P
  {
    MulLe(d, x, M);
    assert d * M == M * d;
    DivBounds(x * M, P, 1);
  }

  /** W = N = 32, magic 858993460 and a final shift of 3: the solver answers 5,
      but the chain divides by 16 and sends 5 to 0. */
  lemma AddCounterexample()
    ensures SolveUnsignedAddMagicDivisor(858993460, 32, 4, 32, 32) == Some(5)
    ensures AddClosedForm(858993460, 32, 4, 5) == 0 != 5 / 5
  {
    Pow2Values();
    assert Pow2(4) == 16;
    var e := 858993460 * 5 - Pow2(32);
    forall x: nat | x <= Pow2(32) - 2
      ensures ExcessAt(858993460, 32, e, 5, x) < 16
    {
      BelowCorners(858993460, 32, e, 5, Pow2(32) - 2, x);
    }
    AddSolverDecides(858993460, 32, 4, 32, 32, 5);
  }
}
