/** Trees that the division matchers recognise and that are not the division they
    are replaced by: one for each thing the matchers do not look at. */
module DivisionInstances {
  import opened Bits
  import opened Wrappers
  import opened ValueTree
  import opened MagicDivision
  import opened DivisionVariants
  import opened DivisionChains
  import opened DivisionRecognition
  import opened DivisionRewrite

  const X := Input(0, 32)

  /** The low 16 bits of X. */
  const LOW := Trunc(16, X)

  function Amount(s: nat): Expr {
    Const(32, s)
  }

  /** The sdiv or udiv of X by d. */
  function Quotient(op: Op, d: nat): Expr {
    Bin(op, X, Const(32, d))
  }

  /** The 64-bit product of sext x with a magic, and its high half. */
  function SignedProduct(view: Expr, magic: nat): Expr {
    Bin(Mul, SExt(64, view), Const(64, magic))
  }

  function HighHalf(product: Expr): Expr {
    Trunc(32, Bin(LShr, product, Const(64, 32)))
  }

  lemma Constants()
    ensures Pow2(2) == 4 && Pow2(3) == 8
    ensures Pow2(31) == 0x8000_0000 && Pow2(32) == 0x1_0000_0000 && Pow2(34) == 0x4_0000_0000
    ensures Pow2(63) == 0x8000_0000_0000_0000 && Pow2(64) == 0x1_0000_0000_0000_0000
  {
    Pow2Values();
    assert Pow2(34) == 2 * Pow2(33);
  }

  /** 0x66666667 with a shift of 34 means 10. */
  lemma TenIsSolved()
    ensures SolveMagicDivisor(0x66666667, 34, 31, 32, false) == Some(10)
  {
    Constants();
    hide Pow2;
    SolverDecides(0x66666667, 34, 31, 32, false, 10);
  }

  const TEN := Chain(X, 0x66666667, 34, 31, 32, true, false, 0, false)

  lemma TenSolves()
    ensures SolveChain(TEN) == Some(10)
  {
    TenIsSolved();
  }

  /** Inputs below 2^31 are read as they are. */
  lemma XValue(env: Env)
    ensures WellFormed(X) && Width(X) == 32 && IsSigned(SignedEval(X, env), 32)
    ensures env(0) < 0x8000_0000 ==> Eval(X, env) == env(0) && SignedEval(X, env) == env(0)
  {
    Constants();
    if env(0) < 0x8000_0000 { WrapSmall(env(0), 32, 32); }
  }

  lemma MinusOneValue(env: Env)
    requires env(0) == 0xffff_ffff
    ensures WellFormed(X) && SignedEval(X, env) == -1
  {
    Constants();
    WrapSmall(env(0), 32, 32);
  }

  lemma SignedRewriteOf(root: Expr, c: Chain, d: nat)
    requires MatchSignedMagicMulChain(root) == Some(c) && SolveChain(c) == Some(d) && c.signed
    ensures RewriteConstantDivision(root) == Some(Bin(SDiv, c.scaled, Const(Width(root), d)))
  {
    hide MatchSignedMagicMulChain, SolveChain;
  }

  // ----- x / -10, the compiler's own sequence --------------------------------------------

  /** (x >> 31) - (high >> 2) */
  function MinusTenth(): Expr {
    Bin(Sub, Bin(AShr, X, Amount(31)), Bin(AShr, HighHalf(SignedProduct(X, 0x66666667)), Amount(2)))
  }

  /** (high >> 2) - (x >> 31), which is x / 10. */
  function Tenth(): Expr {
    Bin(Sub, Bin(AShr, HighHalf(SignedProduct(X, 0x66666667)), Amount(2)), Bin(AShr, X, Amount(31)))
  }

  lemma TenthMatches()
    ensures WellFormed(Tenth()) && Tenth().Bin? && Tenth() == Bin(Sub, Tenth().lhs, Tenth().rhs)
    ensures MinusTenth() == Bin(Sub, Tenth().rhs, Tenth().lhs) && Width(MinusTenth()) == 32 == Width(Tenth().lhs)
    ensures MatchSignedMagicMulChain(Tenth()) == Some(TEN)
    ensures 2 <= Width(Tenth()) && SignedOperands(Tenth()).Some? && VariantOf(Tenth()) == PLAIN
  {
    Constants();
    hide Pow2;
  }

  /** x / -10 is replaced by x / 10. */
  lemma MinusTenthFails(env: Env)
    ensures WellFormed(MinusTenth()) && RewriteConstantDivision(MinusTenth()) == Some(Quotient(SDiv, 10))
    ensures WellFormed(Quotient(SDiv, 10))
    ensures Eval(Quotient(SDiv, 10), env) == Eval(MinusTenth(), env) <==> -10 < SignedEval(X, env) < 10
    ensures env(0) == 10 ==> Eval(Quotient(SDiv, 10), env) != Eval(MinusTenth(), env)
  {
    hide MatchSignedMagicMulChain, SolveChain, Eval, SignedEval, WellFormed, SignedOperands, VariantOf, Pow2;
    hide RewriteConstantDivision, Tenth, MinusTenth, Width;
    TenthMatches();
    TenSolves();
    Constants();
    XValue(env);
    var a, b := Tenth().lhs, Tenth().rhs;
    SubtractionOrderIsIgnored(a, b, env);
    SwappedSubtractionExactly(a, b, 10, env);
    SignedRewriteOf(MinusTenth(), TEN, 10);
  }

  // ----- a second arithmetic shift ---------------------------------------------------------

  /** ((product >> 34) >> 1) + [x < 0], which is x / 20. */
  function Twentieth(): Expr {
    Bin(Add, Bin(AShr, Trunc(32, Bin(AShr, SignedProduct(X, 0x66666667), Const(64, 34))), Amount(1)),
             Bin(LShr, X, Amount(31)))
  }

  lemma TwentiethMatches()
    ensures WellFormed(Twentieth()) && Twentieth().Bin? && Width(Twentieth()) == 32
    ensures MatchSignedMagicMulChain(Twentieth()) == Some(TEN)
    ensures SignedOperands(Twentieth()).Some? && VariantOf(Twentieth()) == SignedVariant(1, false, false)
  {
    Constants();
    hide Pow2;
  }

  /** x / 20 is replaced by x / 10. */
  lemma TwentiethFails(env: Env)
    ensures WellFormed(Twentieth()) && RewriteConstantDivision(Twentieth()) == Some(Quotient(SDiv, 10))
    ensures WellFormed(Quotient(SDiv, 10))
    ensures Eval(Quotient(SDiv, 10), env) == Eval(Twentieth(), env) <==> -10 < SignedEval(X, env) < 10
    ensures env(0) == 10 ==> Eval(Quotient(SDiv, 10), env) != Eval(Twentieth(), env)
  {
    hide MatchSignedMagicMulChain, SolveChain, Eval, SignedEval, WellFormed, SignedOperands, VariantOf, Pow2;
    hide RewriteConstantDivision, Twentieth, Width;
    TwentiethMatches();
    TenSolves();
    Constants();
    XValue(env);
    SecondShiftExactly(Twentieth(), 10, env);
    SignedRewriteOf(Twentieth(), TEN, 10);
  }

  // ----- a logical sign bit in a subtraction -----------------------------------------------

  /** (high >> 2) - (product >>> 63), one less than the floor for negative x. */
  function TenthLessSign(): Expr {
    Bin(Sub, Bin(AShr, HighHalf(SignedProduct(X, 0x66666667)), Amount(2)),
             Trunc(32, Bin(LShr, SignedProduct(X, 0x66666667), Const(64, 63))))
  }

  lemma TenthLessSignMatches()
    ensures WellFormed(TenthLessSign()) && TenthLessSign().Bin? && Width(TenthLessSign()) == 32
    ensures MatchSignedMagicMulChain(TenthLessSign()) == Some(TEN)
    ensures SignedOperands(TenthLessSign()).Some? && SignedBase(TenthLessSign()).Trunc?
    ensures VariantOf(TenthLessSign()) == SignedVariant(0, false, true)
  {
    Constants();
    hide Pow2;
  }

  /** The subtraction of the sign bit is replaced by x / 10. */
  lemma TenthLessSignFails(env: Env)
    ensures WellFormed(TenthLessSign()) && RewriteConstantDivision(TenthLessSign()) == Some(Quotient(SDiv, 10))
    ensures WellFormed(Quotient(SDiv, 10))
    ensures Eval(Quotient(SDiv, 10), env) == Eval(TenthLessSign(), env) <==> 0 <= SignedEval(X, env)
    ensures env(0) == 0xffff_ffff ==> Eval(Quotient(SDiv, 10), env) != Eval(TenthLessSign(), env)
  {
    hide MatchSignedMagicMulChain, SolveChain, Eval, SignedEval, WellFormed, SignedOperands, VariantOf, Pow2;
    hide RewriteConstantDivision, TenthLessSign, Width, SignedBase;
    TenthLessSignMatches();
    TenSolves();
    Constants();
    if env(0) == 0xffff_ffff { MinusOneValue(env); }
    LogicalSignExactly(TenthLessSign(), 10, env);
    SignedRewriteOf(TenthLessSign(), TEN, 10);
  }

  // ----- the +x form -------------------------------------------------------------------------

  /** 0x92492493 with a shift of 34 means 7. */
  const SEVEN := Chain(X, 0x92492493, 34, 31, 32, true, false, 0, false)

  lemma SevenSolves()
    ensures SolveChain(SEVEN) == Some(7)
  {
    Constants();
    hide Pow2;
    SolverDecides(0x92492493, 34, 31, 32, false, 7);
  }

  /** ((high + x) >> 2) + [high + x < 0]. */
  function PlusXRootOf(view: Expr, magic: nat): Expr {
    var sum := Bin(Add, HighHalf(SignedProduct(view, magic)), X);
    Bin(Add, Bin(AShr, sum, Amount(2)), Bin(LShr, sum, Amount(31)))
  }

  /** 0x92492493 - 2^33, a magic below -2^32, as a 64-bit pattern. */
  const DEEP := 0xffff_fffe_9249_2493

  /** 0x92492493 - 2^32, the magic a compiler emits. */
  const SHALLOW := 0xffff_ffff_9249_2493

  /** The pieces of such a root. */
  lemma PlusXPieces(view: Expr, magic: nat)
    requires WellFormed(view) && 0 < Width(view) <= 32 && magic < Pow2(64)
    ensures var root := PlusXRootOf(view, magic); var sum := Bin(Add, HighHalf(SignedProduct(view, magic)), X);
      && WellFormed(root) && root.Bin? && Width(root) == 32 && !sum.Trunc?
      && SignedOperands(root) == Some((Bin(AShr, sum, Amount(2)), Bin(LShr, sum, Amount(31))))
      && SignedBase(root) == sum && OuterShiftAmount(root) == 2
  {
    Constants();
    hide Pow2;
    var product := SignedProduct(view, magic);
    var sum := Bin(Add, HighHalf(product), X);
    assert WellFormed(product.lhs) && WellFormed(product.rhs) && Width(product.lhs) == Width(product.rhs) == 64;
    assert WellFormed(product) && Width(product) == 64;
    assert WellFormed(HighHalf(product).arg) && Width(HighHalf(product).arg) == 64;
    assert WellFormed(X) && Width(X) == 32 && Width(HighHalf(product)) == 32;
    assert WellFormed(HighHalf(product)) && WellFormed(sum) && Width(sum) == 32;
    assert WellFormed(Bin(AShr, sum, Amount(2))) && WellFormed(Bin(LShr, sum, Amount(31)));
  }

  lemma DeepMatches()
    ensures MatchSignedMagicMulChain(PlusXRootOf(X, DEEP)) == Some(SEVEN)
    ensures var root := PlusXRootOf(X, DEEP);
      && root.Bin? && 2 <= Width(root) && SignedOperands(root).Some?
      && PlusXProduct(SignedBase(root), 32) == Some(Product(X, DEEP, true, 32))
  {
    Constants();
    hide Pow2;
  }

  lemma NarrowViewMatches()
    ensures MatchSignedMagicMulChain(PlusXRootOf(LOW, SHALLOW)) == Some(SEVEN)
    ensures var root := PlusXRootOf(LOW, SHALLOW);
      && root.Bin? && 2 <= Width(root) && SignedOperands(root).Some?
      && PlusXProduct(SignedBase(root), 32) == Some(Product(LOW, SHALLOW, true, 16))
  {
    Constants();
    hide Pow2;
  }

  lemma SevenRewrites(root: Expr, view: Expr, magic: nat, bits: nat, env: Env)
    requires WellFormed(root) && root.Bin? && Width(root) == 32 && MatchSignedMagicMulChain(root) == Some(SEVEN)
    requires SignedOperands(root).Some? && !SignedBase(root).Trunc? && OuterShiftAmount(root) == 2
    requires PlusXProduct(SignedBase(root), 32) == Some(Product(view, magic, true, bits)) && WellFormed(view)
    ensures RewriteConstantDivision(root) == Some(Quotient(SDiv, 7)) && WellFormed(Quotient(SDiv, 7))
    ensures WellFormed(X) && IsWord(magic, 64) && 7 < Pow2(32)
    ensures Eval(Quotient(SDiv, 7), env) == Eval(root, env)
        <==> RoundsTo(PlusXSum(SignedEval(X, env), SignedEval(view, env), ToSigned(magic, 64), 32), 2,
                      SignedQuotientByConstant(SignedEval(X, env), 7, 32))
  {
    hide MatchSignedMagicMulChain, SolveChain, Eval, SignedEval, WellFormed, RewriteConstantDivision, Width;
    hide SignedOperands, SignedBase, OuterShiftAmount, PlusXProduct, PlusXSum, RoundsTo, SignedQuotientByConstant;
    hide ToSigned, Pow2, Accepts;
    SevenSolves();
    SignedRewriteOf(root, SEVEN, 7);
    SignedTypes(root, 7);
    SignedRootExactly(root, 7, env);
  }

  /** With the magic below -2^32 the root is 0 wherever it is not the wrong sign: it
      is x / 7 only below 7 in magnitude. */
  lemma DeepMagicFails(env: Env)
    ensures var root := PlusXRootOf(X, DEEP);
      && WellFormed(root) && RewriteConstantDivision(root) == Some(Quotient(SDiv, 7))
      && WellFormed(Quotient(SDiv, 7)) && WellFormed(X)
      && (Eval(Quotient(SDiv, 7), env) == Eval(root, env) <==> -7 < SignedEval(X, env) < 7)
  {
    hide MatchSignedMagicMulChain, SolveChain, Eval, SignedEval, WellFormed, RewriteConstantDivision, Width;
    hide SignedOperands, SignedBase, OuterShiftAmount, PlusXProduct, PlusXSum, RoundsTo, SignedQuotientByConstant;
    hide PlusXRootOf, Pow2, ToSigned;
    XValue(env);
    Constants();
    DeepMatches();
    PlusXPieces(X, DEEP);
    SevenRewrites(PlusXRootOf(X, DEEP), X, DEEP, 32, env);
    DeepSum(SignedEval(X, env));
  }

  lemma DeepSum(x: int)
    requires IsSigned(x, 32)
    ensures IsWord(DEEP, 64) && 7 < Pow2(32)
    ensures RoundsTo(PlusXSum(x, x, ToSigned(DEEP, 64), 32), 2, SignedQuotientByConstant(x, 7, 32)) <==> -7 < x < 7
  {
    hide PlusXSum, RoundsTo, SignedQuotientByConstant;
    Constants();
    DeepRange(x);
    PlusXBelow(x, 0x92492493, 2, 2, 32, 7);
  }

  lemma DeepRange(x: int)
    requires IsSigned(x, 32)
    ensures IsWord(DEEP, 64) && ToSigned(DEEP, 64) == 0x92492493 - 2 * Pow2(32)
    ensures 0x92492493 < Pow2(32) && IsSigned(ShiftedProduct(x, 0x92492493, 32) - x, 32)
    ensures -7 < x < 7 ==> RoundsTo(ShiftedProduct(x, 0x92492493, 32) - x, 2, 0)
  {
    Constants();
    hide Pow2;
  }

  lemma LowValue(env: Env)
    ensures WellFormed(LOW) && Width(LOW) == 16 && WellFormed(X)
    ensures Eval(LOW, env) == Eval(X, env) % 0x1_0000
    ensures var x, y := SignedEval(X, env), SignedEval(LOW, env);
      -0x8000 <= y < 0x8000 && (x - y) % 0x1_0000 == 0
  {
    Pow2Values();
    assert Pow2(15) == 0x8000 && Pow2(16) == 0x1_0000;
    hide Pow2;
    var v: int := Eval(X, env);
    assert Eval(LOW, env) == v % 0x1_0000;
    assert SignedEval(X, env) == v || SignedEval(X, env) == v - 0x1_0000_0000;
  }

  /** A product of the low half of x only: x / 7 exactly where x fits 16 bits. */
  lemma NarrowViewFails(env: Env)
    ensures var root := PlusXRootOf(LOW, SHALLOW);
      && WellFormed(root) && RewriteConstantDivision(root) == Some(Quotient(SDiv, 7))
      && WellFormed(Quotient(SDiv, 7)) && WellFormed(X)
      && (Eval(Quotient(SDiv, 7), env) == Eval(root, env) <==> -0x8000 <= SignedEval(X, env) < 0x8000)
  {
    hide MatchSignedMagicMulChain, SolveChain, Eval, SignedEval, WellFormed, RewriteConstantDivision, Width;
    hide SignedOperands, SignedBase, OuterShiftAmount, PlusXProduct, PlusXSum, RoundsTo, SignedQuotientByConstant;
    hide PlusXRootOf, Pow2, ToSigned;
    XValue(env);
    Constants();
    LowValue(env);
    NarrowViewMatches();
    PlusXPieces(LOW, SHALLOW);
    SevenRewrites(PlusXRootOf(LOW, SHALLOW), LOW, SHALLOW, 16, env);
    NarrowViewSum(SignedEval(X, env), SignedEval(LOW, env));
  }

  lemma NarrowViewSum(x: int, y: int)
    requires IsSigned(x, 32) && -0x8000 <= y < 0x8000 && (x - y) % 0x1_0000 == 0
    ensures IsWord(SHALLOW, 64) && 7 < Pow2(32)
    ensures RoundsTo(PlusXSum(x, y, ToSigned(SHALLOW, 64), 32), 2, SignedQuotientByConstant(x, 7, 32))
        <==> -0x8000 <= x < 0x8000
  {
    Constants();
    hide Pow2;
    var m, k := 0x92492493 - 0x1_0000_0000, (x - y) / 0x1_0000;
    assert ToSigned(SHALLOW, 64) == m;
    var u := ShiftedProduct(y, m, 32) + x;
    assert x == y + 0x1_0000 * k;
    assert u == (y * m) / 0x1_0000_0000 + x;
    assert IsSigned(u, 32);
    WrapSigned(u, 32);
    assert PlusXSum(x, y, m, 32) == u;
  }

  // ----- the add-correction form -----------------------------------------------------------------

  /** 0x24924925 with a shift of 32 and a correction means 7. */
  const CORRECTED_SEVEN := Chain(X, 0x24924925, 32, 32, 32, false, true, 3, false)

  lemma CorrectedSevenSolves()
    ensures SolveChain(CORRECTED_SEVEN) == Some(7)
  {
    Constants();
    forall x: nat | x <= Pow2(32) - 2
      ensures ExcessAt(0x24924925, 32, 3, 7, x) < 8
    {
      BelowCorners(0x24924925, 32, 3, 7, Pow2(32) - 2, x);
    }
    AddSolverDecides(0x24924925, 32, 3, 32, 32, 7);
  }

  /** The high half of zext(view) times the magic. */
  function UnsignedHigh(view: Expr): Expr {
    Trunc(32, Bin(LShr, Bin(Mul, ZExt(64, view), Const(64, 0x24924925)), Const(64, 32)))
  }

  lemma SwappedCorrectionMatches()
    ensures var root := CorrectionRoot(UnsignedHigh(X), UnsignedHigh(X), X, 2);
      && WellFormed(root) && root.Bin? && Width(root) == 32
      && MatchUnsignedAddMagicMulChain(root) == Some(CORRECTED_SEVEN) && MatchSignedMagicMulChain(root).None?
      && StripWidthRoundTrip(root.lhs).Bin? && AddSwapped(root)
      && AddProduct(root) == Some(Product(X, 0x24924925, false, 32))
  {
    Constants();
    hide Pow2;
  }

  lemma NarrowCorrectionMatches()
    ensures var root := CorrectionRoot(UnsignedHigh(LOW), X, UnsignedHigh(LOW), 2);
      && WellFormed(root) && root.Bin? && Width(root) == 32 && WellFormed(LOW)
      && MatchUnsignedAddMagicMulChain(root) == Some(CORRECTED_SEVEN) && MatchSignedMagicMulChain(root).None?
      && StripWidthRoundTrip(root.lhs).Bin? && !AddSwapped(root)
      && AddProduct(root) == Some(Product(LOW, 0x24924925, false, 16))
  {
    Constants();
    hide Pow2;
  }

  lemma CorrectedSevenRewrites(root: Expr, env: Env)
    requires WellFormed(root) && Width(root) == 32 && MatchSignedMagicMulChain(root).None?
    requires MatchUnsignedAddMagicMulChain(root) == Some(CORRECTED_SEVEN)
    ensures RewriteConstantDivision(root) == Some(Quotient(UDiv, 7)) && WellFormed(Quotient(UDiv, 7))
    ensures SolveChain(MatchUnsignedAddMagicMulChain(root).value) == Some(7)
    ensures Eval(Quotient(UDiv, 7), env) == Eval(root, env) <==> AddRootRight(root, 7, env)
  {
    CorrectedSevenSolves();
    hide MatchSignedMagicMulChain, MatchUnsignedAddMagicMulChain, SolveChain, Eval, WellFormed, AddRootRight, Width;
    AddRootExactly(root, 7, env);
  }

  /** h - x instead of x - h: x / 7 for 0, and for no other dividend below 2^31. */
  lemma SwappedCorrectionFails(env: Env)
    ensures var root := CorrectionRoot(UnsignedHigh(X), UnsignedHigh(X), X, 2);
      && WellFormed(root) && RewriteConstantDivision(root) == Some(Quotient(UDiv, 7))
      && WellFormed(Quotient(UDiv, 7)) && WellFormed(X)
      && (Eval(X, env) < 0x8000_0000 ==>
            (Eval(Quotient(UDiv, 7), env) == Eval(root, env) <==> Eval(X, env) == 0))
  {
    var root := CorrectionRoot(UnsignedHigh(X), UnsignedHigh(X), X, 2);
    SwappedCorrectionMatches();
    CorrectedSevenRewrites(root, env);
    XValue(env);
    hide MatchUnsignedAddMagicMulChain, MatchSignedMagicMulChain, SolveChain, Eval, WellFormed, CorrectionRoot;
    hide AddSwapped, AddProduct, RewriteConstantDivision, AddRight, Width;
    if Eval(X, env) < 0x8000_0000 { SwappedSum(Eval(X, env)); }
  }

  lemma SwappedSum(x: nat)
    requires x < 0x8000_0000
    ensures AddRight(x, ShiftedProduct(x, 0x24924925, 32), 32, true, 2, 7) <==> x == 0
  {
    Constants();
    hide Pow2;
  }

  /** A product of the low half of x only: x / 7 exactly where x fits 16 bits. */
  lemma NarrowCorrectionFails(env: Env)
    ensures var root := CorrectionRoot(UnsignedHigh(LOW), X, UnsignedHigh(LOW), 2);
      && WellFormed(root) && RewriteConstantDivision(root) == Some(Quotient(UDiv, 7))
      && WellFormed(Quotient(UDiv, 7)) && WellFormed(X)
      && (Eval(Quotient(UDiv, 7), env) == Eval(root, env) <==> Eval(X, env) < 0x1_0000)
  {
    var root := CorrectionRoot(UnsignedHigh(LOW), X, UnsignedHigh(LOW), 2);
    NarrowCorrectionMatches();
    CorrectedSevenRewrites(root, env);
    LowValue(env);
    hide MatchUnsignedAddMagicMulChain, MatchSignedMagicMulChain, SolveChain, Eval, WellFormed, CorrectionRoot;
    hide AddSwapped, AddProduct, RewriteConstantDivision, AddRight, Width;
    NarrowSum(Eval(X, env));
  }

  lemma NarrowSum(x: nat)
    ensures AddRight(x, ShiftedProduct(x % 0x1_0000, 0x24924925, 32), 32, false, 2, 7) <==> x < 0x1_0000
  {
    Constants();
    hide Pow2;
  }

  // ----- what compilers emit -----------------------------------------------------------------------

  /** The unsigned 32-bit x / 10: the product with 0xcccccccd, shifted by 32 and by 3. */
  lemma UnsignedTenth()
    ensures var product := Bin(Mul, ZExt(64, X), Const(64, 0xcccccccd));
      RewriteConstantDivision(Bin(LShr, HighHalf(product), Amount(3))) == Some(Quotient(UDiv, 10))
  {
    Constants();
    assert Pow2(35) == 2 * Pow2(34);
    hide Pow2, RewriteConstantDivision;
    PlainIsRewritten(X, 0xcccccccd, 32, 3, false, 10);
  }
}
