/** Replacing a recognised chain by a division: on which inputs of the program the
    replaced value is right, for every shape the matchers recognise. */
module DivisionRewrite {
  import opened Bits
  import opened Wrappers
  import opened ValueTree
  import opened MagicDivision
  import opened DivisionVariants
  import opened DivisionChains

  lemma DivisionValue(scaled: Expr, W: nat, d: nat, env: Env)
    requires WellFormed(scaled) && Width(scaled) == W && 0 < d < Pow2(W)
    ensures WellFormed(Bin(UDiv, scaled, Const(W, d))) && WellFormed(Bin(SDiv, scaled, Const(W, d)))
    ensures Eval(Bin(UDiv, scaled, Const(W, d)), env) == Eval(scaled, env) / d
    ensures Eval(Bin(SDiv, scaled, Const(W, d)), env)
         == Wrap(SignedQuotientByConstant(SignedEval(scaled, env), d, W), W)
  {
    assert WellFormed(Const(W, d)) && Eval(Const(W, d), env) == d;
    assert d >= Pow2(W - 1) ==> ToSigned(d, W) < 0 by { assert Pow2(W) == 2 * Pow2(W - 1); }
  }

  // ----- signed roots -----------------------------------------------------------------

  lemma SignedTypes(root: Expr, d: nat)
    requires WellFormed(root) && MatchSignedMagicMulChain(root).Some?
    requires SolveChain(MatchSignedMagicMulChain(root).value) == Some(d)
    ensures root.Bin? && 2 <= Width(root) && SignedOperands(root).Some?
    ensures var c := MatchSignedMagicMulChain(root).value;
      && c.width == Width(root) && c.signed && WellFormed(c.scaled) && Width(c.scaled) == c.width
      && 0 < c.inputBits < c.width && Accepts(c.magic, c.shift, c.inputBits, c.width, false, d)
      && 0 < c.magic < Pow2(c.width) && 3 <= d < Pow2(c.width)
      && (!SignedBase(root).Trunc? ==>
            var p := PlusXProduct(SignedBase(root), c.width);
            p.Some? && WellFormed(p.value.scaled) && IsWord(p.value.magic, 2 * c.width))
  {
    var c := MatchSignedMagicMulChain(root).value;
    hide *;
    SignedChainKind(root);
    SignedSolver(c, d);
    if SignedBase(root).Trunc? {
      SignedChainValue(root, n => 0);
    } else {
      PlusXChainValue(root, n => 0);
    }
  }

  lemma SignedSolver(c: Chain, d: nat)
    requires !c.addCorrection && !c.narrowProduct && SolveChain(c) == Some(d)
    ensures Accepts(c.magic, c.shift, c.inputBits, c.width, false, d)
    ensures 0 < c.magic < Pow2(c.width) && 0 < c.inputBits && 3 <= d < Pow2(c.width)
  {
    SolverDecides(c.magic, c.shift, c.inputBits, c.width, false, d);
  }

  /** The inputs on which a recognised signed root is the sdiv by d. */
  ghost predicate SignedRight(root: Expr, d: nat, env: Env)
    requires WellFormed(root) && MatchSignedMagicMulChain(root).Some?
    requires SolveChain(MatchSignedMagicMulChain(root).value) == Some(d)
  {
    SignedTypes(root, d);
    var c := MatchSignedMagicMulChain(root).value;
    var x := SignedEval(c.scaled, env);
    if SignedBase(root).Trunc? then
      VariantRight(c.magic, c.shift, c.width, VariantOf(root), d, x)
    else
      RoundsTo(PlusXSumOf(root, d, env), OuterShiftAmount(root), SignedQuotientByConstant(x, d, c.width))
  }

  /** The sum that a +x root rounds. */
  ghost function PlusXSumOf(root: Expr, d: nat, env: Env): int
    requires WellFormed(root) && MatchSignedMagicMulChain(root).Some?
    requires SolveChain(MatchSignedMagicMulChain(root).value) == Some(d)
    requires root.Bin? && 2 <= Width(root) && SignedOperands(root).Some? && !SignedBase(root).Trunc?
  {
    SignedTypes(root, d);
    var c, p := MatchSignedMagicMulChain(root).value, PlusXProduct(SignedBase(root), Width(root)).value;
    PlusXSum(SignedEval(c.scaled, env), SignedEval(p.scaled, env), ToSigned(p.magic, 2 * c.width), c.width)
  }

  lemma VariantRoot(root: Expr, c: Chain, d: nat, env: Env)
    requires WellFormed(root) && MatchSignedMagicMulChain(root) == Some(c) && SolveChain(c) == Some(d)
    requires root.Bin? && 2 <= Width(root) && SignedOperands(root).Some? && SignedBase(root).Trunc?
    ensures WellFormed(c.scaled) && 0 < c.width && 0 < d < Pow2(c.width)
    ensures var q := Bin(SDiv, c.scaled, Const(Width(root), d));
      && WellFormed(q) && Width(q) == Width(root)
      && (Eval(q, env) == Eval(root, env)
          <==> VariantRight(c.magic, c.shift, c.width, VariantOf(root), d, SignedEval(c.scaled, env)))
  {
    hide *;
    SignedTypes(root, d);
    SignedChainValue(root, env);
    DivisionValue(c.scaled, c.width, d, env);
    QuotientWidth(c.scaled, d);
    VariantExactly(c.magic, c.shift, c.inputBits + 1, c.width, VariantOf(root), d, SignedEval(c.scaled, env));
  }

  lemma QuotientWidth(scaled: Expr, d: nat)
    ensures Width(Bin(SDiv, scaled, Const(Width(scaled), d))) == Width(scaled)
    ensures Width(Bin(UDiv, scaled, Const(Width(scaled), d))) == Width(scaled)
  {
  }

  lemma PlusXRootExactly(root: Expr, c: Chain, d: nat, env: Env)
    requires WellFormed(root) && MatchSignedMagicMulChain(root) == Some(c) && SolveChain(c) == Some(d)
    requires root.Bin? && 2 <= Width(root) && SignedOperands(root).Some? && !SignedBase(root).Trunc?
    ensures WellFormed(c.scaled) && 0 < c.width && 0 < d < Pow2(c.width)
    ensures var q := Bin(SDiv, c.scaled, Const(Width(root), d));
      && WellFormed(q) && Width(q) == Width(root)
      && (Eval(q, env) == Eval(root, env)
          <==> RoundsTo(PlusXSumOf(root, d, env), OuterShiftAmount(root),
                        SignedQuotientByConstant(SignedEval(c.scaled, env), d, c.width)))
  {
    hide Eval, SignedEval, WellFormed, Wrap, Pow2, RoundsTo, Rounded, SignedQuotientByConstant, PlusXSum;
    hide MatchSignedMagicMulChain, SolveChain, SignedOperands, OuterShiftAmount, PlusXProduct, SignedBase, ToSigned;
    hide Width, Accepts;
    SignedTypes(root, d);
    PlusXChainValue(root, env);
    DivisionValue(c.scaled, c.width, d, env);
    QuotientWidth(c.scaled, d);
    SignedEvalRange(c.scaled, env);
    RoundingExactly(PlusXSumOf(root, d, env), OuterShiftAmount(root), c.width, d, SignedEval(c.scaled, env));
  }

  lemma SignedEvalRange(e: Expr, env: Env)
    requires WellFormed(e)
    ensures 0 < Width(e) && IsSigned(SignedEval(e, env), Width(e))
  {
  }

  /** A recognised signed root equals the sdiv that replaces it exactly on the
      inputs of SignedRight. */
  lemma SignedRootExactly(root: Expr, d: nat, env: Env)
    requires WellFormed(root) && MatchSignedMagicMulChain(root).Some?
    requires SolveChain(MatchSignedMagicMulChain(root).value) == Some(d)
    ensures var q := Bin(SDiv, MatchSignedMagicMulChain(root).value.scaled, Const(Width(root), d));
      && WellFormed(q) && Width(q) == Width(root)
      && (Eval(q, env) == Eval(root, env) <==> SignedRight(root, d, env))
  {
    hide Eval, SignedEval, WellFormed, Wrap, Pow2, RoundsTo, SignedQuotientByConstant, PlusXSumOf, VariantRight;
    hide MatchSignedMagicMulChain, SolveChain, SignedOperands, OuterShiftAmount, SignedBase, VariantOf, Width, Accepts;
    var c := MatchSignedMagicMulChain(root).value;
    SignedTypes(root, d);
    if SignedBase(root).Trunc? {
      VariantRoot(root, c, d, env);
    } else {
      PlusXRootExactly(root, c, d, env);
    }
  }

  /** A +x root whose product view holds the dividend, and whose magic takes away no
      visible multiple of it, is right exactly where the plain variant is. */
  lemma PlusXViewExactly(root: Expr, d: nat, j: int, env: Env)
    requires WellFormed(root) && MatchSignedMagicMulChain(root).Some?
    requires root.Bin? && 2 <= Width(root) && SignedOperands(root).Some? && !SignedBase(root).Trunc?
    requires SolveChain(MatchSignedMagicMulChain(root).value) == Some(d)
    requires PlusXProduct(SignedBase(root), Width(root)).Some?
    requires var magic := PlusXProduct(SignedBase(root), Width(root)).value.magic;
      IsWord(magic, 2 * Width(root)) &&
      ToSigned(magic, 2 * Width(root)) == MatchSignedMagicMulChain(root).value.magic - j * Pow2(Width(root))
    ensures var c := MatchSignedMagicMulChain(root).value;
      && WellFormed(c.scaled) && 0 < c.width && 0 < d < Pow2(c.width)
      && var x, bits := SignedEval(c.scaled, env), PlusXProduct(SignedBase(root), Width(root)).value.sourceBits;
         0 < bits && IsSigned(x, bits) && Wrap((j - 1) * x, c.width) == 0 ==>
           (SignedRight(root, d, env) <==> VariantRight(c.magic, c.shift, c.width, PLAIN, d, x))
  {
    hide Eval, SignedEval, WellFormed, Wrap, Pow2, RoundsTo, SignedQuotientByConstant, VariantRight, ToSigned, PlusXSum;
    hide MatchSignedMagicMulChain, SolveChain, SignedOperands, OuterShiftAmount, SignedBase, VariantOf, Width, Accepts;
    hide PlusXProduct;
    var c := MatchSignedMagicMulChain(root).value;
    SignedTypes(root, d);
    PlusXChainValue(root, env);
    SignedEvalRange(c.scaled, env);
    var x := SignedEval(c.scaled, env);
    var bits := PlusXProduct(SignedBase(root), Width(root)).value.sourceBits;
    if 0 < bits && IsSigned(x, bits) && Wrap((j - 1) * x, c.width) == 0 {
      PlusXPlain(x, c.magic, j, OuterShiftAmount(root), c.width, d);
    }
  }

  // ----- add-correction roots ------------------------------------------------------------

  lemma AddTypes(root: Expr, d: nat)
    requires WellFormed(root) && MatchUnsignedAddMagicMulChain(root).Some?
    requires SolveChain(MatchUnsignedAddMagicMulChain(root).value) == Some(d)
    ensures root.Bin? && StripWidthRoundTrip(root.lhs).Bin?
    ensures var c, p := MatchUnsignedAddMagicMulChain(root).value, AddProduct(root);
      && c.width == Width(root) <= c.shift && !c.signed && WellFormed(c.scaled) && Width(c.scaled) == c.width
      && AddAccepts(c.magic, c.shift, c.extraShift, c.inputBits, c.width, d)
      && c.magic < Pow2(c.width) && 0 < c.width && 0 < c.extraShift && 3 <= d < Pow2(c.width)
      && p.Some? && WellFormed(p.value.scaled)
  {
    var c := MatchUnsignedAddMagicMulChain(root).value;
    hide *;
    AddChainKind(root);
    AddSolver(c, d);
    AddChainValue(root, n => 0);
  }

  lemma AddSolver(c: Chain, d: nat)
    requires c.addCorrection && SolveChain(c) == Some(d)
    ensures AddAccepts(c.magic, c.shift, c.extraShift, c.inputBits, c.width, d)
    ensures c.magic < Pow2(c.width) && 0 < c.width && 3 <= d < Pow2(c.width)
    ensures (d - 1) * c.magic < Pow2(c.shift) && IsMagicFor(c.magic, c.shift, d)
  {
    AddSolverDecides(c.magic, c.shift, c.extraShift, c.inputBits, c.width, d);
  }

  /** The inputs on which a recognised add-correction root is the udiv by d. */
  ghost predicate AddRootRight(root: Expr, d: nat, env: Env)
    requires WellFormed(root) && MatchUnsignedAddMagicMulChain(root).Some?
    requires SolveChain(MatchUnsignedAddMagicMulChain(root).value) == Some(d)
  {
    AddTypes(root, d);
    var c := MatchUnsignedAddMagicMulChain(root).value;
    var h := ShiftedProduct(Eval(AddProduct(root).value.scaled, env), c.magic, c.shift);
    AddRight(Eval(c.scaled, env), h, c.width, AddSwapped(root), c.extraShift - 1, d)
  }

  /** A recognised add-correction root equals the udiv that replaces it exactly on
      the inputs of AddRootRight. */
  lemma AddRootExactly(root: Expr, d: nat, env: Env)
    requires WellFormed(root) && MatchUnsignedAddMagicMulChain(root).Some?
    requires SolveChain(MatchUnsignedAddMagicMulChain(root).value) == Some(d)
    ensures var q := Bin(UDiv, MatchUnsignedAddMagicMulChain(root).value.scaled, Const(Width(root), d));
      && WellFormed(q) && Width(q) == Width(root)
      && (Eval(q, env) == Eval(root, env) <==> AddRootRight(root, d, env))
  {
    hide Eval, WellFormed, Wrap, Pow2, Shr, ShiftedProduct, AddRight, AddSwapped, AddProduct, StripWidthRoundTrip;
    hide MatchUnsignedAddMagicMulChain, SolveChain, Width, AddAccepts, IsMagicFor;
    var c := MatchUnsignedAddMagicMulChain(root).value;
    AddTypes(root, d);
    AddChainKind(root);
    AddSolver(c, d);
    AddChainValue(root, env);
    var x, y := Eval(c.scaled, env), Eval(AddProduct(root).value.scaled, env);
    ViewAtMost(x, AddProduct(root).value.sourceBits);
    HighHalfSmall(y, c.magic, c.shift, d);
    AddExactly(x, ShiftedProduct(y, c.magic, c.shift), c.width, AddSwapped(root), c.extraShift - 1, d);
    DivisionValue(c.scaled, c.width, d, env);
    QuotientWidth(c.scaled, d);
  }

  lemma ViewAtMost(x: nat, w: nat)
    ensures Wrap(x, w) <= x
  {
    DivMod(x, Pow2(w));
    QuotientNonNegative(x, Pow2(w));
    MulLe(0, x / Pow2(w), Pow2(w));
  }

  lemma HighHalfSmall(y: nat, M: nat, N: nat, d: nat)
    requires 3 <= d && (d - 1) * M < Pow2(N)
    ensures 0 <= 2 * ShiftedProduct(y, M, N) <= y
  {
    HighAtMostHalf(y, M, Pow2(N), d);
  }

  /** x - h with final shifts that fit d: right exactly where the high half of the
      view's product falls short of the quotient by no more than the remainder, as
      it always does for a dividend that fits the view. */
  lemma OrderedAddExactly(root: Expr, d: nat, env: Env)
    requires WellFormed(root) && MatchUnsignedAddMagicMulChain(root).Some?
    requires root.Bin? && StripWidthRoundTrip(root.lhs).Bin? && !AddSwapped(root)
    requires SolveChain(MatchUnsignedAddMagicMulChain(root).value) == Some(d)
    requires d + 1 == Pow2(MatchUnsignedAddMagicMulChain(root).value.extraShift)
    ensures var c, p := MatchUnsignedAddMagicMulChain(root).value, AddProduct(root);
      && WellFormed(c.scaled) && p.Some? && WellFormed(p.value.scaled)
      && var x, y := Eval(c.scaled, env), Eval(p.value.scaled, env);
         && (AddRootRight(root, d, env) <==> x / d <= x % d + ShiftedProduct(y, c.magic, c.shift))
         && (x < Pow2(p.value.sourceBits) ==> AddRootRight(root, d, env))
  {
    hide Eval, WellFormed, Wrap, Pow2, Shr, ShiftedProduct, AddSwapped, AddProduct, StripWidthRoundTrip;
    hide MatchUnsignedAddMagicMulChain, SolveChain, Width, AddAccepts, IsMagicFor, AddRight, AddClosedForm;
    var c := MatchUnsignedAddMagicMulChain(root).value;
    AddTypes(root, d);
    AddChainKind(root);
    AddSolver(c, d);
    AddChainValue(root, env);
    var x, y := Eval(c.scaled, env), Eval(AddProduct(root).value.scaled, env);
    ViewAtMost(x, AddProduct(root).value.sourceBits);
    ShiftedProductMono(y, x, c.magic, c.shift);
    HighHalfSmall(y, c.magic, c.shift, d);
    Pow2Le(c.width, c.shift);
    OrderedRight(c.magic, c.shift, c.extraShift - 1, c.width, d, x, ShiftedProduct(y, c.magic, c.shift));
    if x < Pow2(AddProduct(root).value.sourceBits) {
      WrapWord(x, AddProduct(root).value.sourceBits);
      AddMatchingShift(c.magic, c.shift, c.extraShift, c.inputBits, c.width, d, x);
      ClosedFormRight(c.magic, c.shift, c.extraShift - 1, c.width, d, x);
    }
  }

  lemma ShiftedProductMono(y: nat, x: nat, M: nat, N: nat)
    requires y <= x
    ensures ShiftedProduct(y, M, N) <= ShiftedProduct(x, M, N)
  {
    MulLe(y, x, M);
    DivMono(y * M, x * M, Pow2(N));
  }

  /** h - x with final shifts that fit d: right at 0, and otherwise at most where
      x - h is 2^(W-1) up to the bits that the last shift drops. */
  lemma SwappedAddOnlyNearTop(root: Expr, d: nat, env: Env)
    requires WellFormed(root) && MatchUnsignedAddMagicMulChain(root).Some?
    requires root.Bin? && StripWidthRoundTrip(root.lhs).Bin? && AddSwapped(root)
    requires SolveChain(MatchUnsignedAddMagicMulChain(root).value) == Some(d)
    requires d + 1 == Pow2(MatchUnsignedAddMagicMulChain(root).value.extraShift)
    requires AddProduct(root).Some? && AddProduct(root).value.sourceBits == Width(root)
    ensures var c := MatchUnsignedAddMagicMulChain(root).value;
      && WellFormed(c.scaled) && 0 < c.extraShift && 0 < c.width
      && var x := Eval(c.scaled, env);
         var gap, slack := Pow2(c.width - 1) - (x - ShiftedProduct(x, c.magic, c.shift)), Pow2(c.extraShift - 1);
         && (x == 0 ==> AddRootRight(root, d, env))
         && (0 < x && AddRootRight(root, d, env) ==> -(slack as int) < gap < slack)
  {
    hide Eval, WellFormed, Wrap, Pow2, Shr, ShiftedProduct, AddSwapped, AddProduct, StripWidthRoundTrip;
    hide MatchUnsignedAddMagicMulChain, SolveChain, Width, AddAccepts, IsMagicFor, AddRight;
    var c := MatchUnsignedAddMagicMulChain(root).value;
    AddTypes(root, d);
    AddChainKind(root);
    AddChainValue(root, env);
    var x := Eval(c.scaled, env);
    WrapWord(x, c.width);
    if x == 0 {
      ZeroRight(c.magic, c.shift, c.width, c.extraShift - 1, d);
    } else {
      SwappedRight(c.magic, c.shift, c.extraShift - 1, c.inputBits, c.width, d, x);
    }
  }

  lemma ZeroRight(M: nat, N: nat, W: nat, s: nat, d: nat)
    requires 0 < W && 0 < d
    ensures AddRight(0, ShiftedProduct(0, M, N), W, true, s, d)
  {
    ModSmall(0, Pow2(N));
    ModSmall(0, d);
  }

  // ----- plain unsigned roots and products that fit ----------------------------------------

  lemma MagicRewrite(root: Expr, d: nat, env: Env)
    requires WellFormed(root) && MatchMagicMulChain(root).Some?
    requires SolveChain(MatchMagicMulChain(root).value) == Some(d)
    ensures var c := MatchMagicMulChain(root).value;
            var q := Bin(UDiv, c.scaled, Const(Width(root), d));
            !c.signed && WellFormed(q) && Width(q) == Width(root) && Eval(q, env) == Eval(root, env)
  {
    var c := MatchMagicMulChain(root).value;
    assert !c.addCorrection && !c.narrowProduct && c.width == Width(root);
    SolverDecides(c.magic, c.shift, c.inputBits, c.width, false, d);
    MagicChainValue(root, env);
    MagicChainIsDivision(root, d, env);
    hide MatchMagicMulChain, SolveMagicDivisor, Eval, WellFormed, Pow2;
    DivisionValue(c.scaled, c.width, d, env);
  }

  lemma NarrowRewrite(root: Expr, d: nat, env: Env)
    requires WellFormed(root) && MatchNarrowProductMagicChain(root).Some?
    requires SolveChain(MatchNarrowProductMagicChain(root).value) == Some(d)
    requires !MatchNarrowProductMagicChain(root).value.signed
    ensures var c := MatchNarrowProductMagicChain(root).value;
            var q := Bin(UDiv, c.scaled, Const(Width(root), d));
            WellFormed(q) && Width(q) == Width(root) && Eval(q, env) == Eval(root, env)
  {
    var c := MatchNarrowProductMagicChain(root).value;
    assert root.op == LShr && NarrowChain(Width(root), root.lhs, root.rhs.value, false) == Some(c);
    hide MatchNarrowProductMagicChain, NarrowChain, SolveMagicDivisor, Eval, WellFormed, Pow2;
    NarrowUnsignedValue(root, c, env);
    SolverDecides(c.magic, c.shift, c.inputBits, c.width, true, d);
    NarrowChainIsDivision(root, c, d, env);
    DivisionValue(c.scaled, c.width, d, env);
  }

  /** The narrow signed form is the one recognised shape without a usable
      guard: the rewrite is right exactly on non-negative dividends. */
  lemma NarrowSignedRewriteExactly(root: Expr, d: nat, env: Env)
    requires WellFormed(root) && root.Bin? && root.op == Add && MatchNarrowProductMagicChain(root).Some?
    requires SolveChain(MatchNarrowProductMagicChain(root).value) == Some(d)
    ensures var c := MatchNarrowProductMagicChain(root).value;
            var q := Bin(SDiv, c.scaled, Const(Width(root), d));
            && WellFormed(q) && Width(q) == Width(root)
            && c.signed && c.shift < c.width == Width(root) && c.inputBits + 1 < c.width
            && (Eval(q, env) == Eval(root, env) <==> 0 <= SignedEval(c.scaled, env))
            && (c.magic * d != Pow2(c.shift) || Pow2(c.inputBits) < d ==>
                  Wrap(Eval(q, env), c.width - c.shift) == Wrap(Eval(root, env), c.width - c.shift))
  {
    hide *;
    var c := MatchNarrowProductMagicChain(root).value;
    NarrowSignedChainFacts(root, env);
    NarrowSolver(c, d);
    NarrowSignedChainValue(root, env);
    NarrowSignedTree(root, c, d, env);
  }

  lemma NarrowSolver(c: Chain, d: nat)
    requires !c.addCorrection && c.narrowProduct && SolveChain(c) == Some(d)
    ensures Accepts(c.magic, c.shift, c.inputBits, c.width, true, d) && 0 < c.magic && 0 < c.inputBits
  {
    SolverDecides(c.magic, c.shift, c.inputBits, c.width, true, d);
  }

  lemma NarrowSignedTree(root: Expr, c: Chain, d: nat, env: Env)
    requires WellFormed(root) && WellFormed(c.scaled) && Width(c.scaled) == c.width == Width(root)
    requires 0 < c.shift < c.width && 0 < c.inputBits && c.inputBits + 1 < c.width
    requires Accepts(c.magic, c.shift, c.inputBits, c.width, true, d)
    requires IsSigned(SignedEval(c.scaled, env), c.inputBits + 1)
    requires Pow2(c.inputBits) * c.magic < Pow2(c.width - 1)
    requires Eval(root, env) == NarrowSignedForm(c.magic, c.shift, c.width, SignedEval(c.scaled, env))
    ensures var q := Bin(SDiv, c.scaled, Const(Width(root), d));
            && WellFormed(q) && Width(q) == Width(root)
            && (Eval(q, env) == Eval(root, env) <==> 0 <= SignedEval(c.scaled, env))
            && (c.magic * d != Pow2(c.shift) || Pow2(c.inputBits) < d ==>
                  Wrap(Eval(q, env), c.width - c.shift) == Wrap(Eval(root, env), c.width - c.shift))
  {
    var x := SignedEval(c.scaled, env);
    assert 0 < d < Pow2(c.width);
    hide Pow2, Wrap, Eval, WellFormed, SignedEval, IsSigned, Accepts, NarrowSignedForm, SignedQuotientByConstant;
    DivisionValue(c.scaled, c.width, d, env);
    NarrowSignedSummary(c.magic, c.shift, c.inputBits + 1, c.width, d, x);
  }

  lemma NarrowSignedSummary(M: nat, N: nat, S: nat, W: nat, d: nat, x: int)
    requires 2 <= S < W && 0 < N < W && Accepts(M, N, S - 1, W, true, d)
    requires Pow2(S - 1) * M < Pow2(W - 1) && IsSigned(x, S)
    ensures Wrap(SignedQuotientByConstant(x, d, W), W) == NarrowSignedForm(M, N, W, x) <==> 0 <= x
    ensures M * d != Pow2(N) || Pow2(S - 1) < d ==>
              Wrap(Wrap(SignedQuotientByConstant(x, d, W), W), W - N) == Wrap(NarrowSignedForm(M, N, W, x), W - N)
  {
    hide Pow2, Wrap, NarrowSignedForm, SignedQuotientByConstant;
    NarrowSignedExactly(M, N, S, W, d, x);
    WrapWrap(SignedQuotientByConstant(x, d, W), W, W - N);
    if M * d != Pow2(N) || Pow2(S - 1) < d {
      NarrowSignedLowBits(M, N, S, W, d, x);
    }
  }

  // ----- the rewrite ------------------------------------------------------------------------

  /** The inputs of the program on which the replaced value is right. */
  ghost predicate RewriteRight(root: Expr, env: Env)
    requires WellFormed(root) && RewriteConstantDivision(root).Some?
  {
    var c := MatchChain(root).value;
    var d := SolveChain(c).value;
    if MatchSignedMagicMulChain(root).Some? then SignedRight(root, d, env)
    else if MatchUnsignedAddMagicMulChain(root).Some? then AddRootRight(root, d, env)
    else c.signed ==> (NarrowTypes(root, d); 0 <= SignedEval(c.scaled, env))
  }

  lemma NarrowTypes(root: Expr, d: nat)
    requires WellFormed(root) && RewriteConstantDivision(root).Some? && SolveChain(MatchChain(root).value) == Some(d)
    requires MatchSignedMagicMulChain(root).None? && MatchUnsignedAddMagicMulChain(root).None?
    requires MatchChain(root).value.signed
    ensures MatchMagicMulChain(root).None? && MatchNarrowProductMagicChain(root).Some? && root.Bin? && root.op == Add
    ensures WellFormed(MatchChain(root).value.scaled)
  {
    hide MatchSignedMagicMulChain, MatchUnsignedAddMagicMulChain, SolveChain, WellFormed;
    assert MatchMagicMulChain(root).None?;
    NarrowSignedChainFacts(root, n => 0);
  }

  /** For every recognised chain and every input: the division that replaces the
      root has the root's value exactly on the inputs of RewriteRight. */
  lemma RewriteExactly(root: Expr, env: Env)
    requires WellFormed(root) && RewriteConstantDivision(root).Some?
    ensures var q := RewriteConstantDivision(root).value;
      && WellFormed(q) && Width(q) == Width(root)
      && (Eval(q, env) == Eval(root, env) <==> RewriteRight(root, env))
  {
    hide MatchMagicMulChain, MatchNarrowProductMagicChain, MatchSignedMagicMulChain, MatchUnsignedAddMagicMulChain;
    hide SolveChain, Eval, SignedEval, WellFormed, SignedRight, AddRootRight, Width;
    var c := MatchChain(root).value;
    var d := SolveChain(c).value;
    if MatchSignedMagicMulChain(root).Some? {
      SignedTypes(root, d);
      SignedRootExactly(root, d, env);
    } else if MatchUnsignedAddMagicMulChain(root).Some? {
      AddTypes(root, d);
      AddRootExactly(root, d, env);
    } else if MatchMagicMulChain(root).Some? {
      MagicRewrite(root, d, env);
    } else if c.signed {
      NarrowTypes(root, d);
      NarrowSignedRewriteExactly(root, d, env);
      QuotientWidth(c.scaled, d);
    } else {
      NarrowRewrite(root, d, env);
    }
  }

  /** What a maintainer can check of a chain alone, without its dividend. */
  ghost predicate RewriteGuard(root: Expr)
    requires WellFormed(root) && RewriteConstantDivision(root).Some?
  {
    var c := MatchChain(root).value;
    var d := SolveChain(c).value;
    if MatchSignedMagicMulChain(root).Some? then SignedTypes(root, d); SignedChainGuard(root, c, d)
    else if MatchUnsignedAddMagicMulChain(root).Some? then AddTypes(root, d); AddChainGuard(root, c, d)
    else !c.signed
  }

  ghost predicate SignedChainGuard(root: Expr, c: Chain, d: nat)
    requires root.Bin? && 2 <= Width(root) && SignedOperands(root).Some? && c.inputBits < c.width
  {
    && SignedGuard(c.magic, c.shift, c.inputBits + 1, c.width, d)
    && if SignedBase(root).Trunc? then VariantOf(root) == PLAIN
       else PlusXFits(PlusXProduct(SignedBase(root), Width(root)), c)
  }

  /** The magic of a +x form is M - 2^W and multiplies the whole dividend. */
  ghost predicate PlusXFits(product: Option<Product>, c: Chain) {
    && product.Some? && product.value.sourceBits == c.width && 0 < c.width
    && IsWord(product.value.magic, 2 * c.width)
    && ToSigned(product.value.magic, 2 * c.width) == c.magic - Pow2(c.width)
  }

  ghost predicate AddChainGuard(root: Expr, c: Chain, d: nat)
    requires root.Bin? && StripWidthRoundTrip(root.lhs).Bin?
  {
    && !AddSwapped(root) && AddProduct(root).Some? && AddProduct(root).value.sourceBits == c.width
    && (d + 1 == Pow2(c.extraShift) || Pow2(c.inputBits) <= d)
  }

  lemma SignedGuardRight(root: Expr, c: Chain, d: nat, env: Env)
    requires WellFormed(root) && MatchSignedMagicMulChain(root) == Some(c) && SolveChain(c) == Some(d)
    requires root.Bin? && 2 <= Width(root) && SignedOperands(root).Some? && c.inputBits < c.width
    requires SignedChainGuard(root, c, d)
    ensures SignedRight(root, d, env)
  {
    hide Eval, SignedEval, WellFormed, Wrap, Pow2, RoundsTo, SignedQuotientByConstant, VariantRight, ToSigned, PlusXSum;
    hide MatchSignedMagicMulChain, SolveChain, SignedOperands, OuterShiftAmount, SignedBase, VariantOf, Width, Accepts;
    hide SignedGuard, PlusXProduct;
    SignedTypes(root, d);
    var x := SignedEval(c.scaled, env);
    SignedEvalRange(c.scaled, env);
    if SignedBase(root).Trunc? {
      SignedChainValue(root, env);
      GuardedPlain(c.magic, c.shift, c.inputBits + 1, c.width, d, x);
    } else {
      PlusXChainValue(root, env);
      WrapWord(0, c.width);
      PlusXPlain(x, c.magic, 1, OuterShiftAmount(root), c.width, d);
      GuardedPlain(c.magic, c.shift, c.width, c.width, d, x);
    }
  }

  lemma AddGuardRight(root: Expr, c: Chain, d: nat, env: Env)
    requires WellFormed(root) && MatchUnsignedAddMagicMulChain(root) == Some(c) && SolveChain(c) == Some(d)
    requires root.Bin? && StripWidthRoundTrip(root.lhs).Bin? && AddChainGuard(root, c, d)
    ensures AddRootRight(root, d, env)
  {
    hide Eval, WellFormed, Wrap, Pow2, Shr, ShiftedProduct, AddRight, AddSwapped, AddProduct, StripWidthRoundTrip;
    hide MatchUnsignedAddMagicMulChain, SolveChain, Width, AddAccepts, IsMagicFor, AddClosedForm;
    AddTypes(root, d);
    AddChainValue(root, env);
    var x := Eval(c.scaled, env);
    WrapWord(x, c.width);
    AddRewriteExactly(c.magic, c.shift, c.extraShift, c.inputBits, c.width, d);
    ClosedFormRight(c.magic, c.shift, c.extraShift - 1, c.width, d, x);
  }

  /** Wherever the guard holds, replacing a recognised chain by its division keeps
      the value of the root, for every value of the program's inputs. */
  lemma RewritePreservesMeaning(root: Expr, env: Env)
    requires WellFormed(root) && RewriteConstantDivision(root).Some? && RewriteGuard(root)
    ensures WellFormed(RewriteConstantDivision(root).value)
    ensures Width(RewriteConstantDivision(root).value) == Width(root)
    ensures Eval(RewriteConstantDivision(root).value, env) == Eval(root, env)
  {
    hide MatchMagicMulChain, MatchNarrowProductMagicChain, MatchSignedMagicMulChain, MatchUnsignedAddMagicMulChain;
    hide SolveChain, Eval, SignedEval, WellFormed, SignedRight, AddRootRight, Width, SignedChainGuard, AddChainGuard;
    var c := MatchChain(root).value;
    var d := SolveChain(c).value;
    RewriteExactly(root, env);
    if MatchSignedMagicMulChain(root).Some? {
      SignedTypes(root, d);
      SignedGuardRight(root, c, d, env);
    } else if MatchUnsignedAddMagicMulChain(root).Some? {
      AddTypes(root, d);
      AddGuardRight(root, c, d, env);
    }
  }

  // ----- what the matchers do not look at --------------------------------------------------------

  /** The signed matcher does not look at the operand order of a subtraction,
      although swapping the operands negates the value. */
  lemma SubtractionOrderIsIgnored(a: Expr, b: Expr, env: Env)
    requires WellFormed(Bin(Sub, a, b)) && MatchSignedMagicMulChain(Bin(Sub, a, b)).Some?
    ensures WellFormed(Bin(Sub, b, a))
    ensures Eval(Bin(Sub, b, a), env) == Wrap(-(Eval(Bin(Sub, a, b), env) as int), Width(a))
    ensures MatchSignedMagicMulChain(Bin(Sub, b, a)) == MatchSignedMagicMulChain(Bin(Sub, a, b))
    ensures var r, t := Bin(Sub, a, b), Bin(Sub, b, a);
      && 2 <= Width(r) == Width(t) && SignedOperands(r).Some? && SignedOperands(t) == SignedOperands(r)
      && SignedBase(t) == SignedBase(r) && SignedBase(r).Trunc?
      && VariantOf(t) == VariantOf(r).(swapped := !VariantOf(r).swapped)
  {
    SignedChainKind(Bin(Sub, a, b));
    SwappedOperands(a, b);
    SwappedMatch(a, b);
    SubtractionBase(Bin(Sub, a, b));
    SwappedVariant(a, b);
    EvalSum(Bin(Sub, a, b), env);
    EvalSum(Bin(Sub, b, a), env);
    hide *;
    SwappedDifference(Eval(a, env), Eval(b, env), Width(a));
  }

  lemma SwappedDifference(x: int, y: int, w: nat)
    ensures Wrap(y - x, w) == Wrap(-(Wrap(x - y, w) as int), w)
  {
    ModAdd(x - y, 0, Pow2(w));
  }

  lemma SubtractionBase(root: Expr)
    requires root.Bin? && root.op == Sub && 2 <= Width(root) && SignedOperands(root).Some?
    requires MatchSignedMagicMulChain(root).Some?
    ensures SignedBase(root).Trunc?
  {
    hide SignedOperands, StripWidthRoundTrip, MatchSignedSimple;
  }

  lemma SwappedVariant(a: Expr, b: Expr)
    requires Width(a) == Width(b) && 2 <= Width(a) && SignedOperands(Bin(Sub, a, b)).Some?
    requires SignedOperands(Bin(Sub, b, a)) == SignedOperands(Bin(Sub, a, b))
    ensures var r, t := Bin(Sub, a, b), Bin(Sub, b, a);
      SignedBase(t) == SignedBase(r) && VariantOf(t) == VariantOf(r).(swapped := !VariantOf(r).swapped)
  {
    var (shifted, sign) := SignedOperands(Bin(Sub, a, b)).value;
    hide StripWidthRoundTrip, SignedOperands;
    OperandRoles(Bin(Sub, a, b), shifted, sign);
  }

  lemma SwappedMatch(a: Expr, b: Expr)
    requires Width(a) == Width(b) && 2 <= Width(a) && SignedOperands(Bin(Sub, a, b)) == SignedOperands(Bin(Sub, b, a))
    ensures MatchSignedMagicMulChain(Bin(Sub, b, a)) == MatchSignedMagicMulChain(Bin(Sub, a, b))
  {
    hide StripWidthRoundTrip, SignedOperands, MatchSignedSimple, MatchSignedPlusX;
  }

  lemma VariantRewrite(root: Expr, d: nat, env: Env)
    requires WellFormed(root) && MatchSignedMagicMulChain(root).Some?
    requires root.Bin? && 2 <= Width(root) && SignedOperands(root).Some? && SignedBase(root).Trunc?
    requires SolveChain(MatchSignedMagicMulChain(root).value) == Some(d) && d < Pow2(Width(root) - 1)
    ensures var v, x := VariantOf(root), MatchSignedMagicMulChain(root).value.scaled;
      && WellFormed(x) && RewriteConstantDivision(root).Some? && WellFormed(RewriteConstantDivision(root).value)
      && var same := Eval(RewriteConstantDivision(root).value, env) == Eval(root, env);
         && (!v.logicalSign && (v.swapped || 0 < v.secondShift) ==>
               (same <==> -(d as int) < SignedEval(x, env) < d))
         && (v == SignedVariant(0, false, true) ==> (same <==> 0 <= SignedEval(x, env)))
  {
    hide MatchSignedMagicMulChain, SolveChain, Eval, SignedEval, WellFormed, SignedOperands, SignedBase, VariantOf;
    hide VariantRight, Pow2, ToSigned, Width;
    var c := MatchSignedMagicMulChain(root).value;
    SignedTypes(root, d);
    VariantRoot(root, c, d, env);
    PositiveDivisor(d, 0, c.width);
    DepartureRight(c.magic, c.shift, c.width, VariantOf(root), d, SignedEval(c.scaled, env));
  }

  /** So a matched subtraction with its operands swapped, which negates it, is still
      replaced by the division by d, and that is right only below d in magnitude. */
  lemma SwappedSubtractionExactly(a: Expr, b: Expr, d: nat, env: Env)
    requires WellFormed(Bin(Sub, a, b)) && MatchSignedMagicMulChain(Bin(Sub, a, b)).Some?
    requires 2 <= Width(Bin(Sub, a, b)) && SignedOperands(Bin(Sub, a, b)).Some?
    requires !VariantOf(Bin(Sub, a, b)).swapped && !VariantOf(Bin(Sub, a, b)).logicalSign
    requires SolveChain(MatchSignedMagicMulChain(Bin(Sub, a, b)).value) == Some(d) && d < Pow2(Width(a) - 1)
    ensures var root, x := Bin(Sub, b, a), MatchSignedMagicMulChain(Bin(Sub, a, b)).value.scaled;
      && WellFormed(root) && WellFormed(x) && RewriteConstantDivision(root).Some?
      && WellFormed(RewriteConstantDivision(root).value)
      && (Eval(RewriteConstantDivision(root).value, env) == Eval(root, env) <==> -(d as int) < SignedEval(x, env) < d)
  {
    SubtractionOrderIsIgnored(a, b, env);
    hide MatchSignedMagicMulChain, SolveChain, Eval, SignedEval, WellFormed, SignedOperands, SignedBase, VariantOf;
    VariantRewrite(Bin(Sub, b, a), d, env);
  }

  /** With the product's high half taken by an arithmetic shift, a second shift is
      not looked at: the division is right only where both quotients are 0. */
  lemma SecondShiftExactly(root: Expr, d: nat, env: Env)
    requires WellFormed(root) && MatchSignedMagicMulChain(root).Some?
    requires root.Bin? && 2 <= Width(root) && SignedOperands(root).Some?
    requires 0 < VariantOf(root).secondShift && !VariantOf(root).logicalSign
    requires SolveChain(MatchSignedMagicMulChain(root).value) == Some(d) && d < Pow2(Width(root) - 1)
    ensures var x := MatchSignedMagicMulChain(root).value.scaled;
      && WellFormed(x) && RewriteConstantDivision(root).Some? && WellFormed(RewriteConstantDivision(root).value)
      && (Eval(RewriteConstantDivision(root).value, env) == Eval(root, env) <==> -(d as int) < SignedEval(x, env) < d)
  {
    hide MatchSignedMagicMulChain, SolveChain, Eval, SignedEval, WellFormed, SignedOperands, SignedBase;
    VariantRewrite(root, d, env);
  }

  /** A subtraction of the logical sign bit takes one away where it should add one:
      the division is right exactly for dividends that are not negative. */
  lemma LogicalSignExactly(root: Expr, d: nat, env: Env)
    requires WellFormed(root) && MatchSignedMagicMulChain(root).Some?
    requires root.Bin? && 2 <= Width(root) && SignedOperands(root).Some? && SignedBase(root).Trunc?
    requires VariantOf(root) == SignedVariant(0, false, true)
    requires SolveChain(MatchSignedMagicMulChain(root).value) == Some(d) && d < Pow2(Width(root) - 1)
    ensures var x := MatchSignedMagicMulChain(root).value.scaled;
      && WellFormed(x) && RewriteConstantDivision(root).Some? && WellFormed(RewriteConstantDivision(root).value)
      && (Eval(RewriteConstantDivision(root).value, env) == Eval(root, env) <==> 0 <= SignedEval(x, env))
  {
    hide MatchSignedMagicMulChain, SolveChain, Eval, SignedEval, WellFormed, SignedOperands, SignedBase, VariantOf;
    VariantRewrite(root, d, env);
  }

  lemma SwappedOperands(a: Expr, b: Expr)
    requires Width(a) == Width(b) && 2 <= Width(a)
    ensures SignedOperands(Bin(Sub, a, b)) == SignedOperands(Bin(Sub, b, a))
  {
    hide StripWidthRoundTrip;
  }

  lemma NothingToStrip(e: Expr)
    requires e.Bin?
    ensures StripWidthRoundTrip(e) == e
  {
  }

  /** When the high half is taken with an arithmetic shift of the product, the
      amount of a further shift of the quotient makes no difference to the match,
      although it divides the quotient once more. */
  lemma SecondShiftIsDropped(x: Expr, sign: Expr, s: nat, t: nat)
    requires 2 <= Width(x) && 0 < s < Width(x) && 0 < t < Width(x)
    requires StripWidthRoundTrip(x).Trunc? && IsConstShift(StripWidthRoundTrip(x).arg, AShr)
    ensures MatchSignedMagicMulChain(Bin(Add, Bin(AShr, x, Const(Width(x), s)), sign))
         == MatchSignedMagicMulChain(Bin(Add, Bin(AShr, x, Const(Width(x), t)), sign))
    ensures var root := Bin(Add, Bin(AShr, x, Const(Width(x), s)), sign);
      MatchSignedMagicMulChain(root).Some? ==>
        Width(root) == Width(x) && SignedOperands(root).Some? && VariantOf(root) == SignedVariant(s, false, false)
  {
    hide StripWidthRoundTrip, MatchSignedSimple, MatchSignedPlusX;
    NothingToStrip(Bin(AShr, x, Const(Width(x), s)));
    NothingToStrip(Bin(AShr, x, Const(Width(x), t)));
    var a, b, view := Bin(AShr, x, Const(Width(x), s)), Bin(AShr, x, Const(Width(x), t)), StripWidthRoundTrip(sign);
    SimpleIgnoresOuterShift(Width(x), StripWidthRoundTrip(x), view, s, t);
    assert SignedRole(a, Width(x), false) == Quotient && SignedRole(b, Width(x), false) == Quotient;
    assert Width(Bin(Add, a, sign)) == Width(x) && Width(Bin(Add, b, sign)) == Width(x);
    if SignedRole(view, Width(x), false) == SignBit {
      assert SignedOperands(Bin(Add, a, sign)) == Some((a, view));
      assert SignedOperands(Bin(Add, b, sign)) == Some((b, view));
    } else {
      assert SignedOperands(Bin(Add, a, sign)).None? && SignedOperands(Bin(Add, b, sign)).None?;
    }
  }

  lemma SimpleIgnoresOuterShift(width: nat, trunc: Expr, sign: Expr, s: nat, t: nat)
    requires 2 <= width && trunc.Trunc? && IsConstShift(trunc.arg, AShr)
    ensures MatchSignedSimple(width, trunc, sign, s) == MatchSignedSimple(width, trunc, sign, t)
  {
    hide SameLowBits, Pow2, ParseHighHalf, ParseMagicProduct;
  }

  /** ((p - q) >> 1) + high >> s. */
  function CorrectionRoot(high: Expr, p: Expr, q: Expr, s: nat): Expr {
    Bin(LShr, Bin(Add, Bin(LShr, Bin(Sub, p, q), Const(Width(p), 1)), high), Const(Width(p), s))
  }

  /** The add-correction matcher does not look at the operand order of x - h. */
  lemma CorrectionOrderIsIgnored(high: Expr, p: Expr, q: Expr, s: nat)
    requires Width(p) == Width(q)
    ensures MatchUnsignedAddMagicMulChain(CorrectionRoot(high, q, p, s))
         == MatchUnsignedAddMagicMulChain(CorrectionRoot(high, p, q, s))
    ensures var root, other := CorrectionRoot(high, p, q, s), CorrectionRoot(high, q, p, s);
      MatchUnsignedAddMagicMulChain(root).Some? ==>
      && root.Bin? && StripWidthRoundTrip(root.lhs).Bin? && other.Bin? && StripWidthRoundTrip(other.lhs).Bin?
      && (AddSwapped(other) <==> !AddSwapped(root))
  {
    hide *;
    var view := StripWidthRoundTrip(high);
    HalvedMatch(high, p, q, s);
    HalvedMatch(high, q, p, s);
    MinuendOrder(p, q, view);
    if view.Trunc? {
      CorrectionOrder(high, p, q, s);
      CorrectionOrder(high, q, p, s);
    }
  }

  /** What an add-correction root swaps is which operand of its difference is h. */
  lemma CorrectionOrder(high: Expr, p: Expr, q: Expr, s: nat)
    requires StripWidthRoundTrip(high).Trunc?
    ensures var root := CorrectionRoot(high, p, q, s);
      root.Bin? && StripWidthRoundTrip(root.lhs).Bin? && (AddSwapped(root) <==> p == StripWidthRoundTrip(high))
  {
    hide StripWidthRoundTrip;
    NothingToStrip(Bin(Sub, p, q));
    NothingToStrip(Bin(LShr, Bin(Sub, p, q), Const(Width(p), 1)));
    NothingToStrip(Bin(Add, Bin(LShr, Bin(Sub, p, q), Const(Width(p), 1)), high));
  }

  lemma MinuendOrder(p: Expr, q: Expr, high: Expr)
    ensures Minuend(Bin(Sub, p, q), high) == Minuend(Bin(Sub, q, p), high)
    ensures Minuend(Bin(Sub, p, q), high).Some? ==> (p == high) != (q == high)
  {
  }

  lemma HalvedMatch(high: Expr, p: Expr, q: Expr, s: nat)
    ensures var w, view := Width(p), StripWidthRoundTrip(high);
      MatchUnsignedAddMagicMulChain(CorrectionRoot(high, p, q, s))
      == if w > 64 || Limited(s, w) == 0 || Limited(s, w) >= w || !view.Trunc? then None
         else
           var dividend := Minuend(Bin(Sub, p, q), view);
           if dividend.None? then None else CorrectedChain(view, dividend.value, w, Limited(s, w))
  {
    hide StripWidthRoundTrip, CorrectedChain, Minuend;
    var w := Width(p);
    var halved := Bin(LShr, Bin(Sub, p, q), Const(w, 1));
    var sum := Bin(Add, halved, high);
    NothingToStrip(Bin(Sub, p, q));
    NothingToStrip(halved);
    NothingToStrip(sum);
    assert Width(Bin(Sub, p, q)) == w && Width(halved) == w;
    assert Width(sum) == w && Width(Bin(LShr, sum, Const(w, s))) == w;
  }
}
