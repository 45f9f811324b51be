/** Recognising a compiler's magic-multiply chains in an expression tree and
    replacing them by a division. */
module DivisionChains {
  import opened Bits
  import opened Wrappers
  import opened ValueTree
  import opened MagicDivision
  import opened DivisionVariants

  datatype Chain = Chain(
    scaled: Expr,         // the dividend, as wide as the root
    magic: nat,
    shift: nat,           // total right shift of the product
    inputBits: nat,       // the dividend is below 2^inputBits in magnitude
    width: nat,
    signed: bool,
    addCorrection: bool,
    extraShift: nat,
    narrowProduct: bool)

  datatype Product = Product(scaled: Expr, magic: nat, signed: bool, sourceBits: nat)

  predicate IsConstShift(e: Expr, op: Op) {
    e.Bin? && e.op == op && e.rhs.Const?
  }

  predicate ShiftAmountIs(e: Expr, amount: nat) {
    e.Bin? && e.rhs.Const? && e.rhs.value == amount
  }

  function Limited(value: nat, limit: nat): nat {
    if value < limit then value else limit
  }

  /** The constant and the other operand of a product. */
  function SplitProduct(mul: Expr): Option<(nat, Expr)> {
    if !mul.Bin? || mul.op != Mul then None
    else if mul.lhs.Const? && !mul.rhs.Const? then Some((mul.lhs.value, mul.rhs))
    else if mul.rhs.Const? && !mul.lhs.Const? then Some((mul.rhs.value, mul.lhs))
    else None
  }

  /** mul i(2W) (zext|sext x), M */
  function ParseMagicProduct(mul: Expr, width: nat): Option<Product> {
    match SplitProduct(mul)
    case None => None
    case Some((magic, factor)) =>
      if Width(mul) != 2 * width || !(factor.ZExt? || factor.SExt?) || Width(factor.arg) > width ||
         Width(factor.arg) == 0 then None
      else Some(Product(factor.arg, magic, factor.SExt?, Width(factor.arg)))
  }

  /** trunc (lshr (mul ..), N) to iW: the high half of a product. */
  function ParseHighHalf(e: Expr, width: nat): Option<(Expr, nat)> {
    if !e.Trunc? || e.bits != width || !IsConstShift(e.arg, LShr) then None
    else
      var highShift := Limited(e.arg.rhs.value, 2 * width);
      var mul := e.arg.lhs;
      if highShift < width || !mul.Bin? || mul.op != Mul then None else Some((mul, highShift))
  }

  /** lshr y, k is below 2^(W - k). */
  function DividendBitBound(dividend: Expr, width: nat): nat {
    if !IsConstShift(dividend, LShr) || dividend.rhs.value >= 0x100 ||
       dividend.rhs.value == 0 || dividend.rhs.value >= width then width
    else width - dividend.rhs.value
  }

  // ----- the four matchers ----------------------------------------------------

  /** trunc (lshr (mul (zext x), M), K), possibly followed by one more lshr. */
  function MatchMagicMulChain(root: Expr): Option<Chain> {
    var width := Width(root);
    if width > 64 then None
    else if root.Bin? && root.op == LShr && !root.rhs.Const? then None
    else
      var shifted := root.Bin? && root.op == LShr;
      var extraShift := if shifted then Limited(root.rhs.value, 2 * width) else 0;
      if shifted && (extraShift == 0 || extraShift >= width) then None
      else
        var trunc := if shifted then root.lhs else root;
        if !trunc.Trunc? || trunc.bits != width || !IsConstShift(trunc.arg, LShr) then None
        else
          var highShift := Limited(trunc.arg.rhs.value, 2 * width);
          var mul := trunc.arg.lhs;
          if highShift < width || highShift + extraShift > 2 * width || Width(mul) != 2 * width then None
          else
            match SplitProduct(mul)
            case None => None
            case Some((magic, factor)) =>
              if !factor.ZExt? || Width(factor.arg) != width then None
              else Some(Chain(factor.arg, magic, highShift + extraShift, DividendBitBound(factor.arg, width),
                              width, false, false, 0, false))
  }

  datatype Role = SignBit | Quotient | Unknown

  /** What an operand of a signed root looks like. */
  function SignedRole(view: Expr, width: nat, subtractForm: bool): Role
    requires 2 <= width
  {
    if view.Bin? && IsShift(view.op) then
      var maskForm := view.op == AShr;
      if maskForm == subtractForm && ShiftAmountIs(view, width - 1) then SignBit
      else if !maskForm then Unknown
      else Quotient
    else if view.Trunc? then
      if IsConstShift(view.arg, LShr) && view.arg.rhs.value == 2 * width - 1 then SignBit else Quotient
    else Unknown
  }

  /** The (shifted, sign) operands of a signed root, in either order. */
  function SignedOperands(root: Expr): Option<(Expr, Expr)>
    requires root.Bin? && 2 <= Width(root)
  {
    var subtractForm := root.op == Sub;
    var a, b := StripWidthRoundTrip(root.lhs), StripWidthRoundTrip(root.rhs);
    var width := Width(root);
    match (SignedRole(a, width, subtractForm), SignedRole(b, width, subtractForm))
    case (Quotient, SignBit) => Some((a, b))
    case (SignBit, Quotient) => Some((b, a))
    case _ => None
  }

  function MatchSignedMagicMulChain(root: Expr): Option<Chain> {
    if !root.Bin? || (root.op != Sub && root.op != Add) || Width(root) > 64 || Width(root) < 2 then None
    else
      match SignedOperands(root)
      case None => None
      case Some((shifted, sign)) =>
        var width := Width(root);
        if shifted.Bin? && (!shifted.rhs.Const? || shifted.rhs.value == 0 || shifted.rhs.value >= width) then None
        else
          var extraShift := if shifted.Bin? then shifted.rhs.value else 0;
          var base := StripWidthRoundTrip(if shifted.Bin? then shifted.lhs else shifted);
          if base.Trunc? then MatchSignedSimple(width, base, sign, extraShift)
          else MatchSignedPlusX(width, root.op == Sub, base, sign, extraShift)
  }

  /** The quotient is the high half of (sext x) * M with M non-negative. */
  function MatchSignedSimple(width: nat, trunc: Expr, sign: Expr, outerShift: nat): Option<Chain>
    requires trunc.Trunc? && 2 <= width
  {
    if trunc.bits != width then None
    else
      var wide := IsConstShift(trunc.arg, AShr);
      var highHalf := ParseHighHalf(trunc, width);
      if trunc.arg.Bin? && trunc.arg.op == AShr && !wide then None
      else if wide && (Limited(trunc.arg.rhs.value, 2 * width) < width) then None
      else if !wide && (highHalf.None? || highHalf.value.1 != width) then None
      else
        var extraShift := if wide then Limited(trunc.arg.rhs.value, 2 * width) - width else outerShift;
        var mul := if wide then trunc.arg.lhs else highHalf.value.0;
        match ParseMagicProduct(mul, width)
        case None => None
        case Some(product) =>
          if !product.signed || product.magic >= Pow2(2 * width - 1) then None
          else if !sign.Bin? && !sign.Trunc? then None
          else if sign.Trunc? && !(IsConstShift(sign.arg, LShr) && SameLowBits(sign.arg.lhs, mul)) then None
          else
            var signSource := if sign.Trunc? then product.scaled else sign.lhs;
            if product.sourceBits == width then
              if !SameLowBits(signSource, trunc) && !SameLowBits(signSource, product.scaled) then None
              else Some(Chain(product.scaled, product.magic, width + extraShift, width - 1, width,
                              true, false, 0, false))
            else if signSource.SExt? && signSource.arg == product.scaled && signSource.bits == width then
              Some(Chain(signSource, product.magic, width + extraShift, product.sourceBits - 1, width,
                         true, false, 0, false))
            else None
  }

  /** The quotient is x plus the high half of (sext x) * M with M negative. */
  function MatchSignedPlusX(width: nat, subtractForm: bool, sum: Expr, sign: Expr, extraShift: nat): Option<Chain>
    requires 2 <= width
  {
    if subtractForm || !sum.Bin? || sum.op != Add || !sign.Bin? || !SameLowBits(sign.lhs, sum) then None
    else
      var a, b := StripWidthRoundTrip(sum.lhs), StripWidthRoundTrip(sum.rhs);
      if a.Trunc? == b.Trunc? then None
      else
        var highValue, dividend := if a.Trunc? then a else b, if a.Trunc? then b else a;
        match ParseHighHalf(highValue, width)
        case None => None
        case Some((mul, highShift)) =>
          match ParseMagicProduct(mul, width)
          case None => None
          case Some(product) =>
            if highShift != width || !product.signed || !SameLowBits(product.scaled, dividend) ||
               product.magic < Pow2(2 * width - 1) then None
            else Some(Chain(dividend, Wrap(product.magic, width), width + extraShift, width - 1, width,
                            true, false, 0, false))
  }

  /** lshr (add (lshr (sub x, h), 1), h), s with h the high half of (zext x) * M. */
  function MatchUnsignedAddMagicMulChain(root: Expr): Option<Chain> {
    var width := Width(root);
    if !IsConstShift(root, LShr) || width > 64 then None
    else
      var finalShift := Limited(root.rhs.value, width);
      var sum := StripWidthRoundTrip(root.lhs);
      if finalShift == 0 || finalShift >= width || !sum.Bin? || sum.op != Add then None
      else
        var a, b := StripWidthRoundTrip(sum.lhs), StripWidthRoundTrip(sum.rhs);
        var highValue, halved := if a.Trunc? then a else b, if a.Trunc? then b else a;
        if !highValue.Trunc? || !halved.Bin? || halved.op != LShr || !ShiftAmountIs(halved, 1) then None
        else
          match Minuend(StripWidthRoundTrip(halved.lhs), highValue)
          case None => None
          case Some(dividend) => CorrectedChain(highValue, dividend, width, finalShift)
  }

  /** The operand that a difference has besides the high half. */
  function Minuend(difference: Expr, high: Expr): Option<Expr> {
    if !difference.Bin? || difference.op != Sub || (difference.lhs == high) == (difference.rhs == high) then None
    else Some(if difference.lhs == high then difference.rhs else difference.lhs)
  }

  function CorrectedChain(highValue: Expr, dividend: Expr, width: nat, finalShift: nat): Option<Chain> {
    match ParseHighHalf(highValue, width)
    case None => None
    case Some((mul, highShift)) =>
      match ParseMagicProduct(mul, width)
      case None => None
      case Some(product) =>
        if product.signed || !SameLowBits(product.scaled, dividend) then None
        else Some(Chain(dividend, product.magic, highShift, DividendBitBound(dividend, width), width,
                        false, true, finalShift + 1, false))
  }

  /** The product fits in W bits: (zext x) * M >> N, or the signed add form. */
  function MatchNarrowProductMagicChain(root: Expr): Option<Chain> {
    var width := Width(root);
    if width > 64 || !root.Bin? then None
    else if root.op == LShr then
      if !root.rhs.Const? then None else NarrowChain(width, root.lhs, root.rhs.value, false)
    else if root.op == Add then
      if !IsConstShift(root.lhs, LShr) || !IsConstShift(root.rhs, LShr) || root.lhs.lhs != root.rhs.lhs ||
         (root.lhs.rhs.value == width - 1) == (root.rhs.rhs.value == width - 1) then None
      else
        var shifted := if root.lhs.rhs.value == width - 1 then root.rhs else root.lhs;
        NarrowChain(width, shifted.lhs, shifted.rhs.value, true)
    else None
  }

  function NarrowChain(width: nat, mul: Expr, amount: nat, signedForm: bool): Option<Chain> {
    var quotientShift := Limited(amount, 2 * width);
    match SplitProduct(mul)
    case None => None
    case Some((magic, factor)) =>
      if Width(mul) != width || quotientShift == 0 || quotientShift >= width then None
      else if !(factor.ZExt? || factor.SExt?) || factor.SExt? != signedForm || Width(factor.arg) >= width ||
              Width(factor.arg) == 0 then None
      else
        var sourceBits := Width(factor.arg);
        var maxMagnitude := if signedForm then Pow2(sourceBits - 1) else Pow2(sourceBits) - 1;
        var productMax := ApMul(width + sourceBits + 8, maxMagnitude, magic);
        if productMax >= Pow2(if signedForm then width - 1 else width) then None
        else Some(Chain(factor, magic, quotientShift, if signedForm then sourceBits - 1 else sourceBits, width,
                        signedForm, false, 0, true))
  }

  // ----- the rewrite ------------------------------------------------------------

  /** The first matcher that answers decides. */
  function MatchChain(root: Expr): Option<Chain> {
    if MatchSignedMagicMulChain(root).Some? then MatchSignedMagicMulChain(root)
    else if MatchUnsignedAddMagicMulChain(root).Some? then MatchUnsignedAddMagicMulChain(root)
    else if MatchMagicMulChain(root).Some? then MatchMagicMulChain(root)
    else MatchNarrowProductMagicChain(root)
  }

  function SolveChain(c: Chain): Option<nat> {
    if c.addCorrection then SolveUnsignedAddMagicDivisor(c.magic, c.shift, c.extraShift, c.inputBits, c.width)
    else SolveMagicDivisor(c.magic, c.shift, c.inputBits, c.width, c.narrowProduct)
  }

  function RewriteConstantDivision(root: Expr): Option<Expr> {
    match MatchChain(root)
    case None => None
    case Some(chain) =>
      match SolveChain(chain)
      case None => None
      case Some(d) =>
        Some(Bin(if chain.signed then SDiv else UDiv, chain.scaled, Const(Width(root), d)))
  }

  // ----- what the parsed pieces evaluate to ---------------------------------------

  lemma SplitProductValue(mul: Expr, env: Env)
    requires WellFormed(mul) && SplitProduct(mul).Some?
    ensures var (magic, factor) := SplitProduct(mul).value;
            && WellFormed(factor) && Width(factor) == Width(mul) && magic < Pow2(Width(mul))
            && Eval(mul, env) == Wrap(Eval(factor, env) * magic, Width(mul))
  {
    assert Eval(mul.lhs, env) * Eval(mul.rhs, env) == Eval(mul.rhs, env) * Eval(mul.lhs, env);
  }

  lemma UnsignedProductValue(mul: Expr, width: nat, magic: nat, factor: Expr, env: Env)
    requires WellFormed(mul) && SplitProduct(mul) == Some((magic, factor)) && factor.ZExt?
    requires Width(mul) == 2 * width && Width(factor.arg) <= width && magic < Pow2(width)
    ensures WellFormed(factor.arg) && Eval(mul, env) == Eval(factor.arg, env) * magic
  {
    SplitProductValue(mul, env);
    var x := Eval(factor.arg, env);
    Pow2Le(Width(factor.arg), width);
    WordProduct(x, magic, width);
    WrapSmall(x * magic, 2 * width, 2 * width);
  }

  /** trunc (lshr p, n) of a 2W-bit product with n >= W is the plain quotient. */
  lemma HighHalfValue(e: Expr, width: nat, env: Env)
    requires WellFormed(e) && e.Trunc? && e.bits == width && IsConstShift(e.arg, LShr)
    requires WellFormed(e.arg) && WellFormed(e.arg.lhs)
    requires Width(e.arg.lhs) == 2 * width && width <= e.arg.rhs.value
    ensures Limited(e.arg.rhs.value, 2 * width) == e.arg.rhs.value
    ensures Eval(e, env) == Eval(e.arg.lhs, env) / Pow2(e.arg.rhs.value)
  {
    var p, n := Eval(e.arg.lhs, env), e.arg.rhs.value;
    HighHalfFits(p, width, n);
    WrapSmall(p / Pow2(n), width, width);
    assert Eval(e.arg, env) == p / Pow2(n);
  }

  lemma HighHalfFits(p: nat, width: nat, n: nat)
    requires p < Pow2(2 * width) && width <= n
    ensures 0 <= p / Pow2(n) < Pow2(width)
  {
    Pow2Square(width);
    Pow2Le(width, n);
    QuotientBelow(p, Pow2(width), Pow2(n));
  }

  lemma QuotientBelow(p: int, B: int, P: int)
    requires 0 <= p < B * B && 0 < B <= P
    ensures 0 <= p / P < B
  {
    MulLe(B, P, B);
    assert B * P == P * B;
    DivBounds(p, P, B);
    QuotientNonNegative(p, P);
  }

  lemma DividendBound(dividend: Expr, width: nat, env: Env)
    requires WellFormed(dividend) && Width(dividend) == width
    ensures Eval(dividend, env) < Pow2(DividendBitBound(dividend, width))
  {
    var L := DividendBitBound(dividend, width);
    if L != width {
      EvalShift(dividend, env);
      var y, k := Eval(dividend.lhs, env), dividend.rhs.value;
      hide Eval, WellFormed;
      ShiftedFits(y, k, L);
    }
  }

  lemma ShiftedFits(y: nat, k: nat, L: nat)
    requires y < Pow2(k + L)
    ensures Shr(y, k) < Pow2(L)
  {
    Pow2Add(k, L);
    hide Pow2;
    assert Pow2(k) * Pow2(L) == Pow2(L) * Pow2(k);
    DivBounds(y, Pow2(k), Pow2(L));
  }

  // ----- unsigned chains ------------------------------------------------------------

  lemma MagicChainValue(root: Expr, env: Env)
    requires WellFormed(root) && MatchMagicMulChain(root).Some?
    requires MatchMagicMulChain(root).value.magic < Pow2(Width(root))
    ensures var c := MatchMagicMulChain(root).value;
            && c.width == Width(root) && !c.signed && !c.addCorrection && !c.narrowProduct
            && WellFormed(c.scaled) && Width(c.scaled) == c.width
            && Eval(c.scaled, env) < Pow2(c.inputBits)
            && Eval(root, env) == (Eval(c.scaled, env) * c.magic) / Pow2(c.shift)
  {
    var c := MatchMagicMulChain(root).value;
    var trunc := if root.Bin? && root.op == LShr then root.lhs else root;
    assert WellFormed(trunc) && WellFormed(trunc.arg);
    var mul := trunc.arg.lhs;
    assert WellFormed(mul);
    var (magic, factor) := SplitProduct(mul).value;
    UnsignedProductValue(mul, c.width, magic, factor, env);
    HighHalfValue(trunc, c.width, env);
    DividendBound(c.scaled, c.width, env);
    if root.Bin? && root.op == LShr {
      TwoShifts(Eval(mul, env), trunc.arg.rhs.value, root.rhs.value);
    }
  }

  /** A plain unsigned chain that the solver accepts is the division. */
  lemma MagicChainIsDivision(root: Expr, d: nat, env: Env)
    requires WellFormed(root) && MatchMagicMulChain(root).Some?
    requires SolveChain(MatchMagicMulChain(root).value) == Some(d)
    ensures var c := MatchMagicMulChain(root).value;
            WellFormed(c.scaled) && Eval(root, env) == Eval(c.scaled, env) / d
  {
    var c := MatchMagicMulChain(root).value;
    SolverDecides(c.magic, c.shift, c.inputBits, c.width, false, d);
    MagicChainValue(root, env);
    UnsignedQuotient(c.magic, c.shift, c.inputBits, d, Eval(c.scaled, env));
  }

  // ----- signed chains ---------------------------------------------------------------

  lemma SignedProductValue(mul: Expr, width: nat, magic: nat, factor: Expr, env: Env)
    requires WellFormed(mul) && SplitProduct(mul) == Some((magic, factor)) && factor.SExt?
    requires Width(mul) == 2 * width && Width(factor.arg) <= width
    ensures WellFormed(factor.arg) && magic < Pow2(2 * width) && IsSigned(SignedEval(factor.arg, env), width)
    ensures Eval(mul, env) == Wrap(SignedEval(factor.arg, env) * ToSigned(magic, 2 * width), 2 * width)
  {
    SplitProductValue(mul, env);
    var x, M := SignedEval(factor.arg, env), ToSigned(magic, 2 * width);
    Pow2Le(Width(factor.arg) - 1, width - 1);
    SignedRoundTrip(magic, 2 * width);
    WrapOps(x, M, 2 * width);
  }

  /** The truncated high part of a signed product. */
  lemma SignedHighValue(trunc: Expr, width: nat, product: int, env: Env)
    requires WellFormed(trunc) && trunc.Trunc? && trunc.bits == width && trunc.arg.Bin? && trunc.arg.rhs.Const?
    requires WellFormed(trunc.arg) && WellFormed(trunc.arg.lhs)
    requires Width(trunc.arg.lhs) == 2 * width && IsSigned(product, 2 * width)
    requires Eval(trunc.arg.lhs, env) == Wrap(product, 2 * width)
    requires trunc.arg.op == AShr || (trunc.arg.op == LShr && trunc.arg.rhs.value == width)
    ensures Eval(trunc, env) == Wrap(product / Pow2(trunc.arg.rhs.value), width)
  {
    var k := trunc.arg.rhs.value;
    HighBits(product, width, k);
    assert Eval(trunc, env) == Wrap(Eval(trunc.arg, env), width);
    if trunc.arg.op == AShr {
      assert Eval(trunc.arg, env) == Wrap(ToSigned(Wrap(product, 2 * width), 2 * width) / Pow2(k), 2 * width);
    } else {
      assert Eval(trunc.arg, env) == Wrap(product, 2 * width) / Pow2(width);
    }
  }

  lemma HighBits(product: int, width: nat, k: nat)
    requires 0 < width && IsSigned(product, 2 * width)
    ensures Wrap(Wrap(ToSigned(Wrap(product, 2 * width), 2 * width) / Pow2(k), 2 * width), width)
         == Wrap(product / Pow2(k), width)
    ensures Wrap(Wrap(product, 2 * width) / Pow2(width), width) == Wrap(product / Pow2(width), width)
  {
    WrapSigned(product, 2 * width);
    WrapWrap(product / Pow2(k), 2 * width, width);
    WrapHigh(product, width, width);
    WrapSmall(Wrap(product / Pow2(width), width), width, width);
  }

  /** The sign bit, as 0/1 from lshr and as 0/-1 from ashr. */
  lemma SignBitValue(y: nat, width: nat)
    requires 0 < width && IsWord(y, width)
    ensures y / Pow2(width - 1) == if ToSigned(y, width) < 0 then 1 else 0
    ensures ToSigned(y, width) / Pow2(width - 1) == if ToSigned(y, width) < 0 then -1 else 0
  {
    var H := Pow2(width - 1);
    if y < H {
      ModSmall(y, H);
    } else {
      DivUnique(y, H, 1);
      DivUnique(y - Pow2(width), H, -1);
    }
  }

  /** A base with the quotient of the product before the outer shift. */
  lemma ShiftedQuotient(base: Expr, shifted: Expr, width: nat, t: int, env: Env)
    requires WellFormed(shifted) && Width(shifted) == width && IsSigned(t, width)
    requires shifted.Bin? ==> shifted.op == AShr && shifted.rhs.Const? && WellFormed(shifted.lhs)
    requires base == StripWidthRoundTrip(if shifted.Bin? then shifted.lhs else shifted)
    requires WellFormed(base) && Eval(base, env) == Wrap(t, width)
    ensures Eval(shifted, env) == Wrap(t / Pow2(if shifted.Bin? then shifted.rhs.value else 0), width)
  {
    RoundTripKeeps(if shifted.Bin? then shifted.lhs else shifted, env);
    if shifted.Bin? {
      WrapSigned(t, width);
    } else {
      assert Pow2(0) == 1 && t / 1 == t;
    }
  }

  /** What both base forms establish: the value before the outer shift is t, the
      floor of x * M / 2^k, and the sign operand shows the sign of x. */
  ghost predicate BaseComputes(base: Expr, sign: Expr, c: Chain, t: int, env: Env)
    requires 0 < c.width
  {
    && c.signed && !c.addCorrection && !c.narrowProduct
    && 0 < c.inputBits < c.width
    && WellFormed(c.scaled) && Width(c.scaled) == c.width
    && WellFormed(base) && Width(base) == c.width && WellFormed(sign)
    && var x := SignedEval(c.scaled, env);
       && IsSigned(x, c.inputBits + 1)
       && IsSigned(t, c.width) && (t < 0 <==> x < 0)
       && Eval(base, env) == Wrap(t, c.width)
       && (sign.Bin? ==> WellFormed(sign.lhs) && Width(sign.lhs) == c.width &&
                         (SignedEval(sign.lhs, env) < 0 <==> x < 0))
       && (!sign.Bin? ==> Eval(sign, env) == if x < 0 then 1 else 0)
  }

  /** trunc (lshr p, 2W-1) of the product shows the sign of x. */
  lemma ProductSignBit(sign: Expr, mul: Expr, width: nat, product: int, env: Env)
    requires 2 <= width && WellFormed(sign) && sign.Trunc? && sign.bits == width && IsConstShift(sign.arg, LShr)
    requires WellFormed(sign.arg) && sign.arg.rhs.value == 2 * width - 1
    requires WellFormed(mul) && mul.Bin? && Width(mul) == 2 * width && SameLowBits(sign.arg.lhs, mul)
    requires IsSigned(product, 2 * width) && Eval(mul, env) == Wrap(product, 2 * width)
    ensures Eval(sign, env) == if product < 0 then 1 else 0
  {
    var source := sign.arg.lhs;
    assert WellFormed(source);
    LowBitsOfBase(source, 6, env);
    assert StripWidthRoundTrip(mul) == mul;
    assert LowBitsBase(mul, 6) == mul;
    assert Width(source) == 2 * width;
    SameLowBitsAgree(source, mul, env);
    WrapSigned(product, 2 * width);
    SignBitValue(Eval(mul, env), 2 * width);
    var bit := Eval(mul, env) / Pow2(2 * width - 1);
    assert Eval(sign.arg, env) == bit;
    Pow2Le(1, width);
    WrapSmall(bit, 1, width);
  }

  lemma SExtValue(e: Expr, env: Env)
    requires WellFormed(e) && e.SExt?
    ensures WellFormed(e.arg) && SignedEval(e, env) == SignedEval(e.arg, env)
    ensures IsSigned(SignedEval(e, env), Width(e.arg))
  {
    Pow2Le(Width(e.arg) - 1, e.bits - 1);
    WrapSigned(SignedEval(e.arg, env), e.bits);
  }

  /** The facts about the tree that MatchSignedSimple checked. */
  ghost predicate SimpleShape(width: nat, trunc: Expr, sign: Expr, outerShift: nat, c: Chain)
    requires trunc.Trunc? && 2 <= width
  {
    && trunc.bits == width && trunc.arg.Bin? && trunc.arg.rhs.Const?
    && width <= trunc.arg.rhs.value
    && (trunc.arg.op == AShr || (trunc.arg.op == LShr && trunc.arg.rhs.value == width))
    && var mul := trunc.arg.lhs;
       && Width(mul) == 2 * width && SplitProduct(mul).Some?
       && var (magic, factor) := SplitProduct(mul).value;
          && factor.SExt? && 0 < Width(factor.arg) <= width && magic < Pow2(2 * width - 1)
          && c.magic == magic && c.width == width && c.inputBits == Width(factor.arg) - 1
          && c.signed && !c.addCorrection && !c.narrowProduct
          && c.shift == (if trunc.arg.op == AShr then trunc.arg.rhs.value else width + outerShift)
          && (sign.Bin? || (sign.Trunc? && IsConstShift(sign.arg, LShr) && SameLowBits(sign.arg.lhs, mul)))
          && (if Width(factor.arg) == width then
                c.scaled == factor.arg &&
                (sign.Bin? ==> SameLowBits(sign.lhs, trunc) || SameLowBits(sign.lhs, factor.arg))
              else sign.Bin? && c.scaled == sign.lhs && sign.lhs.SExt? && sign.lhs.arg == factor.arg &&
                   sign.lhs.bits == width)
  }

  lemma SignedSimpleShape(width: nat, trunc: Expr, sign: Expr, outerShift: nat)
    requires 2 <= width && WellFormed(trunc) && trunc.Trunc? && WellFormed(sign)
    requires MatchSignedSimple(width, trunc, sign, outerShift).Some?
    ensures SimpleShape(width, trunc, sign, outerShift, MatchSignedSimple(width, trunc, sign, outerShift).value)
  {
    hide Pow2, SameLowBits;
    assert WellFormed(trunc.arg);
  }

  lemma SignedSimpleBase(width: nat, trunc: Expr, sign: Expr, outerShift: nat, c: Chain, env: Env)
    requires 2 <= width && WellFormed(trunc) && trunc.Trunc? && WellFormed(sign)
    requires SimpleShape(width, trunc, sign, outerShift, c)
    requires sign.Bin? ==> Width(sign) == width
    requires sign.Trunc? ==> sign.bits == width && sign.arg.rhs.value == 2 * width - 1
    requires 0 < c.magic < Pow2(width) && 0 < c.inputBits
    ensures WellFormed(c.scaled)
    ensures BaseComputes(trunc, sign, c, ShiftedProduct(SignedEval(c.scaled, env), c.magic, trunc.arg.rhs.value), env)
  {
    hide SameLowBits, Eval, Wrap, ToSigned, ShiftedProduct;
    var v := SimpleProduct(width, trunc, sign, outerShift, c, env);
    var factor := SplitProduct(trunc.arg.lhs).value.1;
    SimpleValue(width, trunc, sign, outerShift, c, v, env);
    WrapSigned(ShiftedProduct(v, c.magic, trunc.arg.rhs.value), width);
    if Width(factor.arg) != width { SExtValue(c.scaled, env); }
    if sign.Bin? {
      assert WellFormed(sign.lhs);
      if Width(factor.arg) == width {
        SignSourceAgrees(sign.lhs, trunc, factor.arg, env);
        SignedEvalOf(trunc, env);
      }
    } else {
      SimpleSign(width, trunc, sign, outerShift, c, v, env);
    }
  }

  /** The product of the simple form. */
  lemma SimpleProduct(width: nat, trunc: Expr, sign: Expr, outerShift: nat, c: Chain, env: Env) returns (v: int)
    requires 2 <= width && WellFormed(trunc) && trunc.Trunc? && WellFormed(sign)
    requires SimpleShape(width, trunc, sign, outerShift, c) && 0 < c.magic < Pow2(width)
    ensures WellFormed(trunc.arg) && WellFormed(trunc.arg.lhs) && WellFormed(SplitProduct(trunc.arg.lhs).value.1.arg)
    ensures v == SignedEval(SplitProduct(trunc.arg.lhs).value.1.arg, env) && IsSigned(v, width)
    ensures Eval(trunc.arg.lhs, env) == Wrap(v * c.magic, 2 * width)
  {
    hide SameLowBits, Pow2, Eval, Wrap, ToSigned;
    assert WellFormed(trunc.arg);
    var mul := trunc.arg.lhs;
    assert WellFormed(mul);
    var (magic, factor) := SplitProduct(mul).value;
    assert magic < Pow2(2 * width - 1);
    SignedProductValue(mul, width, magic, factor, env);
    ToSignedSmall(magic, 2 * width);
    v := SignedEval(factor.arg, env);
  }

  /** The high part of the product. */
  lemma SimpleValue(width: nat, trunc: Expr, sign: Expr, outerShift: nat, c: Chain, v: int, env: Env)
    requires 2 <= width && WellFormed(trunc) && trunc.Trunc? && WellFormed(sign)
    requires SimpleShape(width, trunc, sign, outerShift, c) && 0 < c.magic < Pow2(width) && IsSigned(v, width)
    requires WellFormed(trunc.arg) && WellFormed(trunc.arg.lhs)
    requires Eval(trunc.arg.lhs, env) == Wrap(v * c.magic, 2 * width)
    ensures var t := ShiftedProduct(v, c.magic, trunc.arg.rhs.value);
      IsSigned(t, width) && (t < 0 <==> v < 0) && Eval(trunc, env) == Wrap(t, width)
  {
    hide SameLowBits, Pow2, Eval, Wrap, WellFormed, IsSigned;
    SignedHighRange(v, c.magic, width, trunc.arg.rhs.value);
    SignedHighValue(trunc, width, v * c.magic, env);
  }

  /** The sign bit, when it is taken from the product. */
  lemma SimpleSign(width: nat, trunc: Expr, sign: Expr, outerShift: nat, c: Chain, v: int, env: Env)
    requires 2 <= width && WellFormed(trunc) && trunc.Trunc? && WellFormed(sign)
    requires SimpleShape(width, trunc, sign, outerShift, c) && 0 < c.magic < Pow2(width) && IsSigned(v, width)
    requires WellFormed(trunc.arg) && WellFormed(trunc.arg.lhs)
    requires Eval(trunc.arg.lhs, env) == Wrap(v * c.magic, 2 * width)
    requires sign.Trunc? && sign.bits == width && sign.arg.rhs.value == 2 * width - 1
    ensures Eval(sign, env) == if v < 0 then 1 else 0
  {
    assert WellFormed(sign.arg);
    hide SameLowBits, Pow2, Eval, Wrap, WellFormed;
    SignedHighRange(v, c.magic, width, trunc.arg.rhs.value);
    ProductRange(v, c.magic, Pow2(width), Pow2(width - 1));
    ProductSignBit(sign, trunc.arg.lhs, width, v * c.magic, env);
  }

  lemma ToSignedSmall(v: nat, w: nat)
    requires 0 < w && v < Pow2(w - 1)
    ensures IsWord(v, w) && ToSigned(v, w) == v
  {
    Pow2Le(w - 1, w);
  }

  lemma SignSourceAgrees(source: Expr, trunc: Expr, scaled: Expr, env: Env)
    requires WellFormed(source) && WellFormed(trunc) && WellFormed(scaled)
    requires Width(source) == Width(trunc) == Width(scaled)
    requires SameLowBits(source, trunc) || SameLowBits(source, scaled)
    ensures SignedEval(source, env) == SignedEval(trunc, env) || SignedEval(source, env) == SignedEval(scaled, env)
  {
    if SameLowBits(source, trunc) {
      SameLowBitsAgree(source, trunc, env);
    } else {
      SameLowBitsAgree(source, scaled, env);
    }
  }

  /** The +x form with the operands named: sum = high + dividend. */
  ghost predicate PlusXShape(width: nat, sum: Expr, sign: Expr, extraShift: nat, c: Chain, high: Expr)
    requires 2 <= width
  {
    && sum.Bin? && sum.op == Add && sign.Bin? && SameLowBits(sign.lhs, sum)
    && var a, b := StripWidthRoundTrip(sum.lhs), StripWidthRoundTrip(sum.rhs);
       && ((high == a && c.scaled == b) || (high == b && c.scaled == a))
       && high.Trunc? && high.bits == width && IsConstShift(high.arg, LShr) && high.arg.rhs.value == width
       && var mul := high.arg.lhs;
          && Width(mul) == 2 * width && SplitProduct(mul).Some?
          && var (magic, factor) := SplitProduct(mul).value;
             && factor.SExt? && 0 < Width(factor.arg) <= width && SameLowBits(factor.arg, c.scaled)
             && Pow2(2 * width - 1) <= magic
             && c == Chain(c.scaled, Wrap(magic, width), width + extraShift, width - 1, width, true, false, 0, false)
  }

  function PlusXHigh(sum: Expr): Expr
    requires sum.Bin?
  {
    var a, b := StripWidthRoundTrip(sum.lhs), StripWidthRoundTrip(sum.rhs);
    if a.Trunc? then a else b
  }

  lemma PlusXHasShape(width: nat, subtractForm: bool, sum: Expr, sign: Expr, extraShift: nat)
    requires 2 <= width && WellFormed(sum)
    requires MatchSignedPlusX(width, subtractForm, sum, sign, extraShift).Some?
    ensures sum.Bin?
    ensures PlusXShape(width, sum, sign, extraShift, MatchSignedPlusX(width, subtractForm, sum, sign, extraShift).value,
                       PlusXHigh(sum))
  {
    hide Pow2, SameLowBits, StripWidthRoundTrip, Wrap;
    var c := MatchSignedPlusX(width, subtractForm, sum, sign, extraShift).value;
    var high := PlusXHigh(sum);
    assert high.Trunc? && ParseHighHalf(high, width).Some?;
    PlusXOperandTypes(sum, c.scaled);
  }

  lemma PlusXOperandTypes(sum: Expr, other: Expr)
    requires WellFormed(sum) && sum.Bin?
    ensures var a, b := StripWidthRoundTrip(sum.lhs), StripWidthRoundTrip(sum.rhs);
            WellFormed(a) && WellFormed(b) && Width(a) == Width(sum) && Width(b) == Width(sum)
  {
    RoundTripKeeps(sum.lhs, n => 0);
    RoundTripKeeps(sum.rhs, n => 0);
  }

  lemma SignedEvalOf(e: Expr, env: Env)
    requires WellFormed(e)
    ensures 0 < Width(e) && SignedEval(e, env) == ToSigned(Eval(e, env), Width(e))
  {
  }

  lemma PlusXFacts(width: nat, sum: Expr, sign: Expr, extraShift: nat, c: Chain, high: Expr)
    requires 2 <= width && WellFormed(sum) && Width(sum) == width && WellFormed(sign) && Width(sign) == width
    requires PlusXShape(width, sum, sign, extraShift, c, high)
    ensures sign.Bin? && WellFormed(sign.lhs) && Width(sign.lhs) == width && SameLowBits(sign.lhs, sum)
    ensures WellFormed(c.scaled) && Width(c.scaled) == width && c.width == width && c.inputBits == width - 1
    ensures c.signed && !c.addCorrection && !c.narrowProduct
  {
    assert WellFormed(sign.lhs);
    hide SameLowBits, StripWidthRoundTrip;
    PlusXOperandTypes(sum, high);
  }

  /** The high half of the product, whatever the magic and the width of the view. */
  lemma PlusXHighValue(high: Expr, width: nat, magic: nat, factor: Expr, env: Env)
    requires high.Trunc? && high.bits == width && IsConstShift(high.arg, LShr) && high.arg.rhs.value == width
    requires WellFormed(high) && WellFormed(high.arg) && WellFormed(high.arg.lhs)
    requires Width(high.arg.lhs) == 2 * width && SplitProduct(high.arg.lhs) == Some((magic, factor))
    requires factor.SExt? && Width(factor.arg) <= width
    ensures WellFormed(factor.arg) && magic < Pow2(2 * width)
    ensures Eval(high, env)
         == Wrap(ShiftedProduct(SignedEval(factor.arg, env), ToSigned(magic, 2 * width), width), width)
  {
    SignedProductValue(high.arg.lhs, width, magic, factor, env);
    var p := SignedEval(factor.arg, env) * ToSigned(magic, 2 * width);
    assert Eval(high.arg, env) == Eval(high.arg.lhs, env) / Pow2(width);
    hide Eval, WellFormed, SplitProduct;
    WrapHigh(p, width, width);
    WrapSmall(Wrap(p / Pow2(width), width), width, width);
  }

  /** Sums and differences seen through width round trips. */
  lemma OperandViews(e: Expr, env: Env)
    requires WellFormed(e) && e.Bin?
    ensures var a, b := StripWidthRoundTrip(e.lhs), StripWidthRoundTrip(e.rhs);
            && WellFormed(a) && WellFormed(b) && Width(a) == Width(e) && Width(b) == Width(e)
            && (e.op == Add ==> Eval(e, env) == Wrap(Eval(a, env) + Eval(b, env), Width(e)))
            && (e.op == Sub ==> Eval(e, env) == Wrap(Eval(a, env) - Eval(b, env), Width(e)))
  {
    assert Width(e.lhs) == Width(e) == Width(e.rhs);
    EvalSum(e, env);
    RoundTripKeeps(e.lhs, env);
    RoundTripKeeps(e.rhs, env);
    hide *;
  }

  lemma SumOfViews(sum: Expr, p: Expr, q: Expr, env: Env)
    requires WellFormed(sum) && sum.Bin? && sum.op == Add && OperandsAreViews(sum, p, q)
    ensures WellFormed(p) && WellFormed(q) && Width(p) == Width(sum) && Width(q) == Width(sum)
    ensures Eval(sum, env) == Wrap(Eval(p, env) + Eval(q, env), Width(sum))
  {
    hide StripWidthRoundTrip, WellFormed, Eval, Width, Wrap;
    OperandViews(sum, env);
    assert Eval(p, env) + Eval(q, env) == Eval(q, env) + Eval(p, env);
  }

  predicate OperandsAreViews(root: Expr, p: Expr, q: Expr)
    requires root.Bin?
  {
    var a, b := StripWidthRoundTrip(root.lhs), StripWidthRoundTrip(root.rhs);
    (p == a && q == b) || (p == b && q == a)
  }

  lemma EvalSum(e: Expr, env: Env)
    requires WellFormed(e) && e.Bin?
    ensures WellFormed(e.lhs) && WellFormed(e.rhs)
    ensures e.op == Add ==> Eval(e, env) == Wrap(Eval(e.lhs, env) + Eval(e.rhs, env), Width(e))
    ensures e.op == Sub ==> Eval(e, env) == Wrap(Eval(e.lhs, env) - Eval(e.rhs, env), Width(e))
  {
  }

  lemma OperandRoles(root: Expr, shifted: Expr, sign: Expr)
    requires root.Bin? && 2 <= Width(root) && SignedOperands(root) == Some((shifted, sign))
    ensures OperandsAreViews(root, shifted, sign)
    ensures SignedRole(shifted, Width(root), root.op == Sub) == Quotient
    ensures SignedRole(sign, Width(root), root.op == Sub) == SignBit
  {
    hide StripWidthRoundTrip;
  }

  lemma ViewTypes(root: Expr, view: Expr)
    requires WellFormed(root) && root.Bin?
    requires view == StripWidthRoundTrip(root.lhs) || view == StripWidthRoundTrip(root.rhs)
    ensures WellFormed(view) && Width(view) == Width(root)
    ensures view.Bin? ==> WellFormed(view.lhs) && Width(view.lhs) == Width(root)
  {
    hide StripWidthRoundTrip, Eval;
    RoundTripKeeps(root.lhs, n => 0);
    RoundTripKeeps(root.rhs, n => 0);
  }

  /** The operands of a signed root are typed like the root. */
  lemma SignedOperandTypes(root: Expr, shifted: Expr, sign: Expr)
    requires WellFormed(root) && root.Bin? && 2 <= Width(root) && SignedOperands(root) == Some((shifted, sign))
    ensures WellFormed(shifted) && WellFormed(sign) && Width(shifted) == Width(root) && Width(sign) == Width(root)
    ensures shifted.Bin? ==> shifted.op == AShr && WellFormed(shifted.lhs) && Width(shifted.lhs) == Width(root)
    ensures sign.Bin? ==> sign.rhs.Const? && sign.rhs.value == Width(root) - 1 && WellFormed(sign.lhs) &&
                          sign.op == (if root.op == Sub then AShr else LShr)
    ensures sign.Bin? || sign.Trunc?
    ensures shifted.Bin? || shifted.Trunc?
    ensures OperandsAreViews(root, shifted, sign) && shifted != sign
    ensures sign.Trunc? ==> sign.bits == Width(root) && IsConstShift(sign.arg, LShr) &&
                            sign.arg.rhs.value == 2 * Width(root) - 1
  {
    hide StripWidthRoundTrip, SignedOperands, WellFormed;
    OperandRoles(root, shifted, sign);
    ViewTypes(root, shifted);
    ViewTypes(root, sign);
  }

  /** What the sign operand holds: 1 from lshr or from the product's top bit, -1
      from ashr, 0 unless the dividend is negative. */
  lemma SignOperandValue(sign: Expr, subtractForm: bool, width: nat, negative: bool, env: Env)
    requires 2 <= width && WellFormed(sign) && Width(sign) == width
    requires sign.Bin? ==> sign.rhs.Const? && sign.rhs.value == width - 1 && WellFormed(sign.lhs) &&
                           sign.op == (if subtractForm then AShr else LShr) &&
                           (SignedEval(sign.lhs, env) < 0 <==> negative)
    requires !sign.Bin? ==> Eval(sign, env) == if negative then 1 else 0
    ensures Eval(sign, env) == Wrap(SignOperand(sign, subtractForm, negative), width)
  {
    Pow2Le(1, width);
    WrapSmall(if negative then 1 else 0, 1, width);
    if sign.Bin? {
      SignBitValue(Eval(sign.lhs, env), width);
    }
  }

  function SignOperand(sign: Expr, subtractForm: bool, negative: bool): int {
    if !negative then 0 else if sign.Bin? && subtractForm then -1 else 1
  }

  /** The tree under the outer shift of a signed root. */
  function SignedBase(root: Expr): Expr
    requires root.Bin? && 2 <= Width(root) && SignedOperands(root).Some?
  {
    var shifted := SignedOperands(root).value.0;
    StripWidthRoundTrip(if shifted.Bin? then shifted.lhs else shifted)
  }

  function OuterShiftAmount(root: Expr): nat
    requires root.Bin? && 2 <= Width(root) && SignedOperands(root).Some?
  {
    var shifted := SignedOperands(root).value.0;
    if shifted.Bin? && shifted.rhs.Const? then shifted.rhs.value else 0
  }

  /** What the matcher did not look at in a signed root. */
  function VariantOf(root: Expr): SignedVariant
    requires root.Bin? && 2 <= Width(root) && SignedOperands(root).Some?
  {
    var sign, base := SignedOperands(root).value.1, SignedBase(root);
    SignedVariant(if base.Trunc? && IsConstShift(base.arg, AShr) then OuterShiftAmount(root) else 0,
                  root.op == Sub && StripWidthRoundTrip(root.lhs) == sign,
                  root.op == Sub && !sign.Bin?)
  }

  lemma SignedChainKind(root: Expr)
    requires MatchSignedMagicMulChain(root).Some?
    ensures root.Bin? && (root.op == Add || root.op == Sub) && 2 <= Width(root) && SignedOperands(root).Some?
    ensures var c := MatchSignedMagicMulChain(root).value;
            c.width == Width(root) && c.signed && !c.addCorrection && !c.narrowProduct
  {
    hide SignedOperands, StripWidthRoundTrip, ParseHighHalf, ParseMagicProduct, SameLowBits, Pow2, Wrap;
  }

  /** A recognised signed root over a high half computes its variant of
      floor(x * M / 2^K) + [x < 0]. */
  lemma SignedChainValue(root: Expr, env: Env)
    requires WellFormed(root) && MatchSignedMagicMulChain(root).Some?
    requires root.Bin? && 2 <= Width(root) && SignedOperands(root).Some? && SignedBase(root).Trunc?
    requires var c := MatchSignedMagicMulChain(root).value; 0 < c.magic < Pow2(Width(root)) && 0 < c.inputBits
    ensures var c := MatchSignedMagicMulChain(root).value;
            && c.width == Width(root) && c.inputBits < c.width
            && WellFormed(c.scaled) && Width(c.scaled) == c.width
            && IsSigned(SignedEval(c.scaled, env), c.inputBits + 1)
            && Eval(root, env)
            == Wrap(VariantForm(c.magic, c.shift, VariantOf(root), SignedEval(c.scaled, env)), c.width)
  {
    hide *;
    SignedChainKind(root);
    var c := MatchSignedMagicMulChain(root).value;
    var (shifted, sign) := SignedOperands(root).value;
    SignedOperandTypes(root, shifted, sign);
    QuotientOperandValue(root, shifted, sign, c, env);
    var x := SignedEval(c.scaled, env);
    var q := ShiftedProduct(x, c.magic, c.shift + VariantOf(root).secondShift);
    SignedRootValue(root, shifted, sign, q, x < 0, env);
    VariantIs(root, c.magic, c.shift, x);
  }

  lemma SignedRootValue(root: Expr, shifted: Expr, sign: Expr, q: int, negative: bool, env: Env)
    requires WellFormed(root) && root.Bin? && (root.op == Add || root.op == Sub) && 2 <= Width(root)
    requires OperandsAreViews(root, shifted, sign) && shifted != sign
    requires WellFormed(shifted) && WellFormed(sign) && Width(sign) == Width(root)
    requires Eval(shifted, env) == Wrap(q, Width(root))
    requires sign.Bin? ==> sign.rhs.Const? && sign.rhs.value == Width(root) - 1 && WellFormed(sign.lhs) &&
                           sign.op == (if root.op == Sub then AShr else LShr) &&
                           (SignedEval(sign.lhs, env) < 0 <==> negative)
    requires !sign.Bin? ==> Eval(sign, env) == if negative then 1 else 0
    ensures Eval(root, env) == Wrap(RootForm(root, sign, q, SignOperand(sign, root.op == Sub, negative)), Width(root))
  {
    hide *;
    SignOperandValue(sign, root.op == Sub, Width(root), negative, env);
    RootValue(root, shifted, sign, q, SignOperand(sign, root.op == Sub, negative), env);
  }

  lemma VariantIs(root: Expr, M: nat, K: nat, x: int)
    requires root.Bin? && 2 <= Width(root) && SignedOperands(root).Some? && (root.op == Sub || root.op == Add)
    ensures var sign, v := SignedOperands(root).value.1, VariantOf(root);
      VariantForm(M, K, v, x)
      == RootForm(root, sign, ShiftedProduct(x, M, K + v.secondShift), SignOperand(sign, root.op == Sub, x < 0))
  {
    hide StripWidthRoundTrip, SignedOperands, ShiftedProduct;
  }

  /** The quotient operand holds the floor of the shifted product, and the sign
      operand shows the sign of x. */
  lemma QuotientOperandValue(root: Expr, shifted: Expr, sign: Expr, c: Chain, env: Env)
    requires WellFormed(root) && root.Bin? && 2 <= Width(root) && MatchSignedMagicMulChain(root) == Some(c)
    requires SignedOperands(root) == Some((shifted, sign)) && SignedBase(root).Trunc?
    requires 0 < c.magic < Pow2(Width(root)) && 0 < c.inputBits
    requires WellFormed(shifted) && WellFormed(sign) && Width(shifted) == Width(root) && Width(sign) == Width(root)
    requires shifted.Bin? ==> shifted.op == AShr && WellFormed(shifted.lhs) && Width(shifted.lhs) == Width(root)
    requires !sign.Bin? ==> sign.Trunc? && sign.bits == Width(root) && IsConstShift(sign.arg, LShr) &&
                            sign.arg.rhs.value == 2 * Width(root) - 1
    ensures c.width == Width(root) && WellFormed(c.scaled) && Width(c.scaled) == c.width
    ensures c.signed && !c.addCorrection && !c.narrowProduct && c.inputBits < c.width
    ensures var x := SignedEval(c.scaled, env);
            && IsSigned(x, c.inputBits + 1)
            && Eval(shifted, env) == Wrap(ShiftedProduct(x, c.magic, c.shift + VariantOf(root).secondShift), c.width)
            && (sign.Bin? ==> WellFormed(sign.lhs) && Width(sign.lhs) == c.width &&
                              (SignedEval(sign.lhs, env) < 0 <==> x < 0))
            && (!sign.Bin? ==> Eval(sign, env) == if x < 0 then 1 else 0)
  {
    hide *;
    OuterShiftIsConstant(root, shifted, sign);
    BaseTypes(root, shifted, sign, env);
    var base, outer := SignedBase(root), OuterShiftAmount(root);
    SimpleRoot(root, shifted, sign, c, env);
    var x, k := SignedEval(c.scaled, env), base.arg.rhs.value;
    BaseFacts(base, sign, c, x, ShiftedProduct(x, c.magic, k), env);
    OuterShift(base, shifted, Width(root), x, c.magic, k, outer, env);
  }

  lemma BaseTypes(root: Expr, shifted: Expr, sign: Expr, env: Env)
    requires root.Bin? && 2 <= Width(root) && SignedOperands(root) == Some((shifted, sign))
    requires WellFormed(shifted) && Width(shifted) == Width(root)
    requires shifted.Bin? ==> WellFormed(shifted.lhs) && Width(shifted.lhs) == Width(root) && shifted.rhs.Const?
    ensures var base, source := SignedBase(root), if shifted.Bin? then shifted.lhs else shifted;
      && base == StripWidthRoundTrip(source) && WellFormed(base) && Width(base) == Width(root)
      && Eval(base, env) == Eval(source, env)
    ensures OuterShiftAmount(root) == if shifted.Bin? then shifted.rhs.value else 0
  {
    hide StripWidthRoundTrip, SignedOperands, Eval, WellFormed;
    RoundTripKeeps(if shifted.Bin? then shifted.lhs else shifted, env);
  }

  lemma SimpleRoot(root: Expr, shifted: Expr, sign: Expr, c: Chain, env: Env)
    requires WellFormed(root) && root.Bin? && 2 <= Width(root) && MatchSignedMagicMulChain(root) == Some(c)
    requires SignedOperands(root) == Some((shifted, sign)) && SignedBase(root).Trunc?
    requires 0 < c.magic < Pow2(Width(root)) && 0 < c.inputBits
    requires WellFormed(SignedBase(root)) && WellFormed(sign) && Width(sign) == Width(root)
    requires !sign.Bin? ==> sign.Trunc? && sign.bits == Width(root) && IsConstShift(sign.arg, LShr) &&
                            sign.arg.rhs.value == 2 * Width(root) - 1
    ensures var base := SignedBase(root);
      && base.arg.Bin? && base.arg.rhs.Const? && c.width == Width(root) && WellFormed(c.scaled)
      && c.shift + VariantOf(root).secondShift == base.arg.rhs.value + OuterShiftAmount(root)
      && BaseComputes(base, sign, c,
                      ShiftedProduct(SignedEval(c.scaled, env), c.magic, base.arg.rhs.value), env)
  {
    hide Pow2, SameLowBits, StripWidthRoundTrip, SignedOperands;
    SignedSimpleShape(Width(root), SignedBase(root), sign, OuterShiftAmount(root));
    SignedSimpleBase(Width(root), SignedBase(root), sign, OuterShiftAmount(root), c, env);
  }

  lemma BaseFacts(base: Expr, sign: Expr, c: Chain, x: int, t: int, env: Env)
    requires 0 < c.width && BaseComputes(base, sign, c, t, env) && x == SignedEval(c.scaled, env)
    ensures c.signed && !c.addCorrection && !c.narrowProduct && c.inputBits < c.width
    ensures WellFormed(c.scaled) && Width(c.scaled) == c.width && IsSigned(x, c.inputBits + 1)
    ensures IsSigned(t, c.width) && WellFormed(base) && Eval(base, env) == Wrap(t, c.width)
    ensures sign.Bin? ==> WellFormed(sign.lhs) && Width(sign.lhs) == c.width &&
                          (SignedEval(sign.lhs, env) < 0 <==> x < 0)
    ensures !sign.Bin? ==> Eval(sign, env) == if x < 0 then 1 else 0
  {
    hide Eval, WellFormed, Wrap, Pow2, SignedEval;
  }

  lemma OuterShiftIsConstant(root: Expr, shifted: Expr, sign: Expr)
    requires root.Bin? && 2 <= Width(root) && MatchSignedMagicMulChain(root).Some?
    requires SignedOperands(root) == Some((shifted, sign))
    ensures shifted.Bin? ==> shifted.rhs.Const?
  {
    hide SignedOperands, StripWidthRoundTrip;
  }

  lemma OuterShift(base: Expr, shifted: Expr, width: nat, x: int, M: int, k: nat, outer: nat, env: Env)
    requires WellFormed(shifted) && Width(shifted) == width && 0 < width
    requires shifted.Bin? ==> shifted.op == AShr && shifted.rhs.Const? && WellFormed(shifted.lhs)
    requires base == StripWidthRoundTrip(if shifted.Bin? then shifted.lhs else shifted)
    requires outer == if shifted.Bin? then shifted.rhs.value else 0
    requires IsSigned(ShiftedProduct(x, M, k), width)
    requires WellFormed(base) && Eval(base, env) == Wrap(ShiftedProduct(x, M, k), width)
    ensures Eval(shifted, env) == Wrap(ShiftedProduct(x, M, k + outer), width)
  {
    hide StripWidthRoundTrip, ShiftedProduct, Wrap, Pow2, Eval;
    ShiftedQuotient(base, shifted, width, ShiftedProduct(x, M, k), env);
    ShiftedTwice(x, M, k, outer);
  }

  lemma ShiftedTwice(x: int, M: int, a: nat, b: nat)
    ensures ShiftedProduct(x, M, a) / Pow2(b) == ShiftedProduct(x, M, a + b)
  {
    TwoShifts(x * M, a, b);
  }

  /** The root puts a quotient q and the signed reading s of its sign together. */
  function RootForm(root: Expr, sign: Expr, q: int, s: int): int
    requires root.Bin?
  {
    if root.op == Add then q + s else if StripWidthRoundTrip(root.lhs) == sign then s - q else q - s
  }

  lemma RootValue(root: Expr, shifted: Expr, sign: Expr, q: int, s: int, env: Env)
    requires WellFormed(root) && root.Bin? && (root.op == Add || root.op == Sub)
    requires OperandsAreViews(root, shifted, sign) && shifted != sign
    requires WellFormed(shifted) && WellFormed(sign)
    requires Eval(shifted, env) == Wrap(q, Width(root)) && Eval(sign, env) == Wrap(s, Width(root))
    ensures Eval(root, env) == Wrap(RootForm(root, sign, q, s), Width(root))
  {
    hide Wrap, Pow2, Eval, WellFormed, StripWidthRoundTrip;
    OperandViews(root, env);
    AddPatterns(Eval(shifted, env), Eval(sign, env), q, s, Width(root));
    AddPatterns(Eval(sign, env), Eval(shifted, env), s, q, Width(root));
  }

  lemma AddPatterns(a: nat, b: nat, x: int, y: int, w: nat)
    requires a == Wrap(x, w) && b == Wrap(y, w)
    ensures Wrap(a + b, w) == Wrap(x + y, w)
    ensures Wrap(a - b, w) == Wrap(x - y, w)
  {
    WrapSum(x, y, w);
  }

  /** The magic and the view of the dividend that the +x form multiplies. */
  function PlusXProduct(base: Expr, width: nat): Option<Product> {
    if !base.Bin? || !PlusXHigh(base).Trunc? || !PlusXHigh(base).arg.Bin? then None
    else ParseMagicProduct(PlusXHigh(base).arg.lhs, width)
  }

  /** A recognised +x root rounds the sum of x and the high half of view * magic. */
  lemma PlusXChainValue(root: Expr, env: Env)
    requires WellFormed(root) && MatchSignedMagicMulChain(root).Some?
    requires root.Bin? && 2 <= Width(root) && SignedOperands(root).Some? && !SignedBase(root).Trunc?
    ensures var c, p := MatchSignedMagicMulChain(root).value, PlusXProduct(SignedBase(root), Width(root));
            && c.width == Width(root) && c.inputBits == c.width - 1 && c.shift == c.width + OuterShiftAmount(root)
            && WellFormed(c.scaled) && Width(c.scaled) == c.width
            && p.Some? && WellFormed(p.value.scaled) && Width(p.value.scaled) == p.value.sourceBits <= c.width
            && IsWord(p.value.magic, 2 * c.width) && c.magic == Wrap(p.value.magic, c.width)
            && var x, y := SignedEval(c.scaled, env), SignedEval(p.value.scaled, env);
               && (IsSigned(x, p.value.sourceBits) ==> y == x)
               && Eval(root, env)
               == Wrap(Rounded(PlusXSum(x, y, ToSigned(p.value.magic, 2 * c.width), c.width),
                               OuterShiftAmount(root)), c.width)
  {
    var c := MatchSignedMagicMulChain(root).value;
    var (shifted, sign) := SignedOperands(root).value;
    hide *;
    SignedOperandTypes(root, shifted, sign);
    OuterShiftIsConstant(root, shifted, sign);
    BaseTypes(root, shifted, sign, env);
    var base := SignedBase(root);
    PlusXRoot(root, shifted, sign, c);
    PlusXSumValue(Width(root), base, sign, OuterShiftAmount(root), c, PlusXHigh(base), env);
    var u := SignedEval(base, env);
    PlusXQuotient(root, shifted, sign, base, u, env);
  }

  lemma PlusXRoot(root: Expr, shifted: Expr, sign: Expr, c: Chain)
    requires WellFormed(root) && root.Bin? && 2 <= Width(root) && MatchSignedMagicMulChain(root) == Some(c)
    requires SignedOperands(root) == Some((shifted, sign)) && !SignedBase(root).Trunc?
    requires WellFormed(SignedBase(root))
    ensures root.op == Add && SignedBase(root).Bin?
    ensures PlusXShape(Width(root), SignedBase(root), sign, OuterShiftAmount(root), c, PlusXHigh(SignedBase(root)))
  {
    hide Pow2, SameLowBits, StripWidthRoundTrip, SignedOperands, PlusXShape;
    PlusXHasShape(Width(root), root.op == Sub, SignedBase(root), sign, OuterShiftAmount(root));
  }

  lemma PlusXSumValue(width: nat, sum: Expr, sign: Expr, extraShift: nat, c: Chain, high: Expr, env: Env)
    requires 2 <= width && WellFormed(sum) && Width(sum) == width && WellFormed(sign) && Width(sign) == width
    requires PlusXShape(width, sum, sign, extraShift, c, high) && high == PlusXHigh(sum)
    ensures c.width == width && c.inputBits == width - 1 && c.shift == width + extraShift
    ensures sign.Bin? && WellFormed(sign.lhs) && Width(sign.lhs) == width
    ensures SignedEval(sign.lhs, env) == SignedEval(sum, env)
    ensures WellFormed(c.scaled) && Width(c.scaled) == width
    ensures var p := PlusXProduct(sum, width);
      && p.Some? && WellFormed(p.value.scaled) && Width(p.value.scaled) == p.value.sourceBits <= width
      && IsWord(p.value.magic, 2 * width) && c.magic == Wrap(p.value.magic, width)
      && var x, y := SignedEval(c.scaled, env), SignedEval(p.value.scaled, env);
         && (IsSigned(x, p.value.sourceBits) ==> y == x)
         && SignedEval(sum, env) == PlusXSum(x, y, ToSigned(p.value.magic, 2 * width), width)
  {
    hide *;
    PlusXFacts(width, sum, sign, extraShift, c, high);
    var magic, factor := PlusXPieces(width, sum, sign, extraShift, c, high);
    SameLowBitsAgree(sign.lhs, sum, env);
    PlusXHighValue(high, width, magic, factor, env);
    SumOfViews(sum, high, c.scaled, env);
    SignedView(factor.arg, c.scaled, env);
    var x := SignedEval(c.scaled, env);
    BasePattern(c.scaled, x, env);
    PlusXAdds(Eval(high, env), Eval(c.scaled, env), x, SignedEval(factor.arg, env), ToSigned(magic, 2 * width), width);
    SignedEvalOf(sum, env);
    SignedEvalOf(sign.lhs, env);
  }

  lemma PlusXPieces(width: nat, sum: Expr, sign: Expr, extraShift: nat, c: Chain, high: Expr)
    returns (magic: nat, factor: Expr)
    requires 2 <= width && WellFormed(sum) && Width(sum) == width
    requires PlusXShape(width, sum, sign, extraShift, c, high) && high == PlusXHigh(sum)
    ensures sum.Bin? && sum.op == Add && OperandsAreViews(sum, high, c.scaled) && c.shift == width + extraShift
    ensures high.Trunc? && high.bits == width && IsConstShift(high.arg, LShr) && high.arg.rhs.value == width
    ensures WellFormed(high) && WellFormed(high.arg) && WellFormed(high.arg.lhs) && Width(high.arg.lhs) == 2 * width
    ensures SplitProduct(high.arg.lhs) == Some((magic, factor)) && factor.SExt? && WellFormed(factor.arg)
    ensures 0 < Width(factor.arg) <= width && SameLowBits(factor.arg, c.scaled)
    ensures IsWord(magic, 2 * width) && c.magic == Wrap(magic, width)
    ensures PlusXProduct(sum, width) == Some(Product(factor.arg, magic, true, Width(factor.arg)))
  {
    hide StripWidthRoundTrip, SameLowBits, Eval, Wrap, Pow2;
    PlusXOperandTypes(sum, high);
    magic, factor := SplitProduct(high.arg.lhs).value.0, SplitProduct(high.arg.lhs).value.1;
    assert WellFormed(high.arg) && WellFormed(high.arg.lhs);
    SplitProductValue(high.arg.lhs, n => 0);
  }

  lemma PlusXAdds(a: nat, b: nat, x: int, y: int, magic: int, W: nat)
    requires 0 < W && a == Wrap(ShiftedProduct(y, magic, W), W) && b == Wrap(x, W)
    ensures ToSigned(Wrap(a + b, W), W) == PlusXSum(x, y, magic, W)
  {
    hide Wrap, Pow2, ShiftedProduct;
    WrapSum(ShiftedProduct(y, magic, W), x, W);
  }

  /** A narrower view of a number that fits it shows that number. */
  lemma SignedView(view: Expr, e: Expr, env: Env)
    requires WellFormed(view) && WellFormed(e) && SameLowBits(view, e) && Width(view) <= Width(e)
    ensures IsSigned(SignedEval(e, env), Width(view)) ==> SignedEval(view, env) == SignedEval(e, env)
  {
    var x, w := SignedEval(e, env), Width(view);
    SameLowBitsNarrow(view, e, env);
    SignedRoundTrip(Eval(e, env), Width(e));
    WrapWrap(x, Width(e), w);
    if IsSigned(x, w) { WrapSigned(x, w); }
  }

  lemma PlusXQuotient(root: Expr, shifted: Expr, sign: Expr, base: Expr, u: int, env: Env)
    requires WellFormed(root) && root.Bin? && root.op == Add && 2 <= Width(root)
    requires SignedOperands(root) == Some((shifted, sign)) && base == SignedBase(root)
    requires WellFormed(base) && Width(base) == Width(root) && u == SignedEval(base, env)
    requires shifted.Bin? ==> shifted.rhs.Const?
    requires sign.Bin? && WellFormed(sign.lhs) && SignedEval(sign.lhs, env) == u
    ensures Eval(root, env) == Wrap(Rounded(u, OuterShiftAmount(root)), Width(root))
  {
    hide *;
    SignedOperandTypes(root, shifted, sign);
    BaseTypes(root, shifted, sign, env);
    BasePattern(base, u, env);
    ShiftedQuotient(base, shifted, Width(root), u, env);
    SignOperandValue(sign, false, Width(root), u < 0, env);
    var s := SignOperand(sign, false, u < 0);
    RootValue(root, shifted, sign, u / Pow2(OuterShiftAmount(root)), s, env);
    RoundedRoot(root, sign, u, OuterShiftAmount(root));
  }

  lemma BasePattern(e: Expr, u: int, env: Env)
    requires WellFormed(e) && u == SignedEval(e, env)
    ensures 0 < Width(e) && IsSigned(u, Width(e)) && Eval(e, env) == Wrap(u, Width(e))
  {
    SignedRoundTrip(Eval(e, env), Width(e));
  }

  lemma RoundedRoot(root: Expr, sign: Expr, u: int, s: nat)
    requires root.Bin? && root.op == Add
    ensures RootForm(root, sign, u / Pow2(s), SignOperand(sign, false, u < 0)) == Rounded(u, s)
  {
  }

  // ----- the add-correction chain ------------------------------------------------------

  /** The facts about the tree that MatchUnsignedAddMagicMulChain checked. */
  ghost predicate AddShape(root: Expr, c: Chain, high: Expr, halved: Expr) {
    && root.Bin? && root.op == LShr && root.rhs.Const? && 0 < root.rhs.value && c.width == Width(root)
    && StripWidthRoundTrip(root.lhs).Bin? && StripWidthRoundTrip(root.lhs).op == Add
    && OperandsAreViews(StripWidthRoundTrip(root.lhs), high, halved)
    && halved.Bin? && halved.op == LShr && halved.rhs.Const? && halved.rhs.value == 1
    && StripWidthRoundTrip(halved.lhs).Bin? && StripWidthRoundTrip(halved.lhs).op == Sub
    && high.Trunc? && high.bits == c.width && IsConstShift(high.arg, LShr)
    && Width(high.arg.lhs) == 2 * c.width && SplitProduct(high.arg.lhs).Some?
    && var (magic, factor) := SplitProduct(high.arg.lhs).value;
       && factor.ZExt? && 0 < Width(factor.arg) <= c.width && SameLowBits(factor.arg, c.scaled)
       && c.magic == magic && c.shift == Limited(high.arg.rhs.value, 2 * c.width) && c.width <= c.shift
       && Minuend(StripWidthRoundTrip(halved.lhs), high) == Some(c.scaled)
       && c.inputBits == DividendBitBound(c.scaled, c.width)
       && !c.signed && c.addCorrection && c.extraShift == root.rhs.value + 1
  }

  function AddHigh(root: Expr): Expr
    requires root.Bin? && StripWidthRoundTrip(root.lhs).Bin?
  {
    var sum := StripWidthRoundTrip(root.lhs);
    var a, b := StripWidthRoundTrip(sum.lhs), StripWidthRoundTrip(sum.rhs);
    if a.Trunc? then a else b
  }

  function AddHalved(root: Expr): Expr
    requires root.Bin? && StripWidthRoundTrip(root.lhs).Bin?
  {
    var sum := StripWidthRoundTrip(root.lhs);
    var a, b := StripWidthRoundTrip(sum.lhs), StripWidthRoundTrip(sum.rhs);
    if a.Trunc? then b else a
  }

  lemma AddHasShape(root: Expr)
    requires WellFormed(root) && MatchUnsignedAddMagicMulChain(root).Some?
    ensures root.Bin? && StripWidthRoundTrip(root.lhs).Bin?
    ensures AddShape(root, MatchUnsignedAddMagicMulChain(root).value, AddHigh(root), AddHalved(root))
  {
    hide SameLowBits, StripWidthRoundTrip, Pow2;
  }

  /** Whether the difference is h - x. */
  predicate AddSwapped(root: Expr)
    requires root.Bin? && StripWidthRoundTrip(root.lhs).Bin?
  {
    var halved := AddHalved(root);
    halved.Bin? && StripWidthRoundTrip(halved.lhs).Bin? && StripWidthRoundTrip(halved.lhs).lhs == AddHigh(root)
  }

  /** The magic and the view of the dividend that the add-correction form multiplies. */
  function AddProduct(root: Expr): Option<Product>
    requires root.Bin? && StripWidthRoundTrip(root.lhs).Bin?
  {
    var high := AddHigh(root);
    if !high.Trunc? || !high.arg.Bin? then None else ParseMagicProduct(high.arg.lhs, Width(root))
  }

  lemma AddOperandTypes(root: Expr, c: Chain, high: Expr, halved: Expr, env: Env)
    requires WellFormed(root) && AddShape(root, c, high, halved)
    ensures WellFormed(high) && WellFormed(high.arg) && WellFormed(high.arg.lhs) && Width(high) == c.width
    ensures WellFormed(halved) && Width(halved) == c.width && WellFormed(halved.lhs)
    ensures WellFormed(StripWidthRoundTrip(halved.lhs)) && Width(StripWidthRoundTrip(halved.lhs)) == c.width
    ensures WellFormed(c.scaled) && Width(c.scaled) == c.width
    ensures Eval(halved, env) == Shr(Eval(StripWidthRoundTrip(halved.lhs), env), 1)
    ensures Eval(root, env) == Shr(Wrap(Eval(high, env) + Eval(halved, env), c.width), root.rhs.value)
  {
    hide StripWidthRoundTrip, SameLowBits, Eval, Wrap, Pow2, Shr, OperandsAreViews, DividendBitBound;
    EvalShift(root, env);
    RoundTripKeeps(root.lhs, env);
    SumOfViews(StripWidthRoundTrip(root.lhs), high, halved, env);
    EvalShift(halved, env);
    RoundTripKeeps(halved.lhs, env);
    assert WellFormed(high.arg) && WellFormed(high.arg.lhs);
    assert WellFormed(c.scaled) && Width(c.scaled) == c.width;
  }

  lemma EvalShift(e: Expr, env: Env)
    requires WellFormed(e) && e.Bin? && e.op == LShr && e.rhs.Const?
    ensures WellFormed(e.lhs) && Width(e.lhs) == Width(e)
    ensures Eval(e, env) == Shr(Eval(e.lhs, env), e.rhs.value)
  {
  }

  lemma AddHighValue(root: Expr, c: Chain, high: Expr, halved: Expr, env: Env)
    requires WellFormed(root) && AddShape(root, c, high, halved) && high == AddHigh(root)
    requires WellFormed(high) && WellFormed(high.arg) && WellFormed(high.arg.lhs) && WellFormed(c.scaled)
    requires Width(c.scaled) == c.width && c.magic < Pow2(c.width)
    requires root.Bin? && StripWidthRoundTrip(root.lhs).Bin?
    ensures var p := AddProduct(root);
      && p.Some? && WellFormed(p.value.scaled) && Width(p.value.scaled) == p.value.sourceBits <= c.width
      && Eval(p.value.scaled, env) == Wrap(Eval(c.scaled, env), p.value.sourceBits)
      && Eval(high, env) == ShiftedProduct(Eval(p.value.scaled, env), c.magic, c.shift)
    ensures c.width <= c.shift
  {
    hide SameLowBits, StripWidthRoundTrip, Wrap, Pow2;
    var (magic, factor) := SplitProduct(high.arg.lhs).value;
    UnsignedProductValue(high.arg.lhs, c.width, magic, factor, env);
    SameLowBitsNarrow(factor.arg, c.scaled, env);
    HighHalfValue(high, c.width, env);
  }

  lemma AddChainKind(root: Expr)
    requires MatchUnsignedAddMagicMulChain(root).Some?
    ensures root.Bin? && StripWidthRoundTrip(root.lhs).Bin?
    ensures var c := MatchUnsignedAddMagicMulChain(root).value;
            c.width == Width(root) && !c.signed && c.addCorrection
  {
    hide StripWidthRoundTrip, ParseHighHalf, ParseMagicProduct, SameLowBits, Pow2;
  }

  /** A recognised add-correction root computes ((x - h) >> 1) + h >> s, or the same
      with h - x, where h is the high half of the product of a view of x. */
  lemma AddChainValue(root: Expr, env: Env)
    requires WellFormed(root) && MatchUnsignedAddMagicMulChain(root).Some?
    requires root.Bin? && StripWidthRoundTrip(root.lhs).Bin?
    requires MatchUnsignedAddMagicMulChain(root).value.magic < Pow2(Width(root))
    ensures var c, p := MatchUnsignedAddMagicMulChain(root).value, AddProduct(root);
            && c.width == Width(root) <= c.shift && !c.signed && c.addCorrection && 0 < c.extraShift
            && WellFormed(c.scaled) && Width(c.scaled) == c.width && Eval(c.scaled, env) < Pow2(c.inputBits)
            && p.Some? && WellFormed(p.value.scaled)
            && var x, y := Eval(c.scaled, env), Eval(p.value.scaled, env);
               var h := ShiftedProduct(y, c.magic, c.shift);
               && y == Wrap(x, p.value.sourceBits)
               && Eval(root, env)
               == Shr(Wrap(h + Shr(Wrap(if AddSwapped(root) then h - x else x - h, c.width), 1), c.width),
                      c.extraShift - 1)
  {
    hide *;
    var c, high, halved := MatchUnsignedAddMagicMulChain(root).value, AddHigh(root), AddHalved(root);
    AddHasShape(root);
    AddShapeFacts(root, c, high, halved);
    AddOperandTypes(root, c, high, halved, env);
    AddHighValue(root, c, high, halved, env);
    AddDifference(root, c, env);
    DividendBound(c.scaled, c.width, env);
  }

  lemma AddShapeFacts(root: Expr, c: Chain, high: Expr, halved: Expr)
    requires AddShape(root, c, high, halved)
    ensures root.Bin? && root.rhs.Const? && halved.Bin?
    ensures c.width == Width(root) && !c.signed && c.addCorrection && c.extraShift == root.rhs.value + 1
    ensures c.inputBits == DividendBitBound(c.scaled, c.width)
  {
    hide StripWidthRoundTrip, SameLowBits, OperandsAreViews, DividendBitBound, Minuend;
  }

  lemma AddDifference(root: Expr, c: Chain, env: Env)
    requires root.Bin? && StripWidthRoundTrip(root.lhs).Bin? && AddHalved(root).Bin?
    requires AddShape(root, c, AddHigh(root), AddHalved(root))
    requires WellFormed(AddHigh(root)) && WellFormed(c.scaled)
    requires WellFormed(StripWidthRoundTrip(AddHalved(root).lhs))
    requires Width(StripWidthRoundTrip(AddHalved(root).lhs)) == c.width
    ensures var h, x := Eval(AddHigh(root), env), Eval(c.scaled, env);
      Eval(StripWidthRoundTrip(AddHalved(root).lhs), env)
      == Wrap(if AddSwapped(root) then h - x else x - h, c.width)
  {
    hide StripWidthRoundTrip, SameLowBits, OperandsAreViews, DividendBitBound, Wrap, Eval, AddHigh, AddHalved;
    EvalSum(StripWidthRoundTrip(AddHalved(root).lhs), env);
  }

  // ----- products that fit in W bits ---------------------------------------------------

  /** The overflow test of the narrow matcher, without its wrap-around. */
  lemma NarrowProductFits(width: nat, sourceBits: nat, magic: nat, signedForm: bool)
    requires 0 < sourceBits && magic < Pow2(width)
    ensures var top := if signedForm then Pow2(sourceBits - 1) else Pow2(sourceBits) - 1;
            ApMul(width + sourceBits + 8, top, magic) == top * magic
  {
    var top := if signedForm then Pow2(sourceBits - 1) else Pow2(sourceBits) - 1;
    ProductBelow(top, Pow2(sourceBits), magic, Pow2(width));
    Pow2Add(sourceBits, width);
    MulLe(0, top, magic);
    WrapSmall(top * magic, sourceBits + width, width + sourceBits + 8);
  }

  lemma NarrowUnsignedValue(root: Expr, c: Chain, env: Env)
    requires WellFormed(root) && root.Bin? && root.op == LShr && root.rhs.Const?
    requires NarrowChain(Width(root), root.lhs, root.rhs.value, false) == Some(c)
    ensures WellFormed(c.scaled) && Width(c.scaled) == c.width == Width(root)
    ensures !c.signed && !c.addCorrection && c.narrowProduct && c.magic < Pow2(c.width)
    ensures Eval(c.scaled, env) < Pow2(c.inputBits)
    ensures Eval(root, env) == Shr(Eval(c.scaled, env) * c.magic, c.shift)
  {
    var mul := root.lhs;
    assert WellFormed(mul);
    SplitProductValue(mul, env);
    var x := Eval(c.scaled, env);
    var S := Width(c.scaled.arg);
    NarrowProductFits(c.width, S, c.magic, false);
    MulLe(x, Pow2(S) - 1, c.magic);
    MulLe(0, x, c.magic);
    WrapSmall(x * c.magic, c.width, c.width);
    EvalShift(root, env);
  }

  /** A narrow unsigned chain that the solver accepts is the division. */
  lemma NarrowChainIsDivision(root: Expr, c: Chain, d: nat, env: Env)
    requires WellFormed(root) && root.Bin? && root.op == LShr && root.rhs.Const?
    requires NarrowChain(Width(root), root.lhs, root.rhs.value, false) == Some(c)
    requires SolveChain(c) == Some(d)
    ensures WellFormed(c.scaled) && Eval(root, env) == Eval(c.scaled, env) / d
  {
    NarrowUnsignedValue(root, c, env);
    SolverDecides(c.magic, c.shift, c.inputBits, c.width, true, d);
    UnsignedQuotient(c.magic, c.shift, c.inputBits, d, Eval(c.scaled, env));
  }

  /** The narrow signed chain (lshr p, N) + (lshr p, W-1) on a W-bit product p. */
  function NarrowSignedForm(M: nat, N: nat, W: nat, x: int): nat {
    var p := Wrap(x * M, W);
    Wrap(Shr(p, N) + (if x < 0 then 1 else 0), W)
  }

  lemma NegativeLogicalShift(p: int, N: nat, W: nat)
    requires 0 < N < W && -(Pow2(W - 1) as int) <= p < 0
    ensures Shr(p + Pow2(W), N) == Shr(p, N) + Pow2(W - N)
    ensures -(Pow2(W - N) as int) <= Shr(p, N) < 0
  {
    var P, R := Pow2(N), Pow2(W - N);
    Pow2Add(N, W - N);
    assert Pow2(W) == 2 * Pow2(W - 1);
    NegativeShiftBounds(p, P, R);
  }

  lemma NegativeShiftBounds(p: int, P: int, R: int)
    requires 0 < P && 0 < R && -(P * R) <= p < 0
    ensures (p + P * R) / P == p / P + R
    ensures -R <= p / P < 0
  {
    assert R * P == P * R;
    DivAddMultiple(p, R, P);
    assert (-R) * P == -(R * P);
    DivBounds(p, P, 0);
    DivBounds(p, P, -R);
  }

  /** Its two shifts are logical, so a negative product brings 2^(W-N) along. */
  lemma NarrowSignedValue(M: nat, N: nat, W: nat, x: int)
    requires 0 < N < W && IsSigned(x * M, W) && (x * M < 0 <==> x < 0)
    ensures NarrowSignedForm(M, N, W, x)
         == Wrap(SignedClosedForm(M, N, x) + (if x < 0 then Pow2(W - N) else 0), W)
    ensures x < 0 ==> 0 < SignedClosedForm(M, N, x) + Pow2(W - N) <= Pow2(W - N)
  {
    WrapSigned(x * M, W);
    if x < 0 {
      NegativeLogicalShift(x * M, N, W);
      hide Shr, Pow2, Wrap;
      SignedFormIsShift(M, N, x);
    }
  }

  lemma SignedFormIsShift(M: nat, N: nat, x: int)
    ensures SignedClosedForm(M, N, x) == Shr(x * M, N) + (if x < 0 then 1 else 0)
  {
  }

  /** For a negative dividend the narrow signed chain never equals the sdiv that
      replaces it; for a non-negative one it always does. */
  lemma NarrowSignedExactly(M: nat, N: nat, S: nat, W: nat, d: nat, x: int)
    requires 2 <= S < W && 0 < N < W && Accepts(M, N, S - 1, W, true, d)
    requires Pow2(S - 1) * M < Pow2(W - 1) && IsSigned(x, S)
    ensures NarrowSignedForm(M, N, W, x) == Wrap(SignedQuotientByConstant(x, d, W), W) <==> 0 <= x
  {
    NarrowRange(M, S, W, x);
    NarrowSignedValue(M, N, W, x);
    NarrowDivisorSmall(M, N, W, d);
    NarrowQuotientRange(S, W, d, x);
    hide SignedClosedForm, SignedQuotientByConstant, NarrowSignedForm, Wrap, Pow2;
    if x >= 0 {
      NonNegativeForm(M, N, S - 1, d, x);
    } else {
      PatternsDiffer(SignedClosedForm(M, N, x) + Pow2(W - N), SignedQuotientByConstant(x, d, W), S, N, W);
    }
  }

  lemma NonNegativeForm(M: nat, K: nat, L: nat, d: nat, x: nat)
    requires IsMagicFor(M, K, d) && ErrorFits(M, K, L, d) && x < Pow2(L)
    ensures SignedClosedForm(M, K, x) == x / d
  {
    UnsignedQuotient(M, K, L, d, x);
  }

  /** A small positive pattern is not that of a small non-positive number. */
  lemma PatternsDiffer(F: int, T: int, S: nat, N: nat, W: nat)
    requires 0 < N < W && 2 <= S < W
    requires 0 < F <= Pow2(W - N) && -(Pow2(S - 1) as int) <= T <= 0
    ensures Wrap(F, W) != Wrap(T, W)
  {
    assert Pow2(W) == 2 * Pow2(W - 1);
    Pow2Le(W - N, W - 1);
    Pow2Lt(S - 1, W - 1);
    ModSmall(F, Pow2(W));
    WrapSigned(T, W);
  }

  /** Below bit W-N the two agree as soon as the rounding guard holds. */
  lemma NarrowSignedLowBits(M: nat, N: nat, S: nat, W: nat, d: nat, x: int)
    requires 2 <= S < W && 0 < N < W && Accepts(M, N, S - 1, W, true, d)
    requires Pow2(S - 1) * M < Pow2(W - 1) && IsSigned(x, S)
    requires M * d != Pow2(N) || Pow2(S - 1) < d
    ensures Wrap(NarrowSignedForm(M, N, W, x), W - N) == Wrap(SignedQuotientByConstant(x, d, W), W - N)
  {
    NarrowRange(M, S, W, x);
    NarrowSignedValue(M, N, W, x);
    NarrowDivisorSmall(M, N, W, d);
    NarrowQuotientRange(S, W, d, x);
    var C := SignedClosedForm(M, N, x);
    if x >= 0 {
      UnsignedQuotient(M, N, S - 1, d, x);
      WrapWrap(C, W, W - N);
    } else {
      NegativeQuotient(M, N, S - 1, d, x);
      WrapWrap(C + Pow2(W - N), W, W - N);
      ModShift(C, C + Pow2(W - N), Pow2(W - N), 1);
    }
  }

  lemma NarrowRange(M: nat, S: nat, W: nat, x: int)
    requires 0 < S < W && 0 < M && Pow2(S - 1) * M < Pow2(W - 1) && IsSigned(x, S)
    ensures IsSigned(x * M, W) && (x * M < 0 <==> x < 0)
  {
    NarrowProductRange(x, M, Pow2(S - 1), Pow2(W - 1));
  }

  lemma NarrowProductRange(x: int, M: int, H: int, G: int)
    requires 0 < M && H * M < G && -H <= x < H
    ensures -G <= x * M < G && (x * M < 0 <==> x < 0)
  {
    MulLe(x, H, M);
    MulLe(-H, x, M);
    assert (-H) * M == -(H * M);
    if x < 0 { MulLt(x, 0, M); } else { MulLe(0, x, M); }
  }

  lemma NarrowDivisorSmall(M: nat, N: nat, W: nat, d: nat)
    requires 0 < N < W && 0 < M && (d - 1) * M < Pow2(N)
    ensures d <= Pow2(W - 1)
  {
    Pow2Le(N, W - 1);
    if 0 < d { MulLe(1, M, d - 1); }
  }

  lemma NarrowQuotientRange(S: nat, W: nat, d: nat, x: int)
    requires 2 <= S < W && 3 <= d <= Pow2(W - 1) && d < Pow2(W) && IsSigned(x, S)
    ensures var T := SignedQuotientByConstant(x, d, W);
            && (0 <= x ==> T == x / d && 0 <= T < Pow2(W - 1))
            && (x < 0 ==> T == -((-x) / d) && -(Pow2(S - 1) as int) <= T <= 0)
  {
    Pow2Lt(S - 1, W - 1);
    var y: nat := if x < 0 then -x else x;
    ShiftShrinks(y, d);
    assert Pow2(W) == 2 * Pow2(W - 1);
    if d == Pow2(W - 1) { ModSmall(y, d); }
  }

  /** What the matcher has checked of a narrow signed chain. */
  lemma NarrowSignedChainFacts(root: Expr, env: Env)
    requires WellFormed(root) && root.Bin? && root.op == Add && MatchNarrowProductMagicChain(root).Some?
    ensures var c, mul := MatchNarrowProductMagicChain(root).value, root.lhs.lhs;
            && c.signed && c.narrowProduct && !c.addCorrection && c.width == Width(root) && c.magic < Pow2(c.width)
            && WellFormed(c.scaled) && Width(c.scaled) == c.width && 0 < c.shift < c.width && c.inputBits + 1 < c.width
            && IsSigned(SignedEval(c.scaled, env), c.inputBits + 1)
            && Pow2(c.inputBits) * c.magic < Pow2(c.width - 1)
            && WellFormed(mul) && Width(mul) == c.width
            && Eval(mul, env) == Wrap(Eval(c.scaled, env) * c.magic, c.width)
  {
    var c := MatchNarrowProductMagicChain(root).value;
    var mul := root.lhs.lhs;
    assert WellFormed(root.lhs) && WellFormed(root.rhs) && WellFormed(mul);
    hide Pow2, Eval, Wrap, Shr, ToSigned;
    SplitProductValue(mul, env);
    NarrowProductFits(c.width, c.inputBits + 1, c.magic, true);
    SExtValue(c.scaled, env);
  }

  /** The narrow signed tree computes NarrowSignedForm. */
  lemma NarrowSignedChainValue(root: Expr, env: Env)
    requires WellFormed(root) && root.Bin? && root.op == Add && MatchNarrowProductMagicChain(root).Some?
    requires 0 < MatchNarrowProductMagicChain(root).value.magic
    ensures var c := MatchNarrowProductMagicChain(root).value;
            && WellFormed(c.scaled) && 0 < c.shift < c.width
            && Eval(root, env) == NarrowSignedForm(c.magic, c.shift, c.width, SignedEval(c.scaled, env))
  {
    var c := MatchNarrowProductMagicChain(root).value;
    NarrowSignedChainFacts(root, env);
    hide Pow2, Eval, Wrap, WellFormed, SignedEval;
    NarrowTreeValue(root, root.lhs.lhs, c, SignedEval(c.scaled, env), env);
  }

  lemma NarrowTreeValue(root: Expr, mul: Expr, c: Chain, x: int, env: Env)
    requires WellFormed(root) && root.Bin? && root.op == Add
    requires IsConstShift(root.lhs, LShr) && IsConstShift(root.rhs, LShr)
    requires root.lhs.lhs == mul == root.rhs.lhs && WellFormed(mul)
    requires c.width == Width(root) == Width(mul) && 0 < c.shift < c.width
    requires (root.lhs.rhs.value == c.width - 1 && root.rhs.rhs.value == c.shift) ||
             (root.rhs.rhs.value == c.width - 1 && root.lhs.rhs.value == c.shift)
    requires WellFormed(c.scaled) && Width(c.scaled) == c.width && x == SignedEval(c.scaled, env)
    requires Eval(mul, env) == Wrap(Eval(c.scaled, env) * c.magic, c.width)
    requires 0 < c.magic < Pow2(c.width) && c.inputBits + 1 < c.width && IsSigned(x, c.inputBits + 1)
    requires Pow2(c.inputBits) * c.magic < Pow2(c.width - 1)
    ensures Eval(root, env) == NarrowSignedForm(c.magic, c.shift, c.width, x)
  {
    hide Shr, Wrap, Pow2, Eval, WellFormed, ToSigned, IsSigned;
    var W, p := c.width, Eval(mul, env);
    EvalSum(root, env);
    EvalShift(root.lhs, env);
    EvalShift(root.rhs, env);
    NarrowRange(c.magic, c.inputBits + 1, W, x);
    SignedRoundTrip(Eval(c.scaled, env), W);
    WrapMagicProduct(x, c.magic, W);
    TopBit(x * c.magic, W);
    assert Shr(p, c.shift) + Shr(p, W - 1) == Shr(p, W - 1) + Shr(p, c.shift);
  }

  lemma WrapMagicProduct(x: int, M: nat, W: nat)
    requires M < Pow2(W)
    ensures Wrap(Wrap(x, W) * M, W) == Wrap(x * M, W)
  {
    ModMul(x, M, Pow2(W));
  }

  lemma TopBit(p: int, W: nat)
    requires 0 < W && IsSigned(p, W)
    ensures Shr(Wrap(p, W), W - 1) == if p < 0 then 1 else 0
  {
    WrapSigned(p, W);
    SignBitValue(Wrap(p, W), W);
  }
}
