/** Which trees are recognised: the sequences that compilers emit for a division by
    a constant, stated as trees, and the divisions they are rewritten to. */
module DivisionRecognition {
  import opened Bits
  import opened Wrappers
  import opened ValueTree
  import opened MagicDivision
  import opened DivisionVariants
  import opened DivisionChains

  /** The 2W-bit product of an extended value and a magic, in either operand order. */
  function WideProduct(v: Expr, W: nat, M: nat, signed: bool, magicFirst: bool): Expr {
    var factor, magic := if signed then SExt(2 * W, v) else ZExt(2 * W, v), Const(2 * W, M);
    if magicFirst then Bin(Mul, magic, factor) else Bin(Mul, factor, magic)
  }

  /** The width of x, less a constant logical shift that made it. */
  function BitsLeft(x: Expr): nat {
    match x
    case Bin(LShr, _, Const(_, k)) => if 0 < k < Width(x) then Width(x) - k else Width(x)
    case _ => Width(x)
  }

  /** Sum in either operand order. */
  function Plus(a: Expr, b: Expr, swapped: bool): Expr {
    if swapped then Bin(Add, b, a) else Bin(Add, a, b)
  }

  lemma NoRoundTrip(e: Expr)
    requires !(e.Trunc? && (e.arg.ZExt? || e.arg.SExt?))
    ensures StripWidthRoundTrip(e) == e
  {
  }

  lemma WideProductSplits(v: Expr, W: nat, M: nat, signed: bool, magicFirst: bool)
    requires 0 < W
    ensures var mul := WideProduct(v, W, M, signed, magicFirst);
      && mul.Bin? && mul.op == Mul && Width(mul) == 2 * W
      && SplitProduct(mul) == Some((M, if signed then SExt(2 * W, v) else ZExt(2 * W, v)))
      && (0 < Width(v) <= W ==> ParseMagicProduct(mul, W) == Some(Product(v, M, signed, Width(v))))
  {
  }

  lemma FirstMatch(root: Expr, c: Chain)
    requires || MatchSignedMagicMulChain(root) == Some(c)
             || (MatchSignedMagicMulChain(root).None? &&
                   (|| MatchUnsignedAddMagicMulChain(root) == Some(c)
                    || (MatchUnsignedAddMagicMulChain(root).None? &&
                          (|| MatchMagicMulChain(root) == Some(c)
                           || (MatchMagicMulChain(root).None? && MatchNarrowProductMagicChain(root) == Some(c))))))
    ensures MatchChain(root) == Some(c)
  {
    hide MatchSignedMagicMulChain, MatchUnsignedAddMagicMulChain, MatchMagicMulChain, MatchNarrowProductMagicChain;
  }

  /** A divisor in the dividend range is the one that the solver finds. */
  lemma SolverFinds(M: nat, K: nat, L: nat, W: nat, short: bool, d: nat)
    requires 0 < W <= 64 && 0 < M < Pow2(W) && 0 < L <= W && (if short then 1 else W) <= K <= 2 * W
    requires 3 <= K && 3 <= d < Pow2(L) && IsMagicFor(M, K, d) && ErrorFits(M, K, L, d)
    ensures SolveMagicDivisor(M, K, L, W, short) == Some(d)
  {
    Pow2Le(L, W);
    hide Pow2, SolveMagicDivisor, IsMagicFor, ErrorFits;
    SolverFindsDivisor(M, K, L, W, short, d);
  }

  lemma RewrittenAs(root: Expr, c: Chain, d: nat)
    requires MatchChain(root) == Some(c) && Width(root) == c.width && !c.addCorrection
    requires SolveMagicDivisor(c.magic, c.shift, c.inputBits, c.width, c.narrowProduct) == Some(d)
    ensures RewriteConstantDivision(root) == Some(Bin(if c.signed then SDiv else UDiv, c.scaled, Const(c.width, d)))
  {
    hide MatchChain, SolveMagicDivisor;
  }

  // ----- plain unsigned sequences ------------------------------------------------------

  /** trunc (lshr (zext x * M), n), and lshr by s of that unless s is 0. */
  function PlainSequence(x: Expr, M: nat, n: nat, s: nat, magicFirst: bool): Expr {
    var W := Width(x);
    var high := Trunc(W, Bin(LShr, WideProduct(x, W, M, false, magicFirst), Const(2 * W, n)));
    if s == 0 then high else Bin(LShr, high, Const(W, s))
  }

  lemma PlainRecognised(x: Expr, M: nat, n: nat, s: nat, magicFirst: bool)
    requires 0 < Width(x) <= 64 && Width(x) <= n && n + s <= 2 * Width(x) && s < Width(x)
    ensures Width(PlainSequence(x, M, n, s, magicFirst)) == Width(x)
    ensures MatchChain(PlainSequence(x, M, n, s, magicFirst))
         == Some(Chain(x, M, n + s, BitsLeft(x), Width(x), false, false, 0, false))
  {
    var W, root := Width(x), PlainSequence(x, M, n, s, magicFirst);
    WideProductSplits(x, W, M, false, magicFirst);
    PlainMatch(WideProduct(x, W, M, false, magicFirst), x, M, n, s);
    FirstMatch(root, Chain(x, M, n + s, BitsLeft(x), W, false, false, 0, false));
  }

  lemma PlainMatch(mul: Expr, x: Expr, M: nat, n: nat, s: nat)
    requires 0 < Width(x) <= 64 && Width(x) <= n && n + s <= 2 * Width(x) && s < Width(x)
    requires Width(mul) == 2 * Width(x) && SplitProduct(mul) == Some((M, ZExt(2 * Width(x), x)))
    ensures var W := Width(x);
      var high := Trunc(W, Bin(LShr, mul, Const(2 * W, n)));
      var root := if s == 0 then high else Bin(LShr, high, Const(W, s));
      && Width(root) == W && MatchSignedMagicMulChain(root).None? && MatchUnsignedAddMagicMulChain(root).None?
      && MatchMagicMulChain(root) == Some(Chain(x, M, n + s, BitsLeft(x), W, false, false, 0, false))
  {
    var W := Width(x);
    var high := Trunc(W, Bin(LShr, mul, Const(2 * W, n)));
    NoRoundTrip(high);
    assert Width(high) == W && Width(Bin(LShr, high, Const(W, s))) == W;
    assert DividendBitBound(x, W) == BitsLeft(x);
    hide StripWidthRoundTrip, SplitProduct, DividendBitBound, BitsLeft;
  }

  ghost predicate IsPlain(root: Expr, x: Expr, M: nat, n: nat, s: nat, magicFirst: bool) {
    && 0 < Width(x) <= 64 && Width(x) <= n && n + s <= 2 * Width(x) && s < Width(x)
    && root == PlainSequence(x, M, n, s, magicFirst)
  }

  lemma PlainParts(root: Expr) returns (x: Expr, M: nat, n: nat, s: nat, magicFirst: bool)
    requires WellFormed(root) && MatchMagicMulChain(root).Some?
    ensures IsPlain(root, x, M, n, s, magicFirst)
  {
    hide Pow2, DividendBitBound, Eval;
    var c := MatchMagicMulChain(root).value;
    x, M := c.scaled, c.magic;
    s := if root.Bin? then root.rhs.value else 0;
    n := c.shift - s;
    var high := if root.Bin? then root.lhs else root;
    var mul := high.arg.lhs;
    magicFirst := mul.lhs.Const?;
    assert WellFormed(high) && WellFormed(high.arg) && WellFormed(mul);
    assert Width(high) == Width(root) && Width(high.arg) == Width(mul) == 2 * Width(root);
    assert high.arg.rhs == Const(2 * Width(x), n);
    assert mul == WideProduct(x, Width(x), M, false, magicFirst);
  }

  /** The plain matcher takes these sequences and no other tree. */
  lemma PlainExactly(root: Expr)
    requires WellFormed(root)
    ensures MatchMagicMulChain(root).Some? <==>
              exists x, M: nat, n: nat, s: nat, magicFirst :: IsPlain(root, x, M, n, s, magicFirst)
  {
    hide MatchMagicMulChain, PlainSequence;
    if MatchMagicMulChain(root).Some? {
      var x, M, n, s, magicFirst := PlainParts(root);
    }
    if x, M: nat, n: nat, s: nat, magicFirst :| IsPlain(root, x, M, n, s, magicFirst) {
      PlainTaken(x, M, n, s, magicFirst);
    }
  }

  lemma PlainTaken(x: Expr, M: nat, n: nat, s: nat, magicFirst: bool)
    requires 0 < Width(x) <= 64 && Width(x) <= n && n + s <= 2 * Width(x) && s < Width(x)
    ensures MatchMagicMulChain(PlainSequence(x, M, n, s, magicFirst)).Some?
  {
    WideProductSplits(x, Width(x), M, false, magicFirst);
    PlainMatch(WideProduct(x, Width(x), M, false, magicFirst), x, M, n, s);
  }

  /** The sequence for a divisor that the magic explains is rewritten to udiv by it. */
  lemma PlainIsRewritten(x: Expr, M: nat, n: nat, s: nat, magicFirst: bool, d: nat)
    requires 0 < Width(x) <= 64 && Width(x) <= n && n + s <= 2 * Width(x) && s < Width(x)
    requires 0 < M < Pow2(Width(x)) && 3 <= n + s && 3 <= d < Pow2(BitsLeft(x))
    requires IsMagicFor(M, n + s, d) && ErrorFits(M, n + s, BitsLeft(x), d)
    ensures RewriteConstantDivision(PlainSequence(x, M, n, s, magicFirst))
         == Some(Bin(UDiv, x, Const(Width(x), d)))
  {
    hide *;
    var L := BitsLeft(x);
    BitsLeftRange(x);
    PlainRecognised(x, M, n, s, magicFirst);
    SolverFinds(M, n + s, L, Width(x), false, d);
    RewrittenAs(PlainSequence(x, M, n, s, magicFirst), Chain(x, M, n + s, L, Width(x), false, false, 0, false), d);
  }

  lemma BitsLeftRange(x: Expr)
    requires 0 < Width(x)
    ensures 0 < BitsLeft(x) <= Width(x)
  {
  }

  // ----- signed sequences -----------------------------------------------------------------

  /** Where the sign is taken from: the dividend, the high half, or the product. */
  datatype SignSource = OfDividend | OfHigh | OfProduct

  /** How a compiler writes a signed division: the shift of the high half on the
      product or behind the truncation, the sign subtracted as 0/-1 or added as 0/1,
      and the operand orders. */
  datatype SignedForm = SignedForm(
    magicFirst: bool, wideShift: bool, subtract: bool, sign: SignSource, signFirst: bool)

  /** The dividend at the width of the root. */
  function Widened(v: Expr, W: nat): Expr {
    if Width(v) == W then v else SExt(W, v)
  }

  function SignedHigh(mul: Expr, W: nat, s: nat, wideShift: bool): Expr {
    if wideShift then Trunc(W, Bin(AShr, mul, Const(2 * W, W + s))) else Trunc(W, Bin(LShr, mul, Const(2 * W, W)))
  }

  function SignedShifted(mul: Expr, W: nat, s: nat, wideShift: bool): Expr {
    var high := SignedHigh(mul, W, s, wideShift);
    if wideShift || s == 0 then high else Bin(AShr, high, Const(W, s))
  }

  function SignedSign(mul: Expr, x: Expr, W: nat, s: nat, form: SignedForm): Expr
    requires 0 < W
  {
    match form.sign
    case OfProduct => Trunc(W, Bin(LShr, mul, Const(2 * W, 2 * W - 1)))
    case OfHigh =>
      Bin(if form.subtract then AShr else LShr, SignedHigh(mul, W, s, form.wideShift), Const(W, W - 1))
    case OfDividend => Bin(if form.subtract then AShr else LShr, x, Const(W, W - 1))
  }

  function SignedRoot(mul: Expr, x: Expr, W: nat, s: nat, form: SignedForm): Expr
    requires 0 < W
  {
    var shifted, sign := SignedShifted(mul, W, s, form.wideShift), SignedSign(mul, x, W, s, form);
    if form.subtract then Bin(Sub, shifted, sign) else Plus(shifted, sign, form.signFirst)
  }

  /** The forms of a W-bit root: a narrower dividend shows its sign only itself. */
  predicate IsForm(v: Expr, W: nat, s: nat, form: SignedForm) {
    && 2 <= W <= 64 && 0 < Width(v) <= W && s <= W
    && (!form.wideShift ==> s < W - (if form.subtract then 1 else 0))
    && (Width(v) < W ==> form.sign.OfDividend?)
    && (form.subtract ==> !form.sign.OfProduct?)
  }

  function SignedSequence(v: Expr, W: nat, M: nat, s: nat, form: SignedForm): Expr
    requires 0 < W
  {
    SignedRoot(WideProduct(v, W, M, true, form.magicFirst), Widened(v, W), W, s, form)
  }

  lemma SignedMatch(mul: Expr, v: Expr, W: nat, M: nat, s: nat, form: SignedForm)
    requires IsForm(v, W, s, form) && M < Pow2(2 * W - 1)
    requires mul.Bin? && mul.op == Mul && Width(mul) == 2 * W
    requires ParseMagicProduct(mul, W) == Some(Product(v, M, true, Width(v)))
    ensures var root := SignedRoot(mul, Widened(v, W), W, s, form);
      && Width(root) == W
      && MatchSignedMagicMulChain(root) == Some(Chain(Widened(v, W), M, W + s, Width(v) - 1, W, true, false, 0, false))
  {
    var x, root := Widened(v, W), SignedRoot(mul, Widened(v, W), W, s, form);
    var high, shifted, sign := SignedHigh(mul, W, s, form.wideShift), SignedShifted(mul, W, s, form.wideShift),
        SignedSign(mul, x, W, s, form);
    NoRoundTrip(high);
    NoRoundTrip(shifted);
    NoRoundTrip(sign);
    assert Width(x) == W && Width(high) == W && Width(shifted) == W && Width(sign) == W;
    assert Width(root) == W;
    SimpleMatch(mul, v, W, M, s, form);
    hide StripWidthRoundTrip, ParseMagicProduct, MatchSignedSimple, Pow2, Widened;
    assert SignedOperands(root) == Some((shifted, sign));
  }

  lemma SimpleMatch(mul: Expr, v: Expr, W: nat, M: nat, s: nat, form: SignedForm)
    requires IsForm(v, W, s, form) && M < Pow2(2 * W - 1)
    requires mul.Bin? && mul.op == Mul && Width(mul) == 2 * W
    requires ParseMagicProduct(mul, W) == Some(Product(v, M, true, Width(v)))
    ensures var x := Widened(v, W);
      MatchSignedSimple(W, SignedHigh(mul, W, s, form.wideShift), SignedSign(mul, x, W, s, form),
                        if form.wideShift then 0 else s)
      == Some(Chain(x, M, W + s, Width(v) - 1, W, true, false, 0, false))
  {
    hide ParseMagicProduct, LowBitsBase, Pow2;
  }

  lemma SignedRecognised(v: Expr, W: nat, M: nat, s: nat, form: SignedForm)
    requires IsForm(v, W, s, form) && M < Pow2(2 * W - 1)
    ensures Width(SignedSequence(v, W, M, s, form)) == W
    ensures MatchChain(SignedSequence(v, W, M, s, form))
         == Some(Chain(Widened(v, W), M, W + s, Width(v) - 1, W, true, false, 0, false))
  {
    WideProductSplits(v, W, M, true, form.magicFirst);
    SignedMatch(WideProduct(v, W, M, true, form.magicFirst), v, W, M, s, form);
    FirstMatch(SignedSequence(v, W, M, s, form),
               Chain(Widened(v, W), M, W + s, Width(v) - 1, W, true, false, 0, false));
  }

  /** Every form of the sequence for a divisor that the magic explains is rewritten to
      sdiv by it. */
  lemma SignedIsRewritten(v: Expr, W: nat, M: nat, s: nat, form: SignedForm, d: nat)
    requires IsForm(v, W, s, form) && 2 <= Width(v) && 3 <= W + s
    requires 0 < M < Pow2(W) && 3 <= d < Pow2(Width(v) - 1)
    requires IsMagicFor(M, W + s, d) && ErrorFits(M, W + s, Width(v) - 1, d)
    ensures RewriteConstantDivision(SignedSequence(v, W, M, s, form)) == Some(Bin(SDiv, Widened(v, W), Const(W, d)))
  {
    hide *;
    FormWidths(v, W, s, form);
    Pow2Le(W, 2 * W - 1);
    SignedRecognised(v, W, M, s, form);
    SolverFinds(M, W + s, Width(v) - 1, W, false, d);
    RewrittenAs(SignedSequence(v, W, M, s, form),
                Chain(Widened(v, W), M, W + s, Width(v) - 1, W, true, false, 0, false), d);
  }

  lemma FormWidths(v: Expr, W: nat, s: nat, form: SignedForm)
    requires IsForm(v, W, s, form)
    ensures 2 <= W <= 64 && 0 < Width(v) <= W && s <= W
  {
  }

  // ----- signed sequences that add the dividend back ------------------------------------------

  /** ((high + x) >> s) + [high + x < 0], with the magic M - 2^W. */
  function PlusXTree(mul: Expr, x: Expr, W: nat, s: nat, highFirst: bool, signFirst: bool): Expr
    requires 0 < W
  {
    var high := Trunc(W, Bin(LShr, mul, Const(2 * W, W)));
    var sum := Plus(x, high, highFirst);
    Plus(Bin(AShr, sum, Const(W, s)), Bin(LShr, sum, Const(W, W - 1)), signFirst)
  }

  /** M - 2^W as a pattern of 2W bits. */
  function NegativeMagic(M: nat, W: nat): (magic: nat)
    ensures magic == Pow2(2 * W) - Pow2(W) + M
  {
    Pow2Le(W, 2 * W);
    Pow2(2 * W) - Pow2(W) + M
  }

  function PlusXSequence(x: Expr, M: nat, s: nat, magicFirst: bool, highFirst: bool, signFirst: bool): Expr
    requires 0 < Width(x)
  {
    var W := Width(x);
    PlusXTree(WideProduct(x, W, NegativeMagic(M, W), true, magicFirst), x, W, s, highFirst, signFirst)
  }

  lemma PlusXMatch(mul: Expr, x: Expr, W: nat, magic: nat, s: nat, highFirst: bool, signFirst: bool)
    requires 2 <= W <= 64 && Width(x) == W && StripWidthRoundTrip(x) == x && 0 < s < W
    requires mul.Bin? && mul.op == Mul && Width(mul) == 2 * W && Pow2(2 * W - 1) <= magic
    requires ParseMagicProduct(mul, W) == Some(Product(x, magic, true, W))
    ensures var root := PlusXTree(mul, x, W, s, highFirst, signFirst);
      && Width(root) == W
      && MatchSignedMagicMulChain(root)
      == if x.Trunc? then None else Some(Chain(x, Wrap(magic, W), W + s, W - 1, W, true, false, 0, false))
  {
    var high := Trunc(W, Bin(LShr, mul, Const(2 * W, W)));
    var sum := Plus(x, high, highFirst);
    var shifted, sign := Bin(AShr, sum, Const(W, s)), Bin(LShr, sum, Const(W, W - 1));
    var root := Plus(shifted, sign, signFirst);
    NoRoundTrip(high);
    NoRoundTrip(sum);
    NoRoundTrip(shifted);
    NoRoundTrip(sign);
    assert Width(high) == W && Width(sum) == W && Width(shifted) == W && Width(sign) == W && Width(root) == W;
    hide StripWidthRoundTrip, ParseMagicProduct, LowBitsBase, Pow2, Wrap;
    assert SignedOperands(root) == Some((shifted, sign));
  }

  lemma PlusXRecognised(x: Expr, M: nat, s: nat, magicFirst: bool, highFirst: bool, signFirst: bool)
    requires 2 <= Width(x) <= 64 && StripWidthRoundTrip(x) == x && 0 < s < Width(x) && M < Pow2(Width(x))
    ensures var W, root := Width(x), PlusXSequence(x, M, s, magicFirst, highFirst, signFirst);
      && Width(root) == W
      && MatchSignedMagicMulChain(root)
      == (if x.Trunc? then None else Some(Chain(x, M, W + s, W - 1, W, true, false, 0, false)))
      && (x.Trunc? ==> RewriteConstantDivision(root) == None)
  {
    hide *;
    var W, magic := Width(x), NegativeMagic(M, Width(x));
    NegativeMagicBits(M, W);
    WideProductSplits(x, W, magic, true, magicFirst);
    PlusXMatch(WideProduct(x, W, magic, true, magicFirst), x, W, magic, s, highFirst, signFirst);
    PlusXSequenceIs(x, M, s, magicFirst, highFirst, signFirst);
    OnlySigned(WideProduct(x, W, magic, true, magicFirst), x, W, s, highFirst, signFirst);
  }

  /** No other matcher takes such a root. */
  lemma OnlySigned(mul: Expr, x: Expr, W: nat, s: nat, highFirst: bool, signFirst: bool)
    requires 0 < W
    ensures var root := PlusXTree(mul, x, W, s, highFirst, signFirst);
      MatchSignedMagicMulChain(root).None? ==> RewriteConstantDivision(root) == None
  {
    hide MatchSignedMagicMulChain;
  }

  lemma PlusXSequenceIs(x: Expr, M: nat, s: nat, magicFirst: bool, highFirst: bool, signFirst: bool)
    requires 0 < Width(x)
    ensures PlusXSequence(x, M, s, magicFirst, highFirst, signFirst)
         == PlusXTree(WideProduct(x, Width(x), NegativeMagic(M, Width(x)), true, magicFirst), x, Width(x), s,
                        highFirst, signFirst)
  {
  }

  lemma NegativeMagicBits(M: nat, W: nat)
    requires 2 <= W && M < Pow2(W)
    ensures Pow2(2 * W - 1) <= NegativeMagic(M, W) && Wrap(NegativeMagic(M, W), W) == M
  {
    Pow2Le(W, 2 * W - 1);
    assert Pow2(2 * W) == 2 * Pow2(2 * W - 1);
    Pow2Square(W);
    hide Pow2;
    var B := Pow2(W);
    assert (B - 1) * B == B * B - B;
    ModShift(M, B * B - B + M, B, B - 1);
    ModSmall(M, B);
  }

  /** The form is recognised for every dividend that is no truncation, and then the
      divisor that the magic explains is found. */
  lemma PlusXIsRewritten(x: Expr, M: nat, s: nat, magicFirst: bool, highFirst: bool, signFirst: bool, d: nat)
    requires 2 <= Width(x) <= 64 && StripWidthRoundTrip(x) == x && !x.Trunc? && 0 < s < Width(x)
    requires 0 < M < Pow2(Width(x)) && 3 <= d < Pow2(Width(x) - 1)
    requires IsMagicFor(M, Width(x) + s, d) && ErrorFits(M, Width(x) + s, Width(x) - 1, d)
    ensures RewriteConstantDivision(PlusXSequence(x, M, s, magicFirst, highFirst, signFirst))
         == Some(Bin(SDiv, x, Const(Width(x), d)))
  {
    hide *;
    var W, root := Width(x), PlusXSequence(x, M, s, magicFirst, highFirst, signFirst);
    var c := Chain(x, M, W + s, W - 1, W, true, false, 0, false);
    PlusXRecognised(x, M, s, magicFirst, highFirst, signFirst);
    FirstMatch(root, c);
    SolverFinds(M, W + s, W - 1, W, false, d);
    RewrittenAs(root, c, d);
  }

  // ----- add-correction sequences ---------------------------------------------------------------

  /** (((x - h) >> 1) + h) >> s with h = trunc (lshr (zext x * M), n). */
  function AddTree(mul: Expr, x: Expr, n: nat, s: nat, highFirst: bool): Expr {
    var W := Width(x);
    var high := Trunc(W, Bin(LShr, mul, Const(2 * W, n)));
    Bin(LShr, Plus(Bin(LShr, Bin(Sub, x, high), Const(W, 1)), high, highFirst), Const(W, s))
  }

  function AddSequence(x: Expr, M: nat, n: nat, s: nat, magicFirst: bool, highFirst: bool): Expr {
    AddTree(WideProduct(x, Width(x), M, false, magicFirst), x, n, s, highFirst)
  }

  lemma AddMatch(mul: Expr, x: Expr, M: nat, n: nat, s: nat, highFirst: bool)
    requires 0 < Width(x) <= 64 && Width(x) <= n <= 2 * Width(x) && 0 < s < Width(x)
    requires mul.Bin? && mul.op == Mul && Width(mul) == 2 * Width(x)
    requires ParseMagicProduct(mul, Width(x)) == Some(Product(x, M, false, Width(x)))
    requires x != Trunc(Width(x), Bin(LShr, mul, Const(2 * Width(x), n)))
    ensures var root := AddTree(mul, x, n, s, highFirst);
      && Width(root) == Width(x) && MatchSignedMagicMulChain(root).None?
      && MatchUnsignedAddMagicMulChain(root)
      == Some(Chain(x, M, n, BitsLeft(x), Width(x), false, true, s + 1, false))
  {
    var W := Width(x);
    var high := Trunc(W, Bin(LShr, mul, Const(2 * W, n)));
    var difference := Bin(Sub, x, high);
    var halved := Bin(LShr, difference, Const(W, 1));
    var sum := Plus(halved, high, highFirst);
    NoRoundTrip(high);
    NoRoundTrip(difference);
    NoRoundTrip(halved);
    NoRoundTrip(sum);
    assert Width(high) == W && Width(difference) == W && Width(halved) == W && Width(sum) == W;
    assert Width(Bin(LShr, sum, Const(W, s))) == W && DividendBitBound(x, W) == BitsLeft(x);
    hide StripWidthRoundTrip, ParseMagicProduct, LowBitsBase, DividendBitBound, BitsLeft;
  }

  /** The high half of a product of x is not x. */
  lemma PartIsSmaller(x: Expr, W: nat, M: nat, magicFirst: bool, n: nat)
    ensures x != Trunc(W, Bin(LShr, WideProduct(x, W, M, false, magicFirst), Const(2 * W, n)))
  {
    var mul := WideProduct(x, W, M, false, magicFirst);
    assert Nodes(ZExt(2 * W, x)) == 1 + Nodes(x);
    assert Nodes(x) < Nodes(mul) < Nodes(Bin(LShr, mul, Const(2 * W, n)));
  }

  lemma AddRecognised(x: Expr, M: nat, n: nat, s: nat, magicFirst: bool, highFirst: bool)
    requires 0 < Width(x) <= 64 && Width(x) <= n <= 2 * Width(x) && 0 < s < Width(x)
    ensures Width(AddSequence(x, M, n, s, magicFirst, highFirst)) == Width(x)
    ensures MatchChain(AddSequence(x, M, n, s, magicFirst, highFirst))
         == Some(Chain(x, M, n, BitsLeft(x), Width(x), false, true, s + 1, false))
  {
    var mul := WideProduct(x, Width(x), M, false, magicFirst);
    assert x != Trunc(Width(x), Bin(LShr, mul, Const(2 * Width(x), n))) by {
      PartIsSmaller(x, Width(x), M, magicFirst, n);
    }
    WideProductSplits(x, Width(x), M, false, magicFirst);
    AddMatch(mul, x, M, n, s, highFirst);
    FirstMatch(AddTree(mul, x, n, s, highFirst),
               Chain(x, M, n, BitsLeft(x), Width(x), false, true, s + 1, false));
  }

  /** The add-correction solver finds every divisor of the form 2^extra - 1 that the
      magic explains. */
  lemma AddSolverFinds(M: nat, N: nat, extra: nat, L: nat, W: nat, d: nat)
    requires AddSolverInput(M, N, extra, L, W) && 3 <= d < Pow2(W) && d + 1 == Pow2(extra)
    requires IsMagicFor(M, N, d) && (d - 1) * M < Pow2(N)
    ensures SolveUnsignedAddMagicDivisor(M, N, extra, L, W) == Some(d)
  {
    Pow2Le(L, N);
    hide Pow2, ExcessAt, SolveUnsignedAddMagicDivisor, IsMagicFor;
    NarrowExcess(M, N, extra, d, Pow2(L) - 2);
    AddSolverDecides(M, N, extra, L, W, d);
  }

  lemma NarrowExcess(M: nat, N: nat, extra: nat, d: nat, top: int)
    requires 0 < d && IsMagicFor(M, N, d) && (d - 1) * M < Pow2(N) && top < Pow2(N) && d < Pow2(extra)
    ensures ExcessBelow(M, N, M * d - Pow2(N), d, top, Pow2(extra))
  {
    hide Pow2, ExcessAt, IsMagicFor;
    var e := M * d - Pow2(N);
    forall x: nat | x <= top
      ensures ExcessAt(M, N, e, d, x) < Pow2(extra)
    {
      ExcessStaysBelow(M, N, d, x);
    }
  }

  lemma AddIsRewritten(x: Expr, M: nat, n: nat, s: nat, magicFirst: bool, highFirst: bool, d: nat)
    requires 0 < Width(x) <= 64 && Width(x) <= n <= 2 * Width(x) && 0 < s < Width(x)
    requires 0 < M < Pow2(Width(x)) && 3 <= d < Pow2(Width(x)) && d + 1 == Pow2(s + 1)
    requires IsMagicFor(M, n, d) && (d - 1) * M < Pow2(n)
    ensures RewriteConstantDivision(AddSequence(x, M, n, s, magicFirst, highFirst))
         == Some(Bin(UDiv, x, Const(Width(x), d)))
  {
    hide *;
    var L := BitsLeft(x);
    BitsLeftRange(x);
    AddRecognised(x, M, n, s, magicFirst, highFirst);
    AddInputIs(M, n, s + 1, L, Width(x));
    AddSolverFinds(M, n, s + 1, L, Width(x), d);
    CorrectionRewrittenAs(AddSequence(x, M, n, s, magicFirst, highFirst),
                          Chain(x, M, n, L, Width(x), false, true, s + 1, false), d);
  }

  lemma AddInputIs(M: nat, N: nat, extra: nat, L: nat, W: nat)
    requires 0 < W <= 64 && 0 < M < Pow2(W) && 0 < L <= W && W <= N <= 2 * W && 0 < extra <= W
    ensures AddSolverInput(M, N, extra, L, W)
  {
  }

  lemma CorrectionRewrittenAs(root: Expr, c: Chain, d: nat)
    requires MatchChain(root) == Some(c) && Width(root) == c.width && c.addCorrection && !c.signed
    requires SolveUnsignedAddMagicDivisor(c.magic, c.shift, c.extraShift, c.inputBits, c.width) == Some(d)
    ensures RewriteConstantDivision(root) == Some(Bin(UDiv, c.scaled, Const(c.width, d)))
  {
    hide MatchChain, SolveUnsignedAddMagicDivisor;
  }

  // ----- products that fit -----------------------------------------------------------------------

  /** (zext v * M) >> N in W bits, or with sext the sum of that and the sign bit. */
  function NarrowSequence(v: Expr, W: nat, M: nat, N: nat, signed: bool, magicFirst: bool, signFirst: bool): Expr
    requires 0 < W
  {
    var factor, magic := if signed then SExt(W, v) else ZExt(W, v), Const(W, M);
    var mul := if magicFirst then Bin(Mul, magic, factor) else Bin(Mul, factor, magic);
    var shifted := Bin(LShr, mul, Const(W, N));
    if signed then Plus(shifted, Bin(LShr, mul, Const(W, W - 1)), signFirst) else shifted
  }

  /** The largest product stays in W bits, or below the sign bit. */
  predicate ProductFits(v: Expr, W: nat, M: nat, signed: bool) {
    0 < Width(v) < W <= 64 && M < Pow2(W) &&
    if signed then Pow2(Width(v) - 1) * M < Pow2(W - 1) else (Pow2(Width(v)) - 1) * M < Pow2(W)
  }

  lemma NarrowRecognised(v: Expr, W: nat, M: nat, N: nat, signed: bool, magicFirst: bool, signFirst: bool)
    requires ProductFits(v, W, M, signed) && 0 < N < (if signed then W - 1 else W)
    ensures Width(NarrowSequence(v, W, M, N, signed, magicFirst, signFirst)) == W
    ensures MatchChain(NarrowSequence(v, W, M, N, signed, magicFirst, signFirst))
         == Some(Chain(if signed then SExt(W, v) else ZExt(W, v), M, N,
                       if signed then Width(v) - 1 else Width(v), W, signed, false, 0, true))
  {
    var root := NarrowSequence(v, W, M, N, signed, magicFirst, signFirst);
    var factor := if signed then SExt(W, v) else ZExt(W, v);
    var mul := if magicFirst then Bin(Mul, Const(W, M), factor) else Bin(Mul, factor, Const(W, M));
    NarrowMatch(mul, factor, v, W, M, N, signed, signFirst);
    FirstMatch(root, Chain(factor, M, N, if signed then Width(v) - 1 else Width(v), W, signed, false, 0, true));
  }

  lemma NarrowMatch(mul: Expr, factor: Expr, v: Expr, W: nat, M: nat, N: nat, signed: bool, signFirst: bool)
    requires ProductFits(v, W, M, signed) && 0 < N < (if signed then W - 1 else W)
    requires factor == (if signed then SExt(W, v) else ZExt(W, v))
    requires mul.Bin? && mul.op == Mul && Width(mul) == W && SplitProduct(mul) == Some((M, factor))
    ensures var shifted := Bin(LShr, mul, Const(W, N));
      var root := if signed then Plus(shifted, Bin(LShr, mul, Const(W, W - 1)), signFirst) else shifted;
      && Width(root) == W && MatchSignedMagicMulChain(root).None? && MatchUnsignedAddMagicMulChain(root).None?
      && MatchMagicMulChain(root).None?
      && MatchNarrowProductMagicChain(root)
      == Some(Chain(factor, M, N, if signed then Width(v) - 1 else Width(v), W, signed, false, 0, true))
  {
    var shifted, top := Bin(LShr, mul, Const(W, N)), Bin(LShr, mul, Const(W, W - 1));
    NoRoundTrip(mul);
    NoRoundTrip(shifted);
    NoRoundTrip(top);
    assert Width(shifted) == W && Width(top) == W && Width(Plus(shifted, top, signFirst)) == W;
    NarrowProductFits(W, Width(v), M, signed);
    hide StripWidthRoundTrip, SplitProduct, ApMul, Pow2;
  }

  lemma NarrowIsRewritten(v: Expr, W: nat, M: nat, N: nat, signed: bool, magicFirst: bool, signFirst: bool, d: nat)
    requires ProductFits(v, W, M, signed) && 3 <= N < (if signed then W - 1 else W) && 0 < M
    requires var L := if signed then Width(v) - 1 else Width(v);
      0 < L && 3 <= d < Pow2(L) && IsMagicFor(M, N, d) && ErrorFits(M, N, L, d)
    ensures RewriteConstantDivision(NarrowSequence(v, W, M, N, signed, magicFirst, signFirst))
         == Some(if signed then Bin(SDiv, SExt(W, v), Const(W, d)) else Bin(UDiv, ZExt(W, v), Const(W, d)))
  {
    var L, factor := if signed then Width(v) - 1 else Width(v), if signed then SExt(W, v) else ZExt(W, v);
    assert 0 < L < W <= 64 && M < Pow2(W);
    hide *;
    NarrowRecognised(v, W, M, N, signed, magicFirst, signFirst);
    SolverFinds(M, N, L, W, true, d);
    RewrittenAs(NarrowSequence(v, W, M, N, signed, magicFirst, signFirst),
                Chain(factor, M, N, L, W, signed, false, 0, true), d);
  }

  ghost predicate IsNarrow(root: Expr, v: Expr, W: nat, M: nat, N: nat, signed: bool, magicFirst: bool,
                           signFirst: bool) {
    && ProductFits(v, W, M, signed) && 0 < N < (if signed then W - 1 else W)
    && root == NarrowSequence(v, W, M, N, signed, magicFirst, signFirst)
  }

  lemma NarrowParts(root: Expr)
    returns (v: Expr, W: nat, M: nat, N: nat, signed: bool, magicFirst: bool, signFirst: bool)
    requires WellFormed(root) && MatchNarrowProductMagicChain(root).Some?
    ensures IsNarrow(root, v, W, M, N, signed, magicFirst, signFirst)
  {
    hide Pow2, ApMul, Eval;
    var c := MatchNarrowProductMagicChain(root).value;
    v, W, M, N, signed := c.scaled.arg, Width(root), c.magic, c.shift, c.signed;
    signFirst := signed && root.lhs.rhs.value == W - 1;
    var shifted := if !signed then root else if signFirst then root.rhs else root.lhs;
    var mul := shifted.lhs;
    magicFirst := mul.lhs.Const?;
    assert WellFormed(shifted) && WellFormed(mul) && Width(shifted) == W == Width(mul);
    var magic := if magicFirst then mul.lhs else mul.rhs;
    assert WellFormed(magic) && magic == Const(W, M);
    NarrowProductFits(W, Width(v), M, signed);
  }

  /** The narrow matcher takes these sequences and no other tree. */
  lemma NarrowExactly(root: Expr)
    requires WellFormed(root)
    ensures MatchNarrowProductMagicChain(root).Some? <==>
              exists v, W: nat, M: nat, N: nat, signed, magicFirst, signFirst ::
                IsNarrow(root, v, W, M, N, signed, magicFirst, signFirst)
  {
    hide MatchNarrowProductMagicChain, NarrowSequence, ProductFits;
    if MatchNarrowProductMagicChain(root).Some? {
      var v, W, M, N, signed, magicFirst, signFirst := NarrowParts(root);
    }
    if v, W: nat, M: nat, N: nat, signed, magicFirst, signFirst :|
        IsNarrow(root, v, W, M, N, signed, magicFirst, signFirst) {
      NarrowTaken(v, W, M, N, signed, magicFirst, signFirst);
    }
  }

  lemma NarrowTaken(v: Expr, W: nat, M: nat, N: nat, signed: bool, magicFirst: bool, signFirst: bool)
    requires ProductFits(v, W, M, signed) && 0 < N < (if signed then W - 1 else W)
    ensures MatchNarrowProductMagicChain(NarrowSequence(v, W, M, N, signed, magicFirst, signFirst)).Some?
  {
    var factor := if signed then SExt(W, v) else ZExt(W, v);
    NarrowMatch(if magicFirst then Bin(Mul, Const(W, M), factor) else Bin(Mul, factor, Const(W, M)),
                factor, v, W, M, N, signed, signFirst);
  }

  // ----- limits ----------------------------------------------------------------------------------

  lemma SimpleLimits(width: nat, trunc: Expr, sign: Expr, outerShift: nat, c: Chain)
    requires 2 <= width && trunc.Trunc? && WellFormed(trunc) && outerShift < width
    requires MatchSignedSimple(width, trunc, sign, outerShift) == Some(c)
    ensures c.width == width && c.signed && !c.addCorrection && c.shift < 2 * width
  {
    hide LowBitsBase, Pow2, Width;
    var amount := trunc.arg.rhs;
    assert WellFormed(trunc.arg) && (IsConstShift(trunc.arg, AShr) ==> amount.value < Width(trunc.arg.lhs));
  }

  lemma SignedLimits(root: Expr, c: Chain)
    requires WellFormed(root) && MatchSignedMagicMulChain(root) == Some(c)
    ensures c.width == Width(root) <= 64 && 2 <= c.width && c.signed && !c.addCorrection && c.shift < 2 * c.width
  {
    hide Pow2, LowBitsBase, MatchSignedSimple, Strip;
    var env: Env := n => 0;
    var operands := SignedOperands(root).value;
    RoundTripKeeps(root.lhs, env);
    RoundTripKeeps(root.rhs, env);
    var shifted := operands.0;
    assert WellFormed(shifted) && Width(shifted) == Width(root);
    var inner := if shifted.Bin? then shifted.lhs else shifted;
    RoundTripKeeps(inner, env);
    var base, extra := StripWidthRoundTrip(inner), if shifted.Bin? then shifted.rhs.value else 0;
    if base.Trunc? { SimpleLimits(Width(root), base, operands.1, extra, c); }
  }

  lemma AddLimits(root: Expr, c: Chain)
    requires WellFormed(root) && MatchUnsignedAddMagicMulChain(root) == Some(c)
    ensures c.width == Width(root) <= 64 && !c.signed && c.addCorrection
    ensures c.width <= c.shift <= 2 * c.width && 2 <= c.extraShift <= c.width
  {
    hide StripWidthRoundTrip, LowBitsBase, Minuend, Eval, ParseMagicProduct, Pow2;
  }

  /** Nothing wider than 64 bits is matched, nothing below two bits as signed, and no
      chain shifts by more bits than its product has. */
  lemma RecognisedLimits(root: Expr, c: Chain)
    requires WellFormed(root) && MatchChain(root) == Some(c)
    ensures c.width == Width(root) <= 64 && c.shift <= 2 * c.width
    ensures c.signed ==> 2 <= c.width && c.shift < 2 * c.width
    ensures c.addCorrection ==> c.width <= c.shift && 2 <= c.extraShift <= c.width
  {
    hide *;
    if MatchSignedMagicMulChain(root) == Some(c) {
      SignedLimits(root, c);
    } else if MatchUnsignedAddMagicMulChain(root) == Some(c) {
      AddLimits(root, c);
    } else {
      OtherLimits(root, c);
    }
  }

  lemma OtherLimits(root: Expr, c: Chain)
    requires WellFormed(root) && MatchChain(root) == Some(c)
    requires MatchSignedMagicMulChain(root) != Some(c) && MatchUnsignedAddMagicMulChain(root) != Some(c)
    ensures c.width == Width(root) <= 64 && c.shift <= 2 * c.width && !c.addCorrection
    ensures c.signed ==> 2 <= c.width && c.shift < c.width
  {
    hide MatchSignedMagicMulChain, MatchUnsignedAddMagicMulChain, Pow2, ApMul, DividendBitBound;
  }

  // ----- round trips on the way --------------------------------------------------------------------

  /** The same value, up to width round trips around it. */
  predicate Alike(a: Expr, b: Expr) {
    Width(a) == Width(b) && StripWidthRoundTrip(a) == StripWidthRoundTrip(b)
  }

  /** Round trips around the quotient and the sign make no difference. */
  lemma SignedIgnoresRoundTrips(op: Op, a: Expr, b: Expr, a': Expr, b': Expr)
    requires Alike(a, a') && Alike(b, b')
    ensures MatchSignedMagicMulChain(Bin(op, a, b)) == MatchSignedMagicMulChain(Bin(op, a', b'))
  {
    hide StripWidthRoundTrip, MatchSignedSimple, MatchSignedPlusX, SignedRole;
  }

  /** Nor do those around the operand of the outer shift, unless that is the sign mask. */
  lemma ShiftIgnoresRoundTrips(op: Op, a: Expr, a': Expr, b: Expr, k: Expr)
    requires Alike(a, a') && (op == Sub && k.Const? ==> k.value + 1 != Width(a))
    ensures MatchSignedMagicMulChain(Bin(op, Bin(AShr, a, k), b))
         == MatchSignedMagicMulChain(Bin(op, Bin(AShr, a', k), b))
  {
    hide StripWidthRoundTrip, MatchSignedSimple, MatchSignedPlusX;
    NoRoundTrip(Bin(AShr, a, k));
    NoRoundTrip(Bin(AShr, a', k));
    assert Width(Bin(op, Bin(AShr, a, k), b)) == Width(a) == Width(Bin(op, Bin(AShr, a', k), b));
  }

  /** Nor do those around the operands of the sum that adds the dividend back. */
  lemma PlusXIgnoresRoundTrips(op: Op, a: Expr, b: Expr, a': Expr, b': Expr, k: Expr, t: Expr)
    requires Alike(a, a') && Alike(b, b')
    ensures var sum, sum' := Bin(Add, a, b), Bin(Add, a', b');
      MatchSignedMagicMulChain(Bin(op, Bin(AShr, sum, k), Bin(LShr, sum, t)))
      == MatchSignedMagicMulChain(Bin(op, Bin(AShr, sum', k), Bin(LShr, sum', t)))
  {
    hide StripWidthRoundTrip, MatchSignedSimple, MatchSignedPlusX;
    var sum, sum' := Bin(Add, a, b), Bin(Add, a', b');
    NoRoundTrip(sum);
    NoRoundTrip(sum');
    NoRoundTrip(Bin(AShr, sum, k));
    NoRoundTrip(Bin(AShr, sum', k));
    NoRoundTrip(Bin(LShr, sum, t));
    NoRoundTrip(Bin(LShr, sum', t));
    var W := Width(a);
    assert Width(Bin(AShr, sum, k)) == W == Width(Bin(AShr, sum', k));
    assert Width(Bin(op, Bin(AShr, sum, k), Bin(LShr, sum, t))) == W;
    assert Width(Bin(op, Bin(AShr, sum', k), Bin(LShr, sum', t))) == W;
    if 2 <= W && k.Const? {
      SumIgnoresRoundTrips(W, op == Sub, a, b, a', b', t, k.value);
    }
  }

  lemma SumIgnoresRoundTrips(W: nat, subtractForm: bool, a: Expr, b: Expr, a': Expr, b': Expr, t: Expr, s: nat)
    requires 2 <= W && Alike(a, a') && Alike(b, b')
    ensures var sum, sum' := Bin(Add, a, b), Bin(Add, a', b');
      MatchSignedPlusX(W, subtractForm, sum, Bin(LShr, sum, t), s)
      == MatchSignedPlusX(W, subtractForm, sum', Bin(LShr, sum', t), s)
  {
    hide StripWidthRoundTrip, ParseMagicProduct, ParseHighHalf, LowBitsBase, Pow2, Wrap;
  }

  /** The same for the operands of the final shift, of the sum and of the halving. */
  lemma AddIgnoresRoundTrips(a: Expr, b: Expr, a': Expr, b': Expr, k: Expr, one: Expr, h: Expr)
    requires Alike(a, a') && Alike(b, b')
    ensures MatchUnsignedAddMagicMulChain(Bin(LShr, a, k)) == MatchUnsignedAddMagicMulChain(Bin(LShr, a', k))
    ensures MatchUnsignedAddMagicMulChain(Bin(LShr, Bin(Add, a, b), k))
         == MatchUnsignedAddMagicMulChain(Bin(LShr, Bin(Add, a', b'), k))
    ensures MatchUnsignedAddMagicMulChain(Bin(LShr, Bin(Add, Bin(LShr, a, one), h), k))
         == MatchUnsignedAddMagicMulChain(Bin(LShr, Bin(Add, Bin(LShr, a', one), h), k))
  {
    HalvedIgnoresRoundTrips(a, a', k, one, h);
    hide StripWidthRoundTrip, CorrectedChain, Minuend;
    NoRoundTrip(Bin(Add, a, b));
    NoRoundTrip(Bin(Add, a', b'));
    assert Width(Bin(LShr, Bin(Add, a, b), k)) == Width(a) == Width(Bin(LShr, Bin(Add, a', b'), k));
  }

  lemma HalvedIgnoresRoundTrips(a: Expr, a': Expr, k: Expr, one: Expr, h: Expr)
    requires Alike(a, a')
    ensures MatchUnsignedAddMagicMulChain(Bin(LShr, Bin(Add, Bin(LShr, a, one), h), k))
         == MatchUnsignedAddMagicMulChain(Bin(LShr, Bin(Add, Bin(LShr, a', one), h), k))
  {
    hide StripWidthRoundTrip, CorrectedChain, Minuend;
    NoRoundTrip(Bin(LShr, a, one));
    NoRoundTrip(Bin(LShr, a', one));
    NoRoundTrip(Bin(Add, Bin(LShr, a, one), h));
    NoRoundTrip(Bin(Add, Bin(LShr, a', one), h));
    var W, sum, sum' := Width(a), Bin(Add, Bin(LShr, a, one), h), Bin(Add, Bin(LShr, a', one), h);
    assert Width(sum) == W == Width(sum');
    assert Width(Bin(LShr, sum, k)) == W == Width(Bin(LShr, sum', k));
  }
}
