/** Integer values of the lifted program as expression trees: the inputs of the
    peephole rewrites.  Two nodes that the program computes separately but that
    have the same structure are one tree; they evaluate alike. */
module ValueTree {
  import opened Bits

  datatype Op = Add | Sub | Mul | LShr | AShr | UDiv | SDiv

  datatype Expr =
    | Input(name: nat, bits: nat)
    | Const(bits: nat, value: nat)
    | ZExt(bits: nat, arg: Expr)
    | SExt(bits: nat, arg: Expr)
    | Trunc(bits: nat, arg: Expr)
    | Extract(offset: nat, bits: nat, arg: Expr)
    | Bin(op: Op, lhs: Expr, rhs: Expr)

  type Env = nat -> nat

  function Width(e: Expr): nat {
    match e
    case Bin(_, lhs, _) => Width(lhs)
    case _ => e.bits
  }

  predicate IsShift(op: Op) {
    op == LShr || op == AShr
  }

  /** Typed as LLVM requires; a constant shift amount stays below the width. */
  predicate WellFormed(e: Expr) {
    && 0 < Width(e)
    && match e
       case Input(_, _) => true
       case Const(w, v) => v < Pow2(w)
       case ZExt(w, a) => WellFormed(a) && Width(a) < w
       case SExt(w, a) => WellFormed(a) && Width(a) < w
       case Trunc(w, a) => WellFormed(a) && w < Width(a)
       case Extract(off, w, a) => WellFormed(a) && off + w <= Width(a)
       case Bin(op, l, r) =>
         WellFormed(l) && WellFormed(r) && Width(l) == Width(r) &&
         (IsShift(op) && r.Const? ==> r.value < Width(l))
  }

  function EvalBin(op: Op, w: nat, a: nat, b: nat): (v: nat)
    requires 0 < w && IsWord(a, w) && IsWord(b, w)
    ensures IsWord(v, w)
  {
    match op
    case Add => Wrap(a + b, w)
    case Sub => Wrap(a - b, w)
    case Mul => Wrap(a * b, w)
    case LShr => ShiftShrinks(a, Pow2(b)); a / Pow2(b)
    case AShr => Wrap(ToSigned(a, w) / Pow2(b), w)
    case UDiv => if b == 0 then 0 else ShiftShrinks(a, b); a / b
    case SDiv => if b == 0 then 0 else Wrap(TruncDiv(ToSigned(a, w), ToSigned(b, w)), w)
  }

  function Eval(e: Expr, env: Env): (v: nat)
    requires WellFormed(e)
    ensures IsWord(v, Width(e))
  {
    match e
    case Input(n, w) => Wrap(env(n), w)
    case Const(_, v) => v
    case ZExt(w, a) => Pow2Le(Width(a), w); Eval(a, env)
    case SExt(w, a) => Wrap(ToSigned(Eval(a, env), Width(a)), w)
    case Trunc(w, a) => Wrap(Eval(a, env), w)
    case Extract(off, w, a) => Wrap(Eval(a, env) / Pow2(off), w)
    case Bin(op, l, r) => EvalBin(op, Width(e), Eval(l, env), Eval(r, env))
  }

  function SignedEval(e: Expr, env: Env): (x: int)
    requires WellFormed(e)
    ensures IsSigned(x, Width(e))
  {
    SignedRoundTrip(Eval(e, env), Width(e));
    ToSigned(Eval(e, env), Width(e))
  }

  // ----- looking through width changes --------------------------------------

  /** trunc (zext|sext v) with v of the truncated type is v. */
  function StripOnce(e: Expr): Expr {
    if e.Trunc? && (e.arg.ZExt? || e.arg.SExt?) && Width(e.arg.arg) == e.bits then e.arg.arg else e
  }

  function Strip(e: Expr, depth: nat): Expr {
    if depth == 0 || StripOnce(e) == e then e else Strip(StripOnce(e), depth - 1)
  }

  function StripWidthRoundTrip(e: Expr): Expr {
    Strip(e, 4)
  }

  /** The value whose low bits e shows. */
  function LowBitsBase(e: Expr, depth: nat): Expr
    decreases depth
  {
    if depth == 0 then e
    else if StripWidthRoundTrip(e) != e then LowBitsBase(StripWidthRoundTrip(e), depth - 1)
    else if e.Trunc? then LowBitsBase(e.arg, depth - 1)
    else if e.Extract? && e.offset == 0 then LowBitsBase(e.arg, depth - 1)
    else e
  }

  predicate SameLowBits(a: Expr, b: Expr) {
    a == b || LowBitsBase(a, 6) == LowBitsBase(b, 6)
  }

  lemma StripOnceKeeps(e: Expr, env: Env)
    requires WellFormed(e)
    ensures WellFormed(StripOnce(e)) && Width(StripOnce(e)) == Width(e)
    ensures Eval(StripOnce(e), env) == Eval(e, env)
  {
    if StripOnce(e) != e {
      var v := Eval(e.arg.arg, env);
      if e.arg.ZExt? {
        WrapSmall(v, e.bits, e.bits);
      } else {
        WrapWrap(ToSigned(v, e.bits), Width(e.arg), e.bits);
        SignedRoundTrip(v, e.bits);
      }
    }
  }

  lemma {:induction false} StripKeeps(e: Expr, depth: nat, env: Env)
    requires WellFormed(e)
    ensures WellFormed(Strip(e, depth)) && Width(Strip(e, depth)) == Width(e)
    ensures Eval(Strip(e, depth), env) == Eval(e, env)
  {
    StripOnceKeeps(e, env);
    if depth != 0 && StripOnce(e) != e {
      StripKeeps(StripOnce(e), depth - 1, env);
    }
  }

  lemma RoundTripKeeps(e: Expr, env: Env)
    requires WellFormed(e)
    ensures var s := StripWidthRoundTrip(e);
            WellFormed(s) && Width(s) == Width(e) && Eval(s, env) == Eval(e, env)
  {
    StripKeeps(e, 4, env);
  }

  /** Every view shows exactly the low bits of its base. */
  lemma {:induction false} LowBitsOfBase(e: Expr, depth: nat, env: Env)
    requires WellFormed(e)
    ensures var b := LowBitsBase(e, depth);
            WellFormed(b) && Width(e) <= Width(b) && Eval(e, env) == Wrap(Eval(b, env), Width(e))
    decreases depth
  {
    var v := Eval(e, env);
    WrapSmall(v, Width(e), Width(e));
    if depth != 0 {
      StripKeeps(e, 4, env);
      var s := StripWidthRoundTrip(e);
      if s != e {
        LowBitsOfBase(s, depth - 1, env);
      } else if e.Trunc? || (e.Extract? && e.offset == 0) {
        LowBitsOfBase(e.arg, depth - 1, env);
        var b := LowBitsBase(e.arg, depth - 1);
        assert Pow2(0) == 1;
        assert v == Wrap(Eval(e.arg, env), Width(e));
        WrapWrap(Eval(b, env), Width(e.arg), Width(e));
      }
    }
  }

  /** The narrower of two views of a base shows the low bits of the wider one. */
  lemma SameLowBitsNarrow(a: Expr, b: Expr, env: Env)
    requires WellFormed(a) && WellFormed(b) && SameLowBits(a, b) && Width(a) <= Width(b)
    ensures Eval(a, env) == Wrap(Eval(b, env), Width(a))
  {
    LowBitsOfBase(a, 6, env);
    LowBitsOfBase(b, 6, env);
    var base := Eval(LowBitsBase(b, 6), env);
    hide LowBitsBase;
    if a == b { WrapWord(Eval(a, env), Width(a)); } else { WrapWrap(base, Width(b), Width(a)); }
  }

  /** Views of the same base agree when they have the same width. */
  lemma SameLowBitsAgree(a: Expr, b: Expr, env: Env)
    requires WellFormed(a) && WellFormed(b) && SameLowBits(a, b) && Width(a) == Width(b)
    ensures Eval(a, env) == Eval(b, env)
  {
    SameLowBitsNarrow(a, b, env);
    WrapWord(Eval(b, env), Width(b));
  }

  // ----- which views of a value are recognised -----------------------------------------

  /** One step from a value to a view of its low bits. */
  datatype Layer = Narrowed(bits: nat) | Extracted(bits: nat) | RoundTrip(bits: nat, signed: bool)

  /** v seen through the layers, the first one outermost. */
  function View(v: Expr, layers: seq<Layer>): Expr {
    if layers == [] then v
    else
      var inner := View(v, layers[1..]);
      match layers[0]
      case Narrowed(w) => Trunc(w, inner)
      case Extracted(w) => Extract(0, w, inner)
      case RoundTrip(w, signed) => Trunc(Width(inner), if signed then SExt(w, inner) else ZExt(w, inner))
  }

  /** The size of a tree. */
  function Nodes(e: Expr): nat {
    match e
    case Input(_, _) => 1
    case Const(_, _) => 1
    case ZExt(_, a) => 1 + Nodes(a)
    case SExt(_, a) => 1 + Nodes(a)
    case Trunc(_, a) => 1 + Nodes(a)
    case Extract(_, _, a) => 1 + Nodes(a)
    case Bin(_, a, b) => 1 + Nodes(a) + Nodes(b)
  }

  lemma {:induction false} StripIsSmaller(e: Expr, depth: nat)
    ensures Strip(e, depth) == e || Nodes(Strip(e, depth)) < Nodes(e)
    decreases depth
  {
    if depth != 0 && StripOnce(e) != e {
      assert Nodes(e) == 1 + Nodes(e.arg) == 2 + Nodes(e.arg.arg);
      StripIsSmaller(StripOnce(e), depth - 1);
    }
  }

  /** Not itself a change of width. */
  predicate IsBare(v: Expr) {
    v.Input? || v.Const? || v.Bin?
  }

  lemma {:induction false} ViewStrips(v: Expr, layers: seq<Layer>, depth: nat) returns (j: nat)
    requires IsBare(v)
    ensures j <= |layers| && Strip(View(v, layers), depth) == View(v, layers[j..])
    ensures Strip(View(v, layers), depth) != View(v, layers) ==> 0 < j
    ensures (forall l :: l in layers ==> l.RoundTrip?) && |layers| <= depth ==> j == |layers|
    ensures depth != 0 && layers != [] && layers[0].RoundTrip? ==>
              0 < j && Nodes(Strip(View(v, layers), depth)) < Nodes(View(v, layers))
    ensures layers != [] && !layers[0].RoundTrip? ==> j == 0
    decreases depth
  {
    j := 0;
    assert layers[0..] == layers;
    if depth != 0 && layers != [] && layers[0].RoundTrip? {
      var rest := layers[1..];
      StripIsSmaller(View(v, rest), depth - 1);
      assert StripOnce(View(v, layers)) == View(v, rest);
      var more := ViewStrips(v, rest, depth - 1);
      j := more + 1;
      assert rest[more..] == layers[j..];
    }
  }

  /** Up to four round trips on top of each other are looked through. */
  lemma RoundTripsAreStripped(v: Expr, layers: seq<Layer>)
    requires IsBare(v) && |layers| <= 4 && forall l :: l in layers ==> l.RoundTrip?
    ensures StripWidthRoundTrip(View(v, layers)) == v
  {
    var j := ViewStrips(v, layers, 4);
  }

  lemma {:induction false} ViewHasBase(v: Expr, layers: seq<Layer>, depth: nat)
    requires IsBare(v) && |layers| <= depth
    ensures LowBitsBase(View(v, layers), depth) == v
    decreases depth
  {
    hide Strip;
    var e := View(v, layers);
    var j := ViewStrips(v, layers, 4);
    if layers == [] {
      assert layers[j..] == [];
    } else if layers[0].RoundTrip? {
      ViewHasBase(v, layers[j..], depth - 1);
    } else {
      assert layers[j..] == layers;
      ViewHasBase(v, layers[1..], depth - 1);
    }
  }

  /** Any two views of a value through at most six layers each are recognised as
      showing the same low bits. */
  lemma ViewsShareBase(v: Expr, one: seq<Layer>, other: seq<Layer>)
    requires IsBare(v) && |one| <= 6 && |other| <= 6
    ensures SameLowBits(View(v, one), View(v, other))
  {
    ViewHasBase(v, one, 6);
    ViewHasBase(v, other, 6);
  }
}
