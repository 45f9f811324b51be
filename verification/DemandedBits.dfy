/** Narrowing the register reads of a value whose low bits alone are observed. */
module DemandedBits {
  import opened Bits
  import opened Bitwise
  import opened RegisterRange
  import opened Wrappers

  datatype ArithOp = Add | Sub | Mul | Logic(op: Logic)

  datatype ShiftOp = Shl | LShr | AShr

  /** A node of a value graph.  A Boundary is any instruction that the search
      does not look through: a cast, a load, a call, a division, a shift by a
      variable or by 64 and more. */
  datatype Node =
    | Read(bits: nat)
    | Constant(bits: nat, value: nat)
    | Boundary(bits: nat, f: nat, args: seq<nat>)
    | Arith(op: ArithOp, bits: nat, lhs: nat, rhs: nat)
    | Shift(shiftOp: ShiftOp, bits: nat, arg: nat, amount: nat)

  function Operands(n: Node): seq<nat> {
    match n
    case Read(_) => []
    case Constant(_, _) => []
    case Boundary(_, _, args) => args
    case Arith(_, _, l, r) => [l, r]
    case Shift(_, _, a, _) => [a]
  }

  /** Operands come before their users; operators are typed as LLVM requires. */
  predicate Valid(g: seq<Node>) {
    forall i :: 0 <= i < |g| ==> ValidNode(g, i)
  }

  predicate ValidNode(g: seq<Node>, i: nat)
    requires i < |g|
  {
    && 0 < g[i].bits
    && match g[i]
       case Read(_) => true
       case Constant(w, v) => IsWord(v, w)
       case Boundary(_, _, args) => forall k :: 0 <= k < |args| ==> args[k] < i
       case Arith(_, w, l, r) => l < i && r < i && g[l].bits == w == g[r].bits
       case Shift(_, w, a, s) => a < i && g[a].bits == w && s < w
  }

  lemma OperandsBefore(g: seq<Node>, i: nat)
    requires i < |g| && ValidNode(g, i)
    ensures forall k :: 0 <= k < |Operands(g[i])| ==> Operands(g[i])[k] < i
  {
  }

  /** What the registers hold and what the boundaries compute. */
  datatype Env = Env(registers: nat -> nat, boundary: (nat, seq<nat>) -> nat)

  function EvalArith(op: ArithOp, w: nat, a: nat, b: nat): (v: nat)
    requires IsWord(a, w) && IsWord(b, w)
    ensures IsWord(v, w)
  {
    match op
    case Add => Wrap(a + b, w)
    case Sub => Wrap(a - b, w)
    case Mul => Wrap(a * b, w)
    case Logic(l) => ApplyWord(l, a, b, w); Apply(l, a, b)
  }

  function EvalShift(op: ShiftOp, w: nat, a: nat, s: nat): (v: nat)
    requires 0 < w && IsWord(a, w)
    ensures IsWord(v, w)
  {
    match op
    case Shl => Wrap(a * Pow2(s), w)
    case LShr => Wrap(Shr(a, s), w)
    case AShr => Wrap(Shr(ToSigned(a, w), s), w)
  }

  /** The value of node i when the reads in narrowed have been replaced by the
      zero extension of their low bits. */
  function Eval(g: seq<Node>, env: Env, narrowed: map<nat, nat>, i: nat): (v: nat)
    requires Valid(g) && i < |g|
    ensures IsWord(v, g[i].bits)
    decreases i, 1
  {
    assert ValidNode(g, i);
    match g[i]
    case Read(w) =>
      var v := Wrap(env.registers(i), w);
      if i in narrowed then WrapShrinks(v, narrowed[i], w); Wrap(v, narrowed[i]) else v
    case Constant(_, v) => v
    case Boundary(w, f, args) => Wrap(env.boundary(f, EvalAll(g, env, narrowed, args, i)), w)
    case Arith(op, w, l, r) =>
      EvalArith(op, w, Eval(g, env, narrowed, l), Eval(g, env, narrowed, r))
    case Shift(op, w, a, s) =>
      EvalShift(op, w, Eval(g, env, narrowed, a), s)
  }

  function EvalAll(g: seq<Node>, env: Env, narrowed: map<nat, nat>, args: seq<nat>, i: nat): seq<nat>
    requires Valid(g) && i < |g| && forall k :: 0 <= k < |args| ==> args[k] < i
    decreases i, 0, |args|
  {
    if args == [] then [] else [Eval(g, env, narrowed, args[0])] + EvalAll(g, env, narrowed, args[1..], i)
  }

  lemma WrapShrinks(v: nat, k: nat, w: nat)
    requires IsWord(v, w)
    ensures IsWord(Wrap(v, k), w)
  {
    if k <= w { Pow2Le(k, w); } else { WrapSmall(v, w, k); }
  }

  /** Adding the subtrahend back undoes a subtraction, and a logical right shift undoes
      a left shift of bits that were not shifted out. */
  lemma OperatorsUndone(w: nat, a: nat, b: nat, s: nat)
    requires 0 < w && IsWord(a, w) && IsWord(b, w)
    ensures EvalArith(Add, w, EvalArith(Sub, w, a, b), b) == a
    ensures IsWord(a * Pow2(s), w) ==> EvalShift(LShr, w, EvalShift(Shl, w, a, s), s) == a
  {
    hide Pow2, Wrap;
    WrapSum(Wrap(a - b, w), b, w);
    WrapSum(a - b, b, w);
    WrapWrap(a - b, w, w);
    WrapSmall(a, w, w);
    if IsWord(a * Pow2(s), w) {
      WrapSmall(a * Pow2(s), w, w);
      DivAddMultiple(0, a, Pow2(s));
    }
  }

  // ----- what each operator demands ------------------------------------------------

  function Least(a: nat, b: nat): nat { if a < b then a else b }

  /** Node i needs this many low bits of its k-th operand to get its own low
      needed bits right. */
  function Demand(g: seq<Node>, i: nat, needed: nat, k: nat): nat
    requires i < |g|
  {
    match g[i]
    case Arith(_, w, _, _) => Least(needed, w)
    case Shift(Shl, w, _, s) => if s < Least(needed, w) then Least(needed, w) - s else 0
    case Shift(_, w, _, s) => Least(Least(needed, w) + s, w)
    case _ => 0
  }

  lemma LowBitsOf(a: int, b: int, k: nat, j: nat)
    requires Wrap(a, k) == Wrap(b, k) && j <= k
    ensures Wrap(a, j) == Wrap(b, j)
  {
    WrapWrap(a, k, j);
    WrapWrap(b, k, j);
  }

  lemma ArithDemand(op: ArithOp, w: nat, a: nat, b: nat, a': nat, b': nat, k: nat)
    requires IsWord(a, w) && IsWord(b, w) && IsWord(a', w) && IsWord(b', w) && k <= w
    requires Wrap(a, k) == Wrap(a', k) && Wrap(b, k) == Wrap(b', k)
    ensures Wrap(EvalArith(op, w, a, b), k) == Wrap(EvalArith(op, w, a', b'), k)
  {
    hide Wrap, Apply;
    match op
    case Add =>
      WrapWrap(a + b, w, k);
      WrapWrap(a' + b', w, k);
      WrapSum(a, b, k);
      WrapSum(a', b', k);
    case Sub =>
      WrapWrap(a - b, w, k);
      WrapWrap(a' - b', w, k);
      WrapSum(a, b, k);
      WrapSum(a', b', k);
    case Mul =>
      WrapWrap(a * b, w, k);
      WrapWrap(a' * b', w, k);
      WrapProduct(a, b, k);
      WrapProduct(a', b', k);
    case Logic(l) =>
      ApplyLowBits(l, a, b, k);
      ApplyLowBits(l, a', b', k);
  }

  lemma ShiftDemand(op: ShiftOp, w: nat, a: nat, a': nat, s: nat, k: nat)
    requires 0 < w && IsWord(a, w) && IsWord(a', w) && 0 < k <= w
    requires var d := if op.Shl? then (if s < k then k - s else 0) else Least(k + s, w); Wrap(a, d) == Wrap(a', d)
    ensures Wrap(EvalShift(op, w, a, s), k) == Wrap(EvalShift(op, w, a', s), k)
  {
    hide Wrap, Pow2, Shr;
    match op
    case Shl =>
      WrapWrap(a * Pow2(s), w, k);
      WrapWrap(a' * Pow2(s), w, k);
      ShlLow(a, s, k);
      ShlLow(a', s, k);
    case LShr =>
      if k + s <= w {
        WrapWrap(Shr(a, s), w, k);
        WrapWrap(Shr(a', s), w, k);
        SliceLow(a, a', s, k);
      } else {
        WrapSmall(a, w, w);
        WrapSmall(a', w, w);
      }
    case AShr =>
      if k + s <= w {
        WrapWrap(Shr(ToSigned(a, w), s), w, k);
        WrapWrap(Shr(ToSigned(a', w), s), w, k);
        SignedLow(a, w, k + s);
        SignedLow(a', w, k + s);
        SliceLow(ToSigned(a, w), ToSigned(a', w), s, k);
      } else {
        WrapSmall(a, w, w);
        WrapSmall(a', w, w);
      }
  }

  lemma SliceLow(a: int, b: int, s: nat, k: nat)
    requires Wrap(a, k + s) == Wrap(b, k + s)
    ensures Wrap(Shr(a, s), k) == Wrap(Shr(b, s), k)
  {
    SliceBelow(a, s, k, k + s);
    SliceBelow(b, s, k, k + s);
  }

  /** The signed reading has the same low bits. */
  lemma SignedLow(a: nat, w: nat, k: nat)
    requires 0 < w && IsWord(a, w) && k <= w
    ensures Wrap(ToSigned(a, w), k) == Wrap(a, k)
  {
    SignedRoundTrip(a, w);
    WrapWrap(ToSigned(a, w), w, k);
  }

  // ----- no demand is larger than needed ------------------------------------------------

  /** Two values of operand k that agree below bit d - 1, and another operand with
      which the low needed bits of the result differ. */
  predicate ArithDiffers(op: ArithOp, w: nat, k: nat, d: nat, needed: nat, a: nat, a': nat, b: nat) {
    && 0 < d && IsWord(a, w) && IsWord(a', w) && IsWord(b, w) && Wrap(a, d - 1) == Wrap(a', d - 1)
    && Wrap(if k == 0 then EvalArith(op, w, a, b) else EvalArith(op, w, b, a), needed)
    != Wrap(if k == 0 then EvalArith(op, w, a', b) else EvalArith(op, w, b, a'), needed)
  }

  predicate ShiftDiffers(op: ShiftOp, w: nat, s: nat, d: nat, needed: nat, a: nat, a': nat) {
    && 0 < d && 0 < w && IsWord(a, w) && IsWord(a', w) && Wrap(a, d - 1) == Wrap(a', d - 1)
    && Wrap(EvalShift(op, w, a, s), needed) != Wrap(EvalShift(op, w, a', s), needed)
  }

  ghost predicate Matters(n: Node, k: nat, d: nat, needed: nat) {
    match n
    case Arith(op, w, _, _) => exists a: nat, a': nat, b: nat :: ArithDiffers(op, w, k, d, needed, a, a', b)
    case Shift(op, w, _, s) => exists a: nat, a': nat :: ShiftDiffers(op, w, s, d, needed, a, a')
    case _ => false
  }

  /** With one bit less of an operand the low needed bits could come out wrong. */
  lemma DemandIsLeast(g: seq<Node>, i: nat, needed: nat, k: nat)
    requires Valid(g) && i < |g| && k < |Operands(g[i])| && 0 < needed && 0 < Demand(g, i, needed, k)
    ensures Matters(g[i], k, Demand(g, i, needed, k), needed)
  {
    assert ValidNode(g, i);
    hide Wrap, Pow2, ArithDiffers, ShiftDiffers, Valid;
    var d := Demand(g, i, needed, k);
    match g[i]
    case Arith(op, w, _, _) =>
      var b := ArithWitness(op, w, k, d, needed);
      assert ArithDiffers(op, w, k, d, needed, 0, Pow2(d - 1), b);
    case Shift(op, w, _, s) =>
      ShiftWitness(op, w, s, d, needed);
      assert ShiftDiffers(op, w, s, d, needed, 0, Pow2(d - 1));
  }

  /** 2^n has no bit below n. */
  lemma PowerBits(n: nat, w: nat)
    ensures Wrap(Pow2(n), n) == 0 == Wrap(0, n) && Wrap(0, w) == 0
    ensures n < w ==> Wrap(Pow2(n), w) == Pow2(n) && Wrap(-(Pow2(n) as int), w) != 0
  {
    DivAddMultiple(0, 1, Pow2(n));
    ModSmall(0, Pow2(n));
    ModSmall(0, Pow2(w));
    if n < w {
      Pow2Lt(n, w);
      ModSmall(Pow2(n), Pow2(w));
      WrapNegative(-(Pow2(n) as int), w);
    }
  }

  lemma ArithWitness(op: ArithOp, w: nat, k: nat, d: nat, needed: nat) returns (b: nat)
    requires 0 < d == Least(needed, w)
    ensures ArithDiffers(op, w, k, d, needed, 0, Pow2(d - 1), b)
  {
    b := match op case Mul => 1 case Logic(And) => Pow2(w) - 1 case _ => 0;
    var p := Pow2(d - 1);
    PowerBits(d - 1, w);
    PowerBits(d - 1, needed);
    Pow2Le(1, w);
    assert Pow2(1) == 2;
    ArithOfPower(op, w, k, d, b);
    if op.Sub? && k != 0 { WrapWrap(-(p as int), w, d); PowerBits(d - 1, d); NegativeStays(p, w, d, needed); }
  }

  lemma NegativeStays(p: nat, w: nat, d: nat, needed: nat)
    requires d == Least(needed, w) && Wrap(-(p as int), d) != 0
    ensures Wrap(Wrap(-(p as int), w), needed) != Wrap(0, needed)
  {
    WrapWrap(-(p as int), w, d);
    WrapWrap(Wrap(-(p as int), w), needed, d);
    WrapWrap(0, needed, d);
    ModSmall(0, Pow2(d));
  }

  /** With the chosen other operand the operation is the identity, or negation. */
  lemma ArithOfPower(op: ArithOp, w: nat, k: nat, d: nat, b: nat)
    requires 0 < d <= w && IsWord(Pow2(d - 1), w) && IsWord(0, w) && IsWord(b, w)
    requires b == match op case Mul => 1 case Logic(And) => Pow2(w) - 1 case _ => 0
    ensures var p := Pow2(d - 1);
      && (if k == 0 then EvalArith(op, w, 0, b) else EvalArith(op, w, b, 0)) == 0
      && (if k == 0 then EvalArith(op, w, p, b) else EvalArith(op, w, b, p))
      == (if op.Sub? && k != 0 then Wrap(-(p as int), w) else p)
  {
    var p := Pow2(d - 1);
    WrapWord(p, w);
    WrapWord(0, w);
    match op
    case Logic(l) =>
      hide Apply;
      if l.And? {
        AndOnes(p, w);
        AndOnes(0, w);
        ApplySwaps(And, p, Pow2(w) - 1);
        ApplySwaps(And, 0, Pow2(w) - 1);
      } else {
        ApplyZero(l, p);
        ApplyZero(l, 0);
        ApplySwaps(l, p, 0);
      }
    case _ =>
  }

  lemma {:induction false} ApplySwaps(op: Logic, a: nat, b: nat)
    ensures Apply(op, a, b) == Apply(op, b, a)
    decreases a + b
  {
    if a != 0 || b != 0 { ApplySwaps(op, a / 2, b / 2); }
  }

  lemma ShiftWitness(op: ShiftOp, w: nat, s: nat, d: nat, needed: nat)
    requires 0 < d && 0 < needed && s < w
    requires d == if op.Shl? then Least(needed, w) - s else Least(Least(needed, w) + s, w)
    ensures ShiftDiffers(op, w, s, d, needed, 0, Pow2(d - 1))
  {
    var e: nat := if op.Shl? then d - 1 + s else d - 1 - s;
    PowerBits(d - 1, w);
    PowerBits(e, w);
    PowerBits(e, needed);
    ShiftOfPower(op, w, s, d, e);
    hide Pow2, Wrap, EvalShift;
    if op.AShr? && d == w {
      PowerBits(e, Least(needed, w));
      NegativeStays(Pow2(e), w, Least(needed, w), needed);
    }
  }

  /** Shifting a power of two gives a power of two; an arithmetic shift of the top bit
      gives its negation. */
  lemma ShiftOfPower(op: ShiftOp, w: nat, s: nat, d: nat, e: nat)
    requires 0 < d <= w && s < w && IsWord(Pow2(d - 1), w) && IsWord(0, w) && e < w
    requires if op.Shl? then e == d - 1 + s else e == d - 1 - s
    ensures EvalShift(op, w, 0, s) == 0
    ensures EvalShift(op, w, Pow2(d - 1), s) == if op.AShr? && d == w then Wrap(-(Pow2(e) as int), w) else Pow2(e)
  {
    var p, q := Pow2(s), Pow2(e);
    PowerBits(e, w);
    ModSmall(0, p);
    if op.Shl? {
      Pow2Add(d - 1, s);
    } else {
      Pow2Add(e, s);
      DivAddMultiple(0, q, p);
      NegatedQuotient(q, p);
      TopPower(w, d);
    }
  }

  lemma TopPower(w: nat, d: nat)
    requires 0 < d <= w && IsWord(Pow2(d - 1), w)
    ensures ToSigned(Pow2(d - 1), w) == if d == w then -(Pow2(w - 1) as int) else Pow2(d - 1)
    ensures IsWord(0, w) && ToSigned(0, w) == 0
  {
    if d < w { Pow2Lt(d - 1, w - 1); }
  }

  lemma NegatedQuotient(q: int, p: int)
    requires 0 < p
    ensures (-(q * p)) / p == -q
  {
    assert -(q * p) == 0 + (-q) * p;
    DivAddMultiple(0, -q, p);
    ModSmall(0, p);
  }

  // ----- replacing reads ---------------------------------------------------------------

  /** No replaced read feeds node i. */
  predicate Untouched(g: seq<Node>, narrowed: map<nat, nat>, i: nat)
    requires Valid(g) && i < |g|
    decreases i, 1
  {
    assert ValidNode(g, i);
    && i !in narrowed
    && match g[i]
       case Boundary(_, _, args) => AllUntouched(g, narrowed, args, i)
       case Arith(_, _, l, r) => Untouched(g, narrowed, l) && Untouched(g, narrowed, r)
       case Shift(_, _, a, _) => Untouched(g, narrowed, a)
       case _ => true
  }

  predicate AllUntouched(g: seq<Node>, narrowed: map<nat, nat>, args: seq<nat>, i: nat)
    requires Valid(g) && i < |g| && forall k :: 0 <= k < |args| ==> args[k] < i
    decreases i, 0, |args|
  {
    args == [] || (Untouched(g, narrowed, args[0]) && AllUntouched(g, narrowed, args[1..], i))
  }

  /** demanded says how many low bits of a node matter: every replaced read keeps
      that many, every operand has at least what its users demand, and nothing
      behind a boundary is replaced. */
  ghost predicate Covered(g: seq<Node>, demanded: map<nat, nat>, narrowed: map<nat, nat>)
    requires Valid(g)
  {
    forall i :: i in demanded ==> i < |g| && CoveredAt(g, demanded, narrowed, i)
  }

  ghost predicate CoveredAt(g: seq<Node>, demanded: map<nat, nat>, narrowed: map<nat, nat>, i: nat)
    requires Valid(g) && i in demanded && i < |g|
  {
    assert forall k :: 0 <= k < |Operands(g[i])| ==> Operands(g[i])[k] < |g| by { assert ValidNode(g, i); }
    && (i in narrowed && g[i].Read? ==> demanded[i] <= narrowed[i])
    && (g[i].Boundary? ==> Untouched(g, narrowed, i))
    && (forall k :: 0 <= k < |Operands(g[i])| && 0 < Demand(g, i, demanded[i], k) ==>
          HasBits(g, demanded, Operands(g[i])[k], Demand(g, i, demanded[i], k)))
  }

  /** A constant never changes; any other node needs enough demanded bits. */
  predicate HasBits(g: seq<Node>, demanded: map<nat, nat>, o: nat, d: nat)
    requires o < |g|
  {
    g[o].Constant? || (o in demanded && d <= demanded[o])
  }

  lemma {:induction false} UntouchedValue(g: seq<Node>, env: Env, narrowed: map<nat, nat>, i: nat)
    requires Valid(g) && i < |g| && Untouched(g, narrowed, i)
    ensures Eval(g, env, narrowed, i) == Eval(g, env, map[], i)
    decreases i, 1
  {
    assert ValidNode(g, i);
    match g[i]
    case Read(_) =>
    case Constant(_, _) =>
    case Boundary(_, _, args) => UntouchedValues(g, env, narrowed, args, i);
    case Arith(_, _, l, r) => UntouchedValue(g, env, narrowed, l); UntouchedValue(g, env, narrowed, r);
    case Shift(_, _, a, _) => UntouchedValue(g, env, narrowed, a);
  }

  lemma {:induction false} UntouchedValues(g: seq<Node>, env: Env, narrowed: map<nat, nat>, args: seq<nat>, i: nat)
    requires Valid(g) && i < |g| && (forall k :: 0 <= k < |args| ==> args[k] < i) && AllUntouched(g, narrowed, args, i)
    ensures EvalAll(g, env, narrowed, args, i) == EvalAll(g, env, map[], args, i)
    decreases i, 0, |args|
  {
    if args != [] {
      UntouchedValue(g, env, narrowed, args[0]);
      UntouchedValues(g, env, narrowed, args[1..], i);
    }
  }

  /** The demanded low bits of every node survive the replacement. */
  lemma {:induction false} NarrowingKeepsDemanded(g: seq<Node>, env: Env, demanded: map<nat, nat>,
          narrowed: map<nat, nat>, i: nat)
    requires Valid(g) && Covered(g, demanded, narrowed) && i in demanded && demanded[i] <= g[i].bits
    requires forall o :: o in demanded ==> demanded[o] <= g[o].bits
    ensures Wrap(Eval(g, env, narrowed, i), demanded[i]) == Wrap(Eval(g, env, map[], i), demanded[i])
    decreases i, 1
  {
    hide Wrap, Pow2, Untouched, EvalArith, EvalShift;
    assert ValidNode(g, i) && CoveredAt(g, demanded, narrowed, i);
    var k := demanded[i];
    match g[i]
    case Read(w) =>
      if i in narrowed { WrapWrap(Wrap(env.registers(i), w), narrowed[i], k); }
    case Constant(_, _) =>
    case Boundary(_, _, _) => UntouchedValue(g, env, narrowed, i);
    case Arith(op, w, l, r) =>
      ArithKeeps(g, env, demanded, narrowed, i);
    case Shift(op, w, a, s) =>
      ShiftKeeps(g, env, demanded, narrowed, i);
  }

  lemma NothingDemanded(a: int, b: int)
    ensures Wrap(a, 0) == Wrap(b, 0)
  {
  }

  lemma {:induction false} OperandKeeps(g: seq<Node>, env: Env, demanded: map<nat, nat>, narrowed: map<nat,
          nat>, o: nat, d: nat, i: nat)
    requires Valid(g) && Covered(g, demanded, narrowed) && o < i < |g| && HasBits(g, demanded, o, d)
    requires forall o :: o in demanded ==> demanded[o] <= g[o].bits
    ensures Wrap(Eval(g, env, narrowed, o), d) == Wrap(Eval(g, env, map[], o), d)
    decreases o, 2
  {
    hide Wrap;
    if !g[o].Constant? {
      NarrowingKeepsDemanded(g, env, demanded, narrowed, o);
      LowBitsOf(Eval(g, env, narrowed, o), Eval(g, env, map[], o), demanded[o], d);
    }
  }

  lemma {:induction false} ArithKeeps(g: seq<Node>, env: Env, demanded: map<nat, nat>, narrowed: map<nat, nat>, i: nat)
    requires Valid(g) && Covered(g, demanded, narrowed) && i in demanded && demanded[i] <= g[i].bits && g[i].Arith?
    requires forall o :: o in demanded ==> demanded[o] <= g[o].bits
    ensures Wrap(Eval(g, env, narrowed, i), demanded[i]) == Wrap(Eval(g, env, map[], i), demanded[i])
    decreases i, 0
  {
    hide Wrap, Pow2, Untouched, EvalArith, EvalShift;
    assert ValidNode(g, i) && CoveredAt(g, demanded, narrowed, i);
    var k, l, r := demanded[i], g[i].lhs, g[i].rhs;
    assert Operands(g[i])[0] == l && Operands(g[i])[1] == r;
    var a, b := Eval(g, env, map[], l), Eval(g, env, map[], r);
    var a', b' := Eval(g, env, narrowed, l), Eval(g, env, narrowed, r);
    if k == 0 {
      NothingDemanded(Eval(g, env, narrowed, i), Eval(g, env, map[], i));
    } else {
      OperandKeeps(g, env, demanded, narrowed, l, k, i);
      OperandKeeps(g, env, demanded, narrowed, r, k, i);
      ArithDemand(g[i].op, g[i].bits, a', b', a, b, k);
    }
  }

  lemma {:induction false} ShiftKeeps(g: seq<Node>, env: Env, demanded: map<nat, nat>, narrowed: map<nat, nat>, i: nat)
    requires Valid(g) && Covered(g, demanded, narrowed) && i in demanded && demanded[i] <= g[i].bits && g[i].Shift?
    requires forall o :: o in demanded ==> demanded[o] <= g[o].bits
    ensures Wrap(Eval(g, env, narrowed, i), demanded[i]) == Wrap(Eval(g, env, map[], i), demanded[i])
    decreases i, 0
  {
    hide Wrap, Pow2, Untouched, EvalArith, EvalShift;
    assert ValidNode(g, i) && CoveredAt(g, demanded, narrowed, i);
    var k, o := demanded[i], g[i].arg;
    assert Operands(g[i])[0] == o;
    var a, a' := Eval(g, env, map[], o), Eval(g, env, narrowed, o);
    var d := Demand(g, i, k, 0);
    if k == 0 {
      NothingDemanded(Eval(g, env, narrowed, i), Eval(g, env, map[], i));
    } else {
      if d == 0 {
        NothingDemanded(a', a);
      } else {
        OperandKeeps(g, env, demanded, narrowed, o, d, i);
      }
      ShiftDemand(g[i].shiftOp, g[i].bits, a', a, g[i].amount, k);
    }
  }

  // ----- the search ---------------------------------------------------------------------

  /** What a newly reached node adds to the worklist. */
  function Pushed(g: seq<Node>, i: nat, needed: nat): seq<(nat, nat)>
    requires i < |g|
  {
    match g[i]
    case Arith(_, _, l, r) => [(l, Demand(g, i, needed, 0)), (r, Demand(g, i, needed, 1))]
    case Shift(_, _, a, _) => [(a, Demand(g, i, needed, 0))]
    case _ => []
  }

  ghost function Unreached(g: seq<Node>, demanded: map<nat, nat>): set<nat> {
    set i: nat | i < |g| && i !in demanded
  }

  lemma ReachingShrinks(g: seq<Node>, demanded: map<nat, nat>, i: nat, d: nat)
    requires i < |g| && i !in demanded
    ensures |Unreached(g, demanded[i := d])| < |Unreached(g, demanded)|
  {
    assert Unreached(g, demanded) == Unreached(g, demanded[i := d]) + {i};
  }

  predicate InGraph(g: seq<Node>, worklist: seq<(nat, nat)>) {
    forall k :: 0 <= k < |worklist| ==> worklist[k].0 < |g|
  }

  /** Depth first, last pushed first; the first demand that reaches a node stays. */
  ghost function Search(g: seq<Node>, worklist: seq<(nat, nat)>, demanded: map<nat, nat>): map<nat, nat>
    requires Valid(g) && InGraph(g, worklist)
    decreases |Unreached(g, demanded)|, |worklist|
  {
    if worklist == [] then demanded
    else
      var (i, needed) := worklist[|worklist| - 1];
      var rest := worklist[..|worklist| - 1];
      if g[i].Constant? || needed == 0 || i in demanded then Search(g, rest, demanded)
      else
        ReachingShrinks(g, demanded, i, Least(needed, g[i].bits));
        assert ValidNode(g, i);
        Search(g, rest + Pushed(g, i, needed), demanded[i := Least(needed, g[i].bits)])
  }

  /** collectNarrowableReads: which bits of which node are demanded, and the reads
      that are wider than the demand on them. */
  method CollectNarrowableReads(g: seq<Node>, root: nat, neededWidth: nat)
    returns (demanded: map<nat, nat>, targets: seq<(nat, nat)>)
    requires Valid(g) && root < |g|
    ensures demanded == Search(g, [(root, neededWidth)], map[])
    ensures forall i, d :: (i, d) in targets <==> i in demanded && i < |g| && g[i].Read? && d == demanded[i] < g[i].bits
  {
    hide Valid, Demand;
    demanded, targets := map[], [];
    var worklist := [(root, neededWidth)];
    while worklist != []
      invariant InGraph(g, worklist)
      invariant Search(g, worklist, demanded) == Search(g, [(root, neededWidth)], map[])
      invariant forall i, d :: (i, d) in targets <==>
                  i in demanded && i < |g| && g[i].Read? && d == demanded[i] < g[i].bits
      decreases |Unreached(g, demanded)|, |worklist|
    {
      var (value, needed) := worklist[|worklist| - 1];
      assert value < |g|;
      worklist := worklist[..|worklist| - 1];
      if g[value].Constant? || needed == 0 || value in demanded {
        continue;
      }
      ReachingShrinks(g, demanded, value, Least(needed, g[value].bits));
      PushedInGraph(g, value, needed);
      demanded := demanded[value := Least(needed, g[value].bits)];
      if g[value].Read? && needed < g[value].bits {
        targets := targets + [(value, needed)];
      }
      worklist := worklist + Pushed(g, value, needed);
    }
  }

  lemma PushedInGraph(g: seq<Node>, i: nat, needed: nat)
    requires Valid(g) && i < |g|
    ensures InGraph(g, Pushed(g, i, needed))
  {
    assert ValidNode(g, i);
  }

  // ----- what the search finds ---------------------------------------------------------------

  /** Slot k of node i uses node o. */
  predicate Uses(g: seq<Node>, i: nat, k: nat, o: nat) {
    i < |g| && k < |Operands(g[i])| && Operands(g[i])[k] == o
  }

  /** The demand on node o came from the root or from a slot of a reached node. */
  ghost predicate Explained(g: seq<Node>, root: nat, demanded: map<nat, nat>, o: nat, d: nat) {
    o == root || exists i, k :: i in demanded && Uses(g, i, k, o) && d == Demand(g, i, demanded[i], k)
  }

  /** Every demand is explained, and every demanded operand is reached. */
  ghost predicate Collected(g: seq<Node>, root: nat, demanded: map<nat, nat>, worklist: seq<(nat, nat)>)
    requires Valid(g)
  {
    && (forall i :: i in demanded ==> i < |g| && !g[i].Constant? && 0 < demanded[i] <= g[i].bits)
    && (forall i :: i in demanded ==> Explained(g, root, demanded, i, demanded[i]))
    && (forall e :: e in worklist ==> Explained(g, root, demanded, e.0, e.1))
    && (forall i :: i in demanded ==> i < |g| && Served(g, demanded, worklist, i, demanded[i]))
  }

  /** The operands that node i demands bits of are reached or waiting. */
  ghost predicate Served(g: seq<Node>, demanded: map<nat, nat>, worklist: seq<(nat, nat)>, i: nat, d: nat)
    requires i < |g|
  {
    forall k: nat, o: nat :: Uses(g, i, k, o) && 0 < Demand(g, i, d, k) ==>
      o < |g| && (g[o].Constant? || o in demanded || (o, Demand(g, i, d, k)) in worklist)
  }

  lemma DemandFits(g: seq<Node>, i: nat, needed: nat, k: nat, o: nat)
    requires Valid(g) && Uses(g, i, k, o)
    ensures o < i && Demand(g, i, needed, k) <= g[o].bits
  {
    assert ValidNode(g, i);
  }

  lemma PushedIsDemand(g: seq<Node>, i: nat, needed: nat)
    requires i < |g|
    ensures forall e :: e in Pushed(g, i, needed) ==> exists k :: Uses(g, i, k, e.0) && e.1 == Demand(g, i, needed, k)
    ensures forall k: nat, o: nat :: Uses(g, i, k, o) && 0 < Demand(g, i, needed, k) ==>
              (o, Demand(g, i, needed, k)) in Pushed(g, i, needed)
    ensures forall k: nat :: Demand(g, i, Least(needed, g[i].bits), k) == Demand(g, i, needed, k)
  {
    match g[i]
    case Arith(_, _, l, r) =>
      assert Uses(g, i, 0, l) && Uses(g, i, 1, r);
    case Shift(_, _, a, _) =>
      assert Uses(g, i, 0, a);
    case _ =>
  }

  /** Reaching one more node. */
  lemma CollectOne(g: seq<Node>, root: nat, demanded: map<nat, nat>, worklist: seq<(nat, nat)>)
    requires Valid(g) && InGraph(g, worklist) && worklist != [] && Collected(g, root, demanded, worklist)
    ensures var (i, needed), rest := worklist[|worklist| - 1], worklist[..|worklist| - 1];
      if g[i].Constant? || needed == 0 || i in demanded then Collected(g, root, demanded, rest)
      else Collected(g, root, demanded[i := Least(needed, g[i].bits)], rest + Pushed(g, i, needed))
  {
    hide Valid, Demand, Uses, Pushed, Served, Explained;
    var (i, needed) := worklist[|worklist| - 1];
    var rest := worklist[..|worklist| - 1];
    assert worklist == rest + [(i, needed)];
    if g[i].Constant? || needed == 0 || i in demanded {
      forall j | j in demanded
        ensures Served(g, demanded, rest, j, demanded[j])
      {
        ServedSkip(g, demanded, worklist, i, needed, j);
      }
    } else {
      var d := Least(needed, g[i].bits);
      assert Explained(g, root, demanded, i, needed);
      ExplainedFits(g, root, demanded, i, needed);
      NodeIsValid(g, i);
      PushedIsDemand(g, i, needed);
      forall o, e | Explained(g, root, demanded, o, e)
        ensures Explained(g, root, demanded[i := d], o, e)
      {
        ExplainedMore(g, root, demanded, i, d, o, e);
      }
      forall e | e in Pushed(g, i, needed)
        ensures Explained(g, root, demanded[i := d], e.0, e.1)
      {
        var k :| Uses(g, i, k, e.0) && e.1 == Demand(g, i, needed, k);
        ExplainedBySlot(g, root, demanded[i := d], i, k, e.0);
      }
      var more, waiting := demanded[i := d], rest + Pushed(g, i, needed);
      forall j | j in more
        ensures j < |g| && Served(g, more, waiting, j, more[j])
      {
        if j == i {
          ServedByPushing(g, i, needed, more, rest);
        } else {
          ServedStill(g, demanded, worklist, i, needed, d, j);
        }
      }
    }
  }

  lemma ServedByPushing(g: seq<Node>, i: nat, needed: nat, more: map<nat, nat>, rest: seq<(nat, nat)>)
    requires Valid(g) && i < |g|
    ensures Served(g, more, rest + Pushed(g, i, needed), i, Least(needed, g[i].bits))
  {
    hide Valid, Demand, Uses, Pushed;
    PushedIsDemand(g, i, needed);
    forall k: nat, o: nat | Uses(g, i, k, o)
      ensures o < |g|
    {
      DemandFits(g, i, needed, k, o);
      UsesInGraph(g, i, k, o);
    }
  }

  lemma ServedSkip(g: seq<Node>, demanded: map<nat, nat>, worklist: seq<(nat, nat)>, i: nat, needed: nat, j: nat)
    requires worklist != [] && worklist[|worklist| - 1] == (i, needed) && i < |g|
    requires g[i].Constant? || needed == 0 || i in demanded
    requires j < |g| && j in demanded && Served(g, demanded, worklist, j, demanded[j])
    ensures Served(g, demanded, worklist[..|worklist| - 1], j, demanded[j])
  {
    hide Demand, Uses;
    assert worklist == worklist[..|worklist| - 1] + [(i, needed)];
  }

  lemma ExplainedBySlot(g: seq<Node>, root: nat, demanded: map<nat, nat>, i: nat, k: nat, o: nat)
    requires i in demanded && Uses(g, i, k, o)
    ensures i < |g| && Explained(g, root, demanded, o, Demand(g, i, demanded[i], k))
  {
    hide Demand;
  }

  lemma UsesInGraph(g: seq<Node>, i: nat, k: nat, o: nat)
    requires Uses(g, i, k, o)
    ensures i < |g|
  {
  }

  lemma ServedStill(g: seq<Node>, demanded: map<nat, nat>, worklist: seq<(nat, nat)>, i: nat, needed: nat,
          d: nat, j: nat)
    requires worklist != [] && worklist[|worklist| - 1] == (i, needed) && i < |g|
    requires j < |g| && j in demanded && Served(g, demanded, worklist, j, demanded[j])
    ensures Served(g, demanded[i := d], worklist[..|worklist| - 1] + Pushed(g, i, needed), j, demanded[j])
  {
    hide Demand, Uses, Pushed;
    assert worklist == worklist[..|worklist| - 1] + [(i, needed)];
  }

  lemma ExplainedFits(g: seq<Node>, root: nat, demanded: map<nat, nat>, o: nat, d: nat)
    requires Valid(g) && Explained(g, root, demanded, o, d) && o < |g|
    ensures Explained(g, root, demanded, o, Least(d, g[o].bits))
  {
    hide Demand, Valid;
    if o != root {
      var i, k :| i in demanded && Uses(g, i, k, o) && d == Demand(g, i, demanded[i], k);
      DemandFits(g, i, demanded[i], k, o);
    }
  }

  lemma ExplainedMore(g: seq<Node>, root: nat, demanded: map<nat, nat>, i: nat, d: nat, o: nat, e: nat)
    requires Explained(g, root, demanded, o, e) && i !in demanded
    ensures Explained(g, root, demanded[i := d], o, e)
  {
    hide Demand;
    if o != root {
      var j, k :| j in demanded && Uses(g, j, k, o) && e == Demand(g, j, demanded[j], k);
      assert demanded[i := d][j] == demanded[j];
    }
  }

  lemma {:induction false} SearchCollects(g: seq<Node>, root: nat, worklist: seq<(nat, nat)>, demanded: map<nat, nat>)
    requires Valid(g) && InGraph(g, worklist) && Collected(g, root, demanded, worklist)
    ensures Collected(g, root, Search(g, worklist, demanded), [])
    ensures forall i :: i in demanded ==>
              i in Search(g, worklist, demanded) && Search(g, worklist, demanded)[i] == demanded[i]
    decreases |Unreached(g, demanded)|, |worklist|
  {
    hide Collected, Demand, Pushed, Unreached;
    if worklist != [] {
      var (i, needed) := worklist[|worklist| - 1];
      var rest := worklist[..|worklist| - 1];
      CollectOne(g, root, demanded, worklist);
      if g[i].Constant? || needed == 0 || i in demanded {
        SearchCollects(g, root, rest, demanded);
      } else {
        ReachingShrinks(g, demanded, i, Least(needed, g[i].bits));
        PushedInGraph(g, i, needed);
        SearchCollects(g, root, rest + Pushed(g, i, needed), demanded[i := Least(needed, g[i].bits)]);
      }
    }
  }

  // ----- trees ---------------------------------------------------------------------------------

  /** No node but a constant is used twice, and the root is not used at all. */
  ghost predicate IsTree(g: seq<Node>, root: nat) {
    && (forall i: nat, k: nat, j: nat, l: nat, o: nat ::
          Uses(g, i, k, o) && Uses(g, j, l, o) && o < |g| && !g[o].Constant? ==> i == j && k == l)
    && (forall i: nat, k: nat :: !Uses(g, i, k, root))
  }

  /** The replacement narrows reads that were reached, to the demanded width. */
  predicate Narrows(g: seq<Node>, demanded: map<nat, nat>, narrowed: map<nat, nat>) {
    forall i :: i in narrowed ==> i in demanded && i < |g| && g[i].Read? && narrowed[i] == demanded[i]
  }

  /** In a tree nothing below an unreached node has been reached. */
  lemma {:induction false} UnreachedIsUntouched(g: seq<Node>, root: nat, demanded: map<nat, nat>,
          narrowed: map<nat, nat>, i: nat)
    requires Valid(g) && Collected(g, root, demanded, []) && IsTree(g, root) && Narrows(g, demanded, narrowed)
    requires i < |g| && (i !in demanded || g[i].Boundary?)
    ensures Untouched(g, narrowed, i)
    decreases i, 1
  {
    hide Demand, Collected, IsTree, Valid;
    assert ValidNode(g, i) by { NodeIsValid(g, i); }
    forall k: nat, o: nat | Uses(g, i, k, o)
      ensures o < i && o !in demanded
    {
      OperandsBefore(g, i);
      OperandUnreached(g, root, demanded, i, k, o);
    }
    match g[i]
    case Read(_) =>
    case Constant(_, _) =>
    case Boundary(_, _, args) =>
      assert forall k :: 0 <= k < |args| ==> Uses(g, i, k, args[k]);
      ArgsUntouched(g, root, demanded, narrowed, args, i);
    case Arith(_, _, l, r) =>
      assert Uses(g, i, 0, l) && Uses(g, i, 1, r);
      UnreachedIsUntouched(g, root, demanded, narrowed, l);
      UnreachedIsUntouched(g, root, demanded, narrowed, r);
    case Shift(_, _, a, _) =>
      assert Uses(g, i, 0, a);
      UnreachedIsUntouched(g, root, demanded, narrowed, a);
  }

  lemma NodeIsValid(g: seq<Node>, i: nat)
    requires Valid(g) && i < |g|
    ensures ValidNode(g, i)
  {
  }

  lemma OperandUnreached(g: seq<Node>, root: nat, demanded: map<nat, nat>, i: nat, k: nat, o: nat)
    requires Valid(g) && Collected(g, root, demanded, []) && IsTree(g, root)
    requires i < |g| && (i !in demanded || g[i].Boundary?) && Uses(g, i, k, o)
    ensures o !in demanded
  {
    hide Valid;
    if o in demanded {
      var j, l := UserOf(g, root, demanded, o);
    }
  }

  /** In a tree, the slot that demands a reached node. */
  lemma UserOf(g: seq<Node>, root: nat, demanded: map<nat, nat>, o: nat) returns (j: nat, l: nat)
    requires Valid(g) && Collected(g, root, demanded, []) && o in demanded && o != root
    ensures j in demanded && Uses(g, j, l, o) && o < |g| && !g[o].Constant?
    ensures 0 < demanded[o] == Demand(g, j, demanded[j], l)
  {
    hide Valid, Demand, Served;
    assert Explained(g, root, demanded, o, demanded[o]);
    j, l :| j in demanded && Uses(g, j, l, o) && demanded[o] == Demand(g, j, demanded[j], l);
  }

  lemma {:induction false} ArgsUntouched(g: seq<Node>, root: nat, demanded: map<nat, nat>, narrowed: map<nat,
          nat>, args: seq<nat>, i: nat)
    requires Valid(g) && Collected(g, root, demanded, []) && IsTree(g, root) && Narrows(g, demanded, narrowed)
    requires i < |g| && forall k :: 0 <= k < |args| ==> args[k] < i && args[k] !in demanded
    ensures AllUntouched(g, narrowed, args, i)
    decreases i, 0, |args|
  {
    hide Demand, Collected, IsTree, Valid;
    if args != [] {
      UnreachedIsUntouched(g, root, demanded, narrowed, args[0]);
      ArgsUntouched(g, root, demanded, narrowed, args[1..], i);
    }
  }

  lemma TreeSlot(g: seq<Node>, root: nat, demanded: map<nat, nat>, i: nat, k: nat)
    requires Valid(g) && Collected(g, root, demanded, []) && IsTree(g, root)
    requires i in demanded && i < |g| && k < |Operands(g[i])| && 0 < Demand(g, i, demanded[i], k)
    ensures Operands(g[i])[k] < |g|
    ensures HasBits(g, demanded, Operands(g[i])[k], Demand(g, i, demanded[i], k))
  {
    hide Valid, Demand;
    var o := Operands(g[i])[k];
    assert Uses(g, i, k, o);
    assert Served(g, demanded, [], i, demanded[i]);
    if !g[o].Constant? {
      var j, l := UserOf(g, root, demanded, o);
      assert i == j && k == l;
    }
  }

  lemma ReachedInGraph(g: seq<Node>, root: nat, demanded: map<nat, nat>, i: nat)
    requires Valid(g) && Collected(g, root, demanded, []) && i in demanded
    ensures i < |g|
  {
  }

  lemma TreeIsCovered(g: seq<Node>, root: nat, demanded: map<nat, nat>, narrowed: map<nat, nat>)
    requires Valid(g) && Collected(g, root, demanded, []) && IsTree(g, root) && Narrows(g, demanded, narrowed)
    ensures Covered(g, demanded, narrowed)
  {
    hide Demand, Valid, Untouched, Collected, IsTree;
    forall i | i in demanded
      ensures i < |g| && CoveredAt(g, demanded, narrowed, i)
    {
      ReachedInGraph(g, root, demanded, i);
      NodeIsValid(g, i);
      OperandsBefore(g, i);
      hide ValidNode;
      if g[i].Boundary? { UnreachedIsUntouched(g, root, demanded, narrowed, i); }
      forall k | 0 <= k < |Operands(g[i])| && 0 < Demand(g, i, demanded[i], k)
        ensures HasBits(g, demanded, Operands(g[i])[k], Demand(g, i, demanded[i], k))
      {
        TreeSlot(g, root, demanded, i, k);
      }
    }
  }

  /** On any graph, sharing included: where the collected demands cover the graph,
      narrowing leaves the observed low bits of the root alone. */
  lemma CoveredKeepsRoot(g: seq<Node>, env: Env, root: nat, neededWidth: nat, narrowed: map<nat, nat>)
    requires Valid(g) && root < |g|
    requires Covered(g, Search(g, [(root, neededWidth)], map[]), narrowed)
    ensures Wrap(Eval(g, env, narrowed, root), neededWidth) == Wrap(Eval(g, env, map[], root), neededWidth)
  {
    hide Demand, Valid, Untouched, Wrap, Covered, Eval;
    var demanded := Search(g, [(root, neededWidth)], map[]);
    SearchCollects(g, root, [(root, neededWidth)], map[]);
    RootReached(g, root, neededWidth);
    if neededWidth == 0 {
      NothingDemanded(Eval(g, env, narrowed, root), Eval(g, env, map[], root));
    } else if g[root].Constant? {
      ConstantKeeps(g, env, narrowed, root);
    } else {
      NarrowingKeepsDemanded(g, env, demanded, narrowed, root);
      if g[root].bits < neededWidth {
        WrapSmall(Eval(g, env, narrowed, root), g[root].bits, g[root].bits);
        WrapSmall(Eval(g, env, map[], root), g[root].bits, g[root].bits);
      }
    }
  }

  /** On a tree, narrowing any of the collected reads leaves the observed low
      bits of the root alone, whatever the registers hold. */
  lemma NarrowedTreeKeepsRoot(g: seq<Node>, env: Env, root: nat, neededWidth: nat, narrowed: map<nat, nat>)
    requires Valid(g) && root < |g| && IsTree(g, root)
    requires Narrows(g, Search(g, [(root, neededWidth)], map[]), narrowed)
    ensures Wrap(Eval(g, env, narrowed, root), neededWidth) == Wrap(Eval(g, env, map[], root), neededWidth)
  {
    hide Demand, Valid, Untouched, Wrap, IsTree, Covered, Eval, Search;
    var demanded := Search(g, [(root, neededWidth)], map[]);
    SearchCollects(g, root, [(root, neededWidth)], map[]);
    TreeIsCovered(g, root, demanded, narrowed);
    CoveredKeepsRoot(g, env, root, neededWidth, narrowed);
  }

  lemma ConstantKeeps(g: seq<Node>, env: Env, narrowed: map<nat, nat>, i: nat)
    requires Valid(g) && i < |g| && g[i].Constant?
    ensures Eval(g, env, narrowed, i) == Eval(g, env, map[], i)
  {
  }

  lemma RootReached(g: seq<Node>, root: nat, neededWidth: nat)
    requires Valid(g) && root < |g|
    ensures neededWidth != 0 && !g[root].Constant? ==>
              var demanded := Search(g, [(root, neededWidth)], map[]);
              root in demanded && demanded[root] == Least(neededWidth, g[root].bits)
  {
    hide Demand, Valid;
    if neededWidth != 0 && !g[root].Constant? {
      var first := map[root := Least(neededWidth, g[root].bits)];
      PushedInGraph(g, root, neededWidth);
      assert [(root, neededWidth)][..0] + Pushed(g, root, neededWidth) == Pushed(g, root, neededWidth);
      assert Search(g, [(root, neededWidth)], map[]) == Search(g, Pushed(g, root, neededWidth), first);
      assert Collected(g, root, map[], [(root, neededWidth)]);
      CollectOne(g, root, map[], [(root, neededWidth)]);
      SearchCollects(g, root, Pushed(g, root, neededWidth), first);
    }
  }

  // ----- shared reads ------------------------------------------------------------------------------

  /** A register added to itself shifted right by 8, observed in its low byte. */
  function SharedRead(): (g: seq<Node>)
    ensures Valid(g)
  {
    var g := [Read(32), Shift(LShr, 32, 0, 8), Arith(Add, 32, 1, 0)];
    assert forall i :: 0 <= i < 3 ==> ValidNode(g, i);
    g
  }

  /** The first demand that reaches the read is 8 bits; the shift would need 16. */
  lemma SharedReadSearch()
    ensures Search(SharedRead(), [(2, 8)], map[]) == map[2 := 8, 0 := 8, 1 := 8]
  {
    var g := SharedRead();
    SearchStep(g, [], 2, 8, map[], [(1, 8), (0, 8)]);
    SearchStep(g, [(1, 8)], 0, 8, map[2 := 8], [(1, 8)]);
    SearchStep(g, [], 1, 8, map[2 := 8, 0 := 8], [(0, 16)]);
    SearchSkip(g, 0, 16, map[2 := 8, 0 := 8, 1 := 8]);
    assert map[2 := 8][0 := 8] == map[2 := 8, 0 := 8] && map[2 := 8, 0 := 8][1 := 8] == map[2 := 8, 0 := 8, 1 := 8];
  }

  lemma SearchStep(g: seq<Node>, rest: seq<(nat, nat)>, i: nat, needed: nat, demanded: map<nat, nat>,
          next: seq<(nat, nat)>)
    requires Valid(g) && InGraph(g, rest) && i < |g| && !g[i].Constant? && needed != 0 && i !in demanded
    requires next == rest + Pushed(g, i, needed)
    ensures InGraph(g, next)
    ensures Search(g, rest + [(i, needed)], demanded) == Search(g, next, demanded[i := Least(needed, g[i].bits)])
  {
    hide Valid, Pushed;
    PushedInGraph(g, i, needed);
    assert (rest + [(i, needed)])[..|rest|] == rest;
  }

  lemma SearchSkip(g: seq<Node>, i: nat, needed: nat, demanded: map<nat, nat>)
    requires Valid(g) && i < |g| && i in demanded
    ensures Search(g, [(i, needed)], demanded) == demanded
  {
    hide Valid;
    assert [(i, needed)][..0] == [];
    assert Search(g, [], demanded) == demanded;
  }

  /** So on a shared read the search is wrong: with 0x100 in the register, the
      observed byte is 1 before narrowing and 0 after. */
  lemma SharedReadBreaks(env: Env)
    requires env.registers(0) == 0x100
    ensures Narrows(SharedRead(), Search(SharedRead(), [(2, 8)], map[]), map[0 := 8])
    ensures Wrap(Eval(SharedRead(), env, map[], 2), 8) == 1
    ensures Wrap(Eval(SharedRead(), env, map[0 := 8], 2), 8) == 0
  {
    SharedReadSearch();
    Pow2Values();
    hide Pow2, Search;
    var g := SharedRead();
    assert Eval(g, env, map[], 0) == 0x100 && Eval(g, env, map[0 := 8], 0) == 0;
    assert Eval(g, env, map[], 1) == 1 && Eval(g, env, map[0 := 8], 1) == 0;
    assert Eval(g, env, map[], 2) == 0x101 && Eval(g, env, map[0 := 8], 2) == 0;
  }

  // ----- boundaries --------------------------------------------------------------------------------

  /** A register plus its third, observed in its low byte: the division is a
      boundary, reached by the search but not looked through. */
  function DividedRead(): (g: seq<Node>)
    ensures Valid(g)
  {
    var g := [Read(32), Boundary(32, 0, [0]), Arith(Add, 32, 1, 0)];
    assert forall i :: 0 <= i < 3 ==> ValidNode(g, i);
    g
  }

  lemma DividedReadSearch()
    ensures Search(DividedRead(), [(2, 8)], map[]) == map[2 := 8, 0 := 8, 1 := 8]
  {
    var g := DividedRead();
    SearchStep(g, [], 2, 8, map[], [(1, 8), (0, 8)]);
    SearchStep(g, [(1, 8)], 0, 8, map[2 := 8], [(1, 8)]);
    SearchStep(g, [], 1, 8, map[2 := 8, 0 := 8], []);
    assert map[2 := 8][0 := 8] == map[2 := 8, 0 := 8] && map[2 := 8, 0 := 8][1 := 8] == map[2 := 8, 0 := 8, 1 := 8];
    assert Search(g, [], map[2 := 8, 0 := 8, 1 := 8]) == map[2 := 8, 0 := 8, 1 := 8];
  }

  /** Both users of the read were reached, so it is narrowed, although the division
      needs all of it: with 0x102 in the register the observed byte changes. */
  lemma BoundaryReadBreaks(env: Env)
    requires env.registers(0) == 0x102 && forall a: nat :: env.boundary(0, [a]) == a / 3
    ensures Narrows(DividedRead(), Search(DividedRead(), [(2, 8)], map[]), map[0 := 8])
    ensures Wrap(Eval(DividedRead(), env, map[], 2), 8) == 0x58
    ensures Wrap(Eval(DividedRead(), env, map[0 := 8], 2), 8) == 2
  {
    DividedReadSearch();
    Pow2Values();
    hide Pow2, Search;
    var g := DividedRead();
    assert Eval(g, env, map[], 0) == 0x102 && Eval(g, env, map[0 := 8], 0) == 2;
    assert EvalAll(g, env, map[], [0], 1) == [0x102] && EvalAll(g, env, map[0 := 8], [0], 1) == [2];
    assert Eval(g, env, map[], 1) == 0x56 && Eval(g, env, map[0 := 8], 1) == 0;
    assert Eval(g, env, map[], 2) == 0x158 && Eval(g, env, map[0 := 8], 2) == 2;
  }
}
