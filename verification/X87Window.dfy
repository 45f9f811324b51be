/** The x87 register stack as two window registers and a library stack.

    The lowering emits code that keeps ST0 and ST1 in two globals and everything
    deeper in a run-time library.  With a proved stack depth it leaves out the
    moves of slots that do not exist.  The class below is the machine that the
    emitted code drives; its ghost field is the stack the program means. */
module X87Window {
  import opened Wrappers
  import opened X87Depth

  // ----- values and operations ------------------------------------------------

  /** Arithmetic is uninterpreted: a value is the term that computed it. */
  datatype Value =
    | Literal(n: nat)
    | Binary(f: nat, lhs: Value, rhs: Value)
    | Monadic(f: nat, arg: Value)
    | Undefined

  datatype Observation = Stored(v: Value) | Compared(st0: Value, slot: Value)

  datatype Op =
    | PushValue(v: Value)
    | PushSlot(slot: nat)
    | PopStore
    | PopSlot(slot: nat)
    | StoreSlot(slot: nat)
    | PopArith(f: nat, st0First: bool)
    | PopArithSlot(slot: nat, f: nat, st0First: bool)
    | RegArith(slot: nat, f: nat, st0First: bool)
    | MemArith(v: Value, f: nat, st0First: bool)
    | Unary(f: nat)
    | Compare(slot: nat, pops: bool)
    | Fxch(slot: nat)
    | Library

  const REGISTERS := 8

  // ----- the stack a program means ----------------------------------------------

  /** The operands of op are occupied registers, and a push has room. */
  predicate Live(op: Op, depth: nat) {
    match op
    case PushValue(_) => depth < REGISTERS
    case PushSlot(i) => i < depth < REGISTERS
    case PopStore => 1 <= depth
    case PopSlot(i) => i < depth
    case StoreSlot(i) => i < depth
    case PopArith(_, _) => 2 <= depth
    case PopArithSlot(i, _, _) => 2 <= i < depth
    case RegArith(i, _, _) => i < depth
    case MemArith(_, _, _) => 1 <= depth
    case Unary(_) => 1 <= depth
    case Compare(i, _) => i < depth
    case Fxch(i) => i < depth
    case Library => false
  }

  function Step(op: Op, s: seq<Value>): seq<Value>
    requires Live(op, |s|)
  {
    match op
    case PushValue(v) => [v] + s
    case PushSlot(i) => [s[i]] + s
    case PopStore => s[1..]
    case PopSlot(i) => s[i := s[0]][1..]
    case StoreSlot(i) => s[i := s[0]]
    case PopArith(f, first) => s[1 := if first then Binary(f, s[0], s[1]) else Binary(f, s[1], s[0])][1..]
    case PopArithSlot(i, f, first) => s[i := if first then Binary(f, s[0], s[i]) else Binary(f, s[i], s[0])][1..]
    case RegArith(i, f, first) => s[0 := if first then Binary(f, s[0], s[i]) else Binary(f, s[i], s[0])]
    case MemArith(v, f, first) => s[0 := if first then Binary(f, s[0], v) else Binary(f, v, s[0])]
    case Unary(f) => s[0 := Monadic(f, s[0])]
    case Compare(_, pops) => if pops then s[1..] else s
    case Fxch(i) => s[0 := s[i]][i := s[0]]
  }

  /** Every operation, slot by slot: where the value in slot k comes from, and which
      operand of an arithmetic operation is the left one. */
  lemma StepSlots(op: Op, s: seq<Value>, k: nat)
    requires Live(op, |s|) && k < |Step(op, s)|
    ensures var t := Step(op, s)[k];
      match op
      case PushValue(v) => t == if k == 0 then v else s[k - 1]
      case PushSlot(i) => t == if k == 0 then s[i] else s[k - 1]
      case PopStore => t == s[k + 1]
      case PopSlot(i) => t == if k + 1 == i then s[0] else s[k + 1]
      case StoreSlot(i) => t == if k == i then s[0] else s[k]
      case PopArith(f, true) => t == if k == 0 then Binary(f, s[0], s[1]) else s[k + 1]
      case PopArith(f, false) => t == if k == 0 then Binary(f, s[1], s[0]) else s[k + 1]
      case PopArithSlot(i, f, true) => t == if k + 1 == i then Binary(f, s[0], s[i]) else s[k + 1]
      case PopArithSlot(i, f, false) => t == if k + 1 == i then Binary(f, s[i], s[0]) else s[k + 1]
      case RegArith(i, f, true) => t == if k == 0 then Binary(f, s[0], s[i]) else s[k]
      case RegArith(i, f, false) => t == if k == 0 then Binary(f, s[i], s[0]) else s[k]
      case MemArith(v, f, true) => t == if k == 0 then Binary(f, s[0], v) else s[k]
      case MemArith(v, f, false) => t == if k == 0 then Binary(f, v, s[0]) else s[k]
      case Unary(f) => t == if k == 0 then Monadic(f, s[0]) else s[k]
      case Compare(_, pops) => t == if pops then s[k + 1] else s[k]
      case Fxch(i) => t == if k == 0 then s[i] else if k == i then s[0] else s[k]
  {
  }

  function Observe(op: Op, s: seq<Value>): seq<Observation>
    requires Live(op, |s|)
  {
    match op
    case PopStore => [Stored(s[0])]
    case Compare(i, _) => [Compared(s[0], s[i])]
    case _ => []
  }

  /** What leaves the stack: the value a store pops, and both sides of a comparison. */
  lemma ObservedSlots(op: Op, s: seq<Value>)
    requires Live(op, |s|)
    ensures op.PopStore? ==> Observe(op, s) == [Stored(s[0])]
    ensures op.Compare? ==> Observe(op, s) == [Compared(s[0], s[op.slot])]
    ensures !op.PopStore? && !op.Compare? ==> Observe(op, s) == []
  {
  }

  predicate NamesSlot(op: Op) {
    op.PushSlot? || op.PopSlot? || op.StoreSlot? || op.PopArithSlot? || op.RegArith? || op.Compare? || op.Fxch?
  }

  /** ST(i) is an operand of op. */
  predicate Uses(op: Op, i: nat) {
    || (i == 0 && !op.PushValue? && !op.PushSlot?)
    || (i == 1 && op.PopArith?)
    || (NamesSlot(op) && i == op.slot)
  }

  /** An operation is excluded only when one of its operands is an empty register, a
      push finds no room, the slot form of a popping operation names one of the
      window registers, or the library does the work. */
  lemma LiveExactly(op: Op, depth: nat)
    ensures Live(op, depth) <==>
              && !op.Library?
              && (forall i: nat :: Uses(op, i) ==> i < depth)
              && (op.PushValue? || op.PushSlot? ==> depth < REGISTERS)
              && (op.PopArithSlot? ==> 2 <= op.slot)
  {
    if forall i: nat :: Uses(op, i) ==> i < depth {
      assert Uses(op, 0) ==> 0 < depth;
      assert Uses(op, 1) ==> 1 < depth;
      assert NamesSlot(op) && Uses(op, op.slot) ==> op.slot < depth;
    }
  }

  predicate AllLive(ops: seq<Op>, s: seq<Value>)
    decreases |ops|
  {
    ops == [] || (Live(ops[0], |s|) && AllLive(ops[1..], Step(ops[0], s)))
  }

  function Run(ops: seq<Op>, s: seq<Value>): seq<Value>
    requires AllLive(ops, s)
    decreases |ops|
  {
    if ops == [] then s else Run(ops[1..], Step(ops[0], s))
  }

  function Observations(ops: seq<Op>, s: seq<Value>): seq<Observation>
    requires AllLive(ops, s)
    decreases |ops|
  {
    if ops == [] then [] else Observe(ops[0], s) + Observations(ops[1..], Step(ops[0], s))
  }

  // ----- the register file of the processor ----------------------------------------

  /** Eight physical registers, the TOP field and the number of non-empty tags;
      ST(i) is the register i places after TOP, modulo eight. */
  datatype Fpu = Fpu(regs: seq<Value>, top: nat, depth: nat) {
    predicate Valid() {
      |regs| == REGISTERS && top < REGISTERS && depth <= REGISTERS
    }

    function St(i: nat): Value
      requires Valid()
    {
      regs[(top + i) % REGISTERS]
    }

    function Stack(): seq<Value>
      requires Valid()
    {
      seq(depth, i requires 0 <= i => St(i))
    }

    function Write(i: nat, v: Value): Fpu
      requires Valid()
    {
      this.(regs := regs[(top + i) % REGISTERS := v])
    }

    /** The arithmetic unit: the top of the stack with another operand, on the left
        unless the instruction is a reversed one. */
    function Arith(f: nat, topIsLeft: bool, other: Value): Value
      requires Valid()
    {
      var lhs, rhs := if topIsLeft then regs[top] else other, if topIsLeft then other else regs[top];
      Binary(f, lhs, rhs)
    }

    function Push(v: Value): Fpu
      requires Valid() && depth < REGISTERS
    {
      var newTop := (top + 7) % REGISTERS;
      Fpu(regs[newTop := v], newTop, depth + 1)
    }

    function Pop(): Fpu
      requires Valid() && 1 <= depth
    {
      Fpu(regs, (top + 1) % REGISTERS, depth - 1)
    }
  }

  function FpuStep(op: Op, m: Fpu): Fpu
    requires m.Valid() && Live(op, m.depth)
  {
    match op
    case PushValue(v) => m.Push(v)
    case PushSlot(i) => m.Push(m.St(i))
    case PopStore => m.Pop()
    case PopSlot(i) => m.Write(i, m.St(0)).Pop()
    case StoreSlot(i) => m.Write(i, m.St(0))
    case PopArith(f, first) => m.Write(1, m.Arith(f, first, m.St(1))).Pop()
    case PopArithSlot(i, f, first) => m.Write(i, m.Arith(f, first, m.St(i))).Pop()
    case RegArith(i, f, first) => m.Write(0, m.Arith(f, first, m.St(i)))
    case MemArith(v, f, first) => m.Write(0, m.Arith(f, first, v))
    case Unary(f) => m.Write(0, Monadic(f, m.St(0)))
    case Compare(_, pops) => if pops then m.Pop() else m
    case Fxch(i) => m.Write(0, m.St(i)).Write(i, m.St(0))
  }

  /** Adding to TOP modulo eight, without the modulus. */
  lemma RegisterIndex(top: nat, i: nat)
    requires top < REGISTERS && i < REGISTERS
    ensures (top + i) % REGISTERS == if top + i < REGISTERS then top + i else top + i - REGISTERS
  {
  }

  lemma FpuWrite(m: Fpu, i: nat, v: Value)
    requires m.Valid() && i < m.depth
    ensures m.Write(i, v).Valid() && m.Write(i, v).Stack() == m.Stack()[i := v]
    ensures m.Write(i, v).depth == m.depth
  {
    var w := m.Write(i, v);
    RegisterIndex(m.top, i);
    forall k: nat | k < m.depth
      ensures w.Stack()[k] == m.Stack()[i := v][k]
    {
      RegisterIndex(m.top, k);
    }
  }

  lemma FpuPush(m: Fpu, v: Value)
    requires m.Valid() && m.depth < REGISTERS
    ensures m.Push(v).Valid() && m.Push(v).Stack() == [v] + m.Stack()
  {
    var p := m.Push(v);
    RegisterIndex(m.top, 7);
    forall k: nat | k < p.depth
      ensures p.Stack()[k] == ([v] + m.Stack())[k]
    {
      RegisterIndex(p.top, k);
      if 0 < k { RegisterIndex(m.top, k - 1); }
    }
  }

  lemma FpuPop(m: Fpu)
    requires m.Valid() && 1 <= m.depth
    ensures m.Pop().Valid() && m.Pop().Stack() == m.Stack()[1..]
  {
    var p := m.Pop();
    RegisterIndex(m.top, 1);
    forall k: nat | k < p.depth
      ensures p.Stack()[k] == m.Stack()[1..][k]
    {
      RegisterIndex(p.top, k);
      RegisterIndex(m.top, k + 1);
    }
  }

  lemma FpuReads(m: Fpu, i: nat)
    requires m.Valid() && i < m.depth
    ensures m.St(i) == m.Stack()[i]
    ensures forall f: nat, v ::
              && m.Arith(f, true, v) == Binary(f, m.Stack()[0], v)
              && m.Arith(f, false, v) == Binary(f, v, m.Stack()[0])
  {
    RegisterIndex(m.top, 0);
    assert m.Stack()[0] == m.St(0) == m.regs[m.top];
  }

  lemma FpuDepth(m: Fpu)
    requires m.Valid()
    ensures |m.Stack()| == m.depth
  {
  }

  /** Renaming registers through TOP is the stack operation. */
  lemma FpuRefinesStack(op: Op, m: Fpu)
    requires m.Valid() && Live(op, m.depth)
    ensures FpuStep(op, m).Valid()
    ensures FpuStep(op, m).Stack() == Step(op, m.Stack())
  {
    hide Fpu.Write, Fpu.Push, Fpu.Pop, Fpu.Stack, Fpu.St, Fpu.Arith, Fpu.Valid;
    assert |m.Stack()| == m.depth by { FpuDepth(m); }
    if 0 < m.depth { FpuReads(m, 0); }
    if 1 < m.depth { FpuReads(m, 1); }
    if NamesSlot(op) { FpuReads(m, op.slot); }
    match op
    case PushValue(v) => FpuPush(m, v);
    case PushSlot(i) => FpuPush(m, m.St(i));
    case PopStore => FpuPop(m);
    case PopSlot(i) => FpuWriteAndPop(m, i, m.St(0));
    case StoreSlot(i) => FpuWrite(m, i, m.St(0));
    case PopArith(f, first) => FpuWriteAndPop(m, 1, m.Arith(f, first, m.St(1)));
    case PopArithSlot(i, f, first) => FpuWriteAndPop(m, i, m.Arith(f, first, m.St(i)));
    case RegArith(i, f, first) => FpuWrite(m, 0, m.Arith(f, first, m.St(i)));
    case MemArith(v, f, first) => FpuWrite(m, 0, m.Arith(f, first, v));
    case Unary(f) => FpuWrite(m, 0, Monadic(f, m.St(0)));
    case Compare(_, pops) => if pops { FpuPop(m); }
    case Fxch(i) =>
      FpuWrite(m, 0, m.St(i));
      FpuWrite(m.Write(0, m.St(i)), i, m.St(0));
  }

  lemma FpuWriteAndPop(m: Fpu, i: nat, v: Value)
    requires m.Valid() && i < m.depth
    ensures m.Write(i, v).Pop().Valid() && m.Write(i, v).Pop().Stack() == m.Stack()[i := v][1..]
  {
    FpuWrite(m, i, v);
    FpuPop(m.Write(i, v));
  }

  function FpuRun(ops: seq<Op>, m: Fpu): Fpu
    requires m.Valid() && AllLive(ops, m.Stack())
    decreases |ops|
  {
    if ops == [] then m
    else
      FpuRefinesStack(ops[0], m);
      FpuRun(ops[1..], FpuStep(ops[0], m))
  }

  /** Any run over the physical registers is the run over the stack. */
  lemma {:induction false} FpuRunRefinesStack(ops: seq<Op>, m: Fpu)
    requires m.Valid() && AllLive(ops, m.Stack())
    ensures FpuRun(ops, m).Valid() && FpuRun(ops, m).Stack() == Run(ops, m.Stack())
    decreases |ops|
  {
    if ops != [] {
      FpuRefinesStack(ops[0], m);
      FpuRunRefinesStack(ops[1..], FpuStep(ops[0], m));
    }
  }

  // ----- the depth change of a block -----------------------------------------------

  function OpDelta(op: Op): Option<int> {
    match op
    case PushValue(_) => Some(1)
    case PushSlot(_) => Some(1)
    case PopStore => Some(-1)
    case PopSlot(_) => Some(-1)
    case PopArith(_, _) => Some(-1)
    case PopArithSlot(_, _, _) => Some(-1)
    case Library => None
    case Compare(_, pops) => Some(if pops then -1 else 0)
    case _ => Some(0)
  }

  /** How far a run moves the depth, or None when a library operation is met. */
  function Delta(ops: seq<Op>): Option<int> {
    if ops == [] then Some(0)
    else
      var before := Delta(ops[..|ops| - 1]);
      var last := OpDelta(ops[|ops| - 1]);
      if before.Some? && last.Some? then Some(before.value + last.value) else None
  }

  lemma OpDeltaOfStep(op: Op, s: seq<Value>)
    requires Live(op, |s|)
    ensures OpDelta(op) == Some(|Step(op, s)| - |s|)
  {
  }

  lemma {:induction false} DeltaOfRun(ops: seq<Op>, s: seq<Value>)
    requires AllLive(ops, s)
    ensures Delta(ops) == Some(|Run(ops, s)| - |s|)
    decreases |ops|
  {
    hide Live, Step, OpDelta;
    if ops != [] {
      OpDeltaOfStep(ops[0], s);
      DeltaOfRun(ops[1..], Step(ops[0], s));
      DeltaFromFront(ops);
    }
  }

  lemma {:induction false} DeltaFromFront(ops: seq<Op>)
    requires ops != []
    ensures var first, rest := OpDelta(ops[0]), Delta(ops[1..]);
      Delta(ops) == if first.Some? && rest.Some? then Some(first.value + rest.value) else None
    decreases |ops|
  {
    if |ops| > 1 {
      var init := ops[..|ops| - 1];
      DeltaFromFront(init);
      assert init[1..] == ops[1..][..|ops| - 2];
    } else {
      assert ops[1..] == [] && ops[..0] == [];
    }
  }

  /** x87BlockDepthDelta */
  method BlockDepthDelta(ops: seq<Op>) returns (delta: Option<int>)
    ensures delta == Delta(ops)
  {
    var sum: int := 0;
    for k := 0 to |ops|
      invariant Delta(ops[..k]) == Some(sum)
      invariant Library !in ops[..k]
    {
      assert ops[..k + 1][..k] == ops[..k];
      match ops[k]
      case PushValue(_) => sum := sum + 1;
      case PushSlot(_) => sum := sum + 1;
      case PopStore => sum := sum - 1;
      case PopSlot(_) => sum := sum - 1;
      case PopArith(_, _) => sum := sum - 1;
      case PopArithSlot(_, _, _) => sum := sum - 1;
      case Library =>
        LibraryHasNoDelta(ops, k);
        return None;
      case Compare(_, pops) =>
        if pops { sum := sum - 1; }
      case _ =>
    }
    assert ops[..|ops|] == ops;
    delta := Some(sum);
  }

  lemma {:induction false} LibraryHasNoDelta(ops: seq<Op>, k: nat)
    requires k < |ops| && ops[k] == Library
    ensures Delta(ops).None?
    decreases |ops|
  {
    if k < |ops| - 1 { LibraryHasNoDelta(ops[..|ops| - 1], k); }
  }

  // ----- runs in pieces --------------------------------------------------------------

  lemma EmptyRun(s: seq<Value>)
    ensures AllLive([], s) && Run([], s) == s && Observations([], s) == []
  {
  }

  lemma RunOneStep(ops: seq<Op>, k: nat, s: seq<Value>)
    requires k < |ops| && AllLive(ops[k..], s)
    ensures Live(ops[k], |s|) && AllLive(ops[k + 1..], Step(ops[k], s))
    ensures Run(ops[k..], s) == Run(ops[k + 1..], Step(ops[k], s))
    ensures Observations(ops[k..], s) == Observe(ops[k], s) + Observations(ops[k + 1..], Step(ops[k], s))
  {
    hide Step, Live, Observe;
    assert ops[k..][0] == ops[k] && ops[k..][1..] == ops[k + 1..];
  }

  lemma {:induction false} RunInPieces(a: seq<Op>, b: seq<Op>, s: seq<Value>)
    ensures AllLive(a + b, s) <==> AllLive(a, s) && AllLive(b, Run(a, s))
    ensures AllLive(a + b, s) ==>
              && Run(a + b, s) == Run(b, Run(a, s))
              && Observations(a + b, s) == Observations(a, s) + Observations(b, Run(a, s))
    decreases |a|
  {
    if a == [] {
      assert a + b == b;
    } else {
      assert (a + b)[1..] == a[1..] + b;
      if Live(a[0], |s|) {
        RunInPieces(a[1..], b, Step(a[0], s));
      }
    }
  }

  // ----- the window and the library ----------------------------------------------------

  /** The unsigned depth counter of the lowering wraps below zero. */
  function Decrement(depth: nat): nat {
    if depth == 0 then 0xffff_ffff else depth - 1
  }

  class X87Window {
    var st0: Value
    var st1: Value
    var library: seq<Value>    // top first: ST2, ST3, ...
    var depth: Option<nat>     // the proved depth, if the precise mode is on
    var out: seq<Observation>

    ghost var stack: seq<Value>

    /** The live slots are where the stack says.  In the precise mode the library
        holds them and nothing else; otherwise it may hold more below. */
    ghost predicate Valid()
      reads this
    {
      && |stack| <= REGISTERS
      && (1 <= |stack| ==> st0 == stack[0])
      && (2 <= |stack| ==> st1 == stack[1])
      && (2 <= |stack| ==> stack[2..] <= library)
      && (depth.Some? ==> depth.value == |stack|)
      && (depth.Some? ==> |library| == if |stack| <= 2 then 0 else |stack| - 2)
    }

    /** The precise mode starts on an empty register stack. */
    constructor Precise()
      ensures Valid() && stack == [] && depth == Some(0) && out == [] && library == []
    {
      st0, st1, library, depth, out, stack := Undefined, Undefined, [], Some(0), [], [];
    }

    /** The fallback mode makes no assumption about what the slots hold. */
    constructor Fallback(a: Value, b: Value, rest: seq<Value>)
      ensures Valid() && stack == [] && depth == None && out == []
    {
      st0, st1, library, depth, out, stack := a, b, rest, None, [], [];
    }

    function Slot(i: nat): Value
      reads this
    {
      if i == 0 then st0 else if i == 1 then st1 else Peek(i)
    }

    function Peek(i: nat): Value
      requires 2 <= i
      reads this
    {
      if i - 2 < |library| then library[i - 2] else Undefined
    }

    lemma SlotIsStack(i: nat)
      requires Valid() && i < |stack|
      ensures Slot(i) == stack[i]
    {
      if 2 <= i { assert stack[2..][i - 2] == stack[i]; }
    }

    method LibraryPush(v: Value)
      modifies this`library
      ensures library == [v] + old(library)
    {
      library := [v] + library;
    }

    method LibraryPop() returns (v: Value)
      modifies this`library
      ensures if old(library) == [] then v == Undefined && library == []
              else v == old(library)[0] && library == old(library)[1..]
    {
      if library == [] {
        v := Undefined;
      } else {
        v := library[0];
        library := library[1..];
      }
    }

    method Poke(i: nat, v: Value)
      requires 2 <= i
      modifies this`library
      ensures library == if i - 2 < |old(library)| then old(library)[i - 2 := v] else old(library)
    {
      if i - 2 < |library| {
        library := library[i - 2 := v];
      }
    }

    /** Push: ST0 <- v, ST1 <- old ST0, library <- old ST1, where they exist. */
    method WindowPush(v: Value)
      requires Valid() && |stack| < REGISTERS
      modifies this
      ensures Valid() && stack == [v] + old(stack) && out == old(out) && depth.Some? == old(depth.Some?)
    {
      if depth.None? {
        var oldST0, oldST1 := st0, st1;
        st0, st1 := v, oldST0;
        LibraryPush(oldST1);
      } else {
        var oldST0, oldST1 := st0, st1;
        if 2 <= depth.value {
          LibraryPush(oldST1);
        }
        if 1 <= depth.value {
          st1 := oldST0;
        }
        st0 := v;
        depth := Some(depth.value + 1);
      }
      stack := [v] + stack;
      assert 2 <= |stack| ==> stack[1..] == old(stack);
      assert 3 <= |stack| ==> stack[2..] == [old(stack)[1]] + old(stack)[2..];
    }

    /** The ST1 half of a pop; the depth counter still counts the popped slot. */
    method PopIntoST1()
      modifies this`st1, this`library
      ensures depth.Some? && depth.value < 3 ==> st1 == old(st1) && library == old(library)
      ensures !(depth.Some? && depth.value < 3) ==>
                if old(library) == [] then library == [] else st1 == old(library)[0] && library == old(library)[1..]
    {
      if depth.Some? && depth.value < 3 {
        return;
      }
      st1 := LibraryPop();
    }

    /** Full pop: ST0 <- old ST1, ST1 <- library top, where they exist. */
    method WindowPop()
      requires Valid() && 1 <= |stack|
      modifies this
      ensures Valid() && stack == old(stack)[1..] && out == old(out) && depth.Some? == old(depth.Some?)
    {
      if depth.None? {
        st0 := st1;
        PopIntoST1();
      } else {
        if 2 <= depth.value {
          st0 := st1;
        }
        PopIntoST1();
        depth := Some(Decrement(depth.value));
      }
      stack := stack[1..];
      AfterPop(old(stack), old(library));
    }

    /** What is left of the stack below the window after a pop. */
    lemma AfterPop(s: seq<Value>, l: seq<Value>)
      ensures 3 <= |s| && s[2..] <= l ==> l != [] && l[0] == s[2] && s[1..][2..] <= l[1..]
    {
      if 3 <= |s| && s[2..] <= l {
        assert l[0] == s[2..][0];
        assert s[1..][2..] == s[2..][1..];
      }
    }

    /** A write to an occupied slot. */
    method WriteSlot(i: nat, v: Value)
      requires Valid() && i < |stack|
      modifies this
      ensures Valid() && stack == old(stack)[i := v] && out == old(out) && depth == old(depth)
    {
      if i == 0 {
        st0 := v;
      } else if i == 1 {
        st1 := v;
      } else {
        Poke(i, v);
      }
      stack := stack[i := v];
      if 2 <= |stack| {
        assert old(stack)[2..] <= old(library);
        assert stack[2..] == if 2 <= i then old(stack)[2..][i - 2 := v] else old(stack)[2..];
      }
    }

    // ----- the lowerings ---------------------------------------------------------------

    method LowerPopStore()
      requires Valid() && 1 <= |stack|
      modifies this
      ensures Valid() && stack == old(stack)[1..] && out == old(out) + [Stored(old(stack)[0])]
      ensures depth.Some? == old(depth.Some?)
    {
      out := out + [Stored(st0)];
      WindowPop();
    }

    /** Leaves ST0 alone and pops the rest: for results already in ST0. */
    method PopBelowST0()
      requires Valid() && 2 <= |stack|
      modifies this
      ensures Valid() && stack == [old(stack)[0]] + old(stack)[2..] && out == old(out)
      ensures depth.Some? == old(depth.Some?)
    {
      PopIntoST1();
      if depth.Some? {
        depth := Some(Decrement(depth.value));
      }
      stack := [stack[0]] + stack[2..];
      AfterPop(old(stack), old(library));
      assert stack[1..] == old(stack)[2..];
      assert 2 <= |stack| ==> stack[2..] == old(stack)[1..][2..];
    }

    method LowerPopSlot(i: nat)
      requires Valid() && i < |stack|
      modifies this
      ensures Valid() && stack == old(stack)[i := old(stack)[0]][1..] && out == old(out)
      ensures depth.Some? == old(depth.Some?)
    {
      if i == 1 {
        PopBelowST0();
        return;
      }
      if 2 <= i {
        WriteSlot(i, st0);
      }
      WindowPop();
    }

    method LowerStoreSlot(i: nat)
      requires Valid() && i < |stack|
      modifies this
      ensures Valid() && stack == old(stack)[i := old(stack)[0]] && out == old(out)
      ensures depth == old(depth)
    {
      if i != 0 {
        WriteSlot(i, st0);
      }
    }

    method LowerPopArith(f: nat, st0First: bool)
      requires Valid() && 2 <= |stack|
      modifies this
      ensures Valid() && out == old(out) && depth.Some? == old(depth.Some?)
      ensures st0First ==> stack == [Binary(f, old(stack)[0], old(stack)[1])] + old(stack)[2..]
      ensures !st0First ==> stack == [Binary(f, old(stack)[1], old(stack)[0])] + old(stack)[2..]
    {
      WriteSlot(0, if st0First then Binary(f, st0, st1) else Binary(f, st1, st0));
      PopBelowST0();
    }

    method LowerPopArithSlot(i: nat, f: nat, st0First: bool)
      requires Valid() && 2 <= i < |stack|
      modifies this
      ensures Valid() && out == old(out) && depth.Some? == old(depth.Some?)
      ensures st0First ==> stack == old(stack)[i := Binary(f, old(stack)[0], old(stack)[i])][1..]
      ensures !st0First ==> stack == old(stack)[i := Binary(f, old(stack)[i], old(stack)[0])][1..]
    {
      SlotIsStack(i);
      var slot := Peek(i);
      WriteSlot(i, if st0First then Binary(f, st0, slot) else Binary(f, slot, st0));
      WindowPop();
    }

    method LowerCompare(i: nat, pops: bool)
      requires Valid() && i < |stack|
      modifies this
      ensures Valid() && stack == (if pops then old(stack)[1..] else old(stack))
      ensures out == old(out) + [Compared(old(stack)[0], old(stack)[i])]
      ensures depth.Some? == old(depth.Some?)
    {
      SlotIsStack(i);
      out := out + [Compared(st0, Slot(i))];
      if pops {
        WindowPop();
      }
    }

    method LowerFxch(i: nat)
      requires Valid() && i < |stack|
      modifies this
      ensures Valid() && stack == old(stack)[0 := old(stack)[i]][i := old(stack)[0]]
      ensures out == old(out) && depth == old(depth)
    {
      if i == 0 {
        return;
      }
      SlotIsStack(i);
      var slot := Slot(i);
      WriteSlot(i, st0);
      WriteSlot(0, slot);
    }

    /** One instruction group: the emitted moves are the stack operation, in both
        modes. */
    method Lower(op: Op)
      requires Valid() && Live(op, |stack|)
      modifies this
      ensures Valid() && stack == Step(op, old(stack)) && out == old(out) + Observe(op, old(stack))
      ensures depth.Some? == old(depth.Some?)
    {
      match op
      case PushValue(v) => WindowPush(v);
      case PushSlot(i) =>
        SlotIsStack(i);
        WindowPush(Slot(i));
      case PopStore => LowerPopStore();
      case PopSlot(i) => LowerPopSlot(i);
      case StoreSlot(i) => LowerStoreSlot(i);
      case PopArith(f, first) => LowerPopArith(f, first);
      case PopArithSlot(i, f, first) => LowerPopArithSlot(i, f, first);
      case RegArith(i, f, first) =>
        SlotIsStack(i);
        var slot := Slot(i);
        WriteSlot(0, if first then Binary(f, st0, slot) else Binary(f, slot, st0));
      case MemArith(v, f, first) => WriteSlot(0, if first then Binary(f, st0, v) else Binary(f, v, st0));
      case Unary(f) => WriteSlot(0, Monadic(f, st0));
      case Compare(i, pops) => LowerCompare(i, pops);
      case Fxch(i) => LowerFxch(i);
    }

    method LowerBlock(ops: seq<Op>)
      requires Valid() && AllLive(ops, stack)
      modifies this
      ensures Valid() && stack == Run(ops, old(stack)) && out == old(out) + Observations(ops, old(stack))
      ensures depth.Some? == old(depth.Some?)
    {
      hide AllLive, Run, Observations, Live, Step, Observe;
      for k := 0 to |ops|
        invariant Valid() && depth.Some? == old(depth.Some?)
        invariant AllLive(ops[k..], stack)
        invariant Run(ops[k..], stack) == Run(ops, old(stack))
        invariant out + Observations(ops[k..], stack) == old(out) + Observations(ops, old(stack))
      {
        RunOneStep(ops, k, stack);
        Lower(ops[k]);
      }
      EmptyRun(stack);
      assert ops[|ops|..] == [];
    }

    /** Lowering a block starts from the depth recorded for its entry. */
    method EnterBlock(recorded: nat, ops: seq<Op>)
      requires Valid() && depth.Some? && |stack| == recorded && AllLive(ops, stack)
      modifies this
      ensures Valid() && stack == Run(ops, old(stack)) && out == old(out) + Observations(ops, old(stack))
      ensures depth.Some?
    {
      hide AllLive, Run, Observations;
      depth := Some(recorded);
      LowerBlock(ops);
    }
  }

  /** The two modes hold the same value in every slot that exists. */
  lemma ModesAgree(precise: X87Window, fallback: X87Window, i: nat)
    requires precise.Valid() && fallback.Valid() && precise.stack == fallback.stack && i < |precise.stack|
    ensures precise.Slot(i) == fallback.Slot(i)
  {
    precise.SlotIsStack(i);
    fallback.SlotIsStack(i);
  }

  /** Whatever the fallback mode found in its slots at the start, after the same
      operations it shows the same observations and the same live slots as the
      precise mode, whose library never holds a slot that does not exist. */
  method LowerInBothModes(ops: seq<Op>, a: Value, b: Value, rest: seq<Value>)
    returns (precise: X87Window, fallback: X87Window)
    requires AllLive(ops, [])
    ensures precise.out == fallback.out == Observations(ops, [])
    ensures forall i :: 0 <= i < |Run(ops, [])| ==> precise.Slot(i) == fallback.Slot(i) == Run(ops, [])[i]
    ensures |precise.library| == if |Run(ops, [])| <= 2 then 0 else |Run(ops, [])| - 2
  {
    precise := new X87Window.Precise();
    fallback := new X87Window.Fallback(a, b, rest);
    precise.LowerBlock(ops);
    fallback.LowerBlock(ops);
    forall i | 0 <= i < |precise.stack|
      ensures precise.Slot(i) == fallback.Slot(i) == precise.stack[i]
    {
      precise.SlotIsStack(i);
      ModesAgree(precise, fallback, i);
    }
  }

  // ----- a whole function -----------------------------------------------------------------

  predicate HasDeltas(g: Cfg, blocks: seq<seq<Op>>) {
    |g.delta| == |blocks| && forall b :: 0 <= b < |blocks| ==> g.delta[b] == Delta(blocks[b])
  }

  predicate InRange(blocks: seq<seq<Op>>, p: seq<nat>) {
    forall i :: 0 <= i < |p| ==> p[i] < |blocks|
  }

  /** The operations of the first k blocks of a walk. */
  function OpsAlong(blocks: seq<seq<Op>>, p: seq<nat>, k: nat): seq<Op>
    requires InRange(blocks, p) && k <= |p|
  {
    if k == 0 then [] else OpsAlong(blocks, p, k - 1) + blocks[p[k - 1]]
  }

  lemma {:induction false} PrefixIsLive(blocks: seq<seq<Op>>, p: seq<nat>, k: nat)
    requires InRange(blocks, p) && k <= |p| && AllLive(OpsAlong(blocks, p, |p|), [])
    ensures AllLive(OpsAlong(blocks, p, k), [])
    decreases |p| - k
  {
    hide AllLive, Run, Observations;
    if k < |p| {
      PrefixIsLive(blocks, p, k + 1);
      RunInPieces(OpsAlong(blocks, p, k), blocks[p[k]], []);
    }
  }

  lemma PrefixIsPath(g: Cfg, p: seq<nat>, k: nat)
    requires g.Valid() && IsPath(g, p) && 0 < k <= |p|
    ensures IsPath(g, p[..k])
  {
    forall i | 0 <= i < k - 1
      ensures g.Edge(p[..k][i], p[..k][i + 1])
    {
      assert g.Edge(p[i], p[i + 1]);
    }
  }

  /** The sum the depth analysis computes is the depth of the run. */
  lemma {:induction false} PathSumIsDepth(g: Cfg, blocks: seq<seq<Op>>, p: seq<nat>, k: nat)
    requires g.Valid() && HasDeltas(g, blocks) && IsPath(g, p) && k < |p|
    requires InRange(blocks, p) && AllLive(OpsAlong(blocks, p, |p|), [])
    ensures IsPath(g, p[..k + 1]) && AllLive(OpsAlong(blocks, p, k), [])
    ensures |Run(OpsAlong(blocks, p, k), [])| == PathSum(g, p[..k + 1])
  {
    hide AllLive, Run, Observations;
    PrefixIsPath(g, p, k + 1);
    PrefixIsLive(blocks, p, k);
    if k == 0 {
      EmptyRun([]);
    } else {
      PathSumIsDepth(g, blocks, p, k - 1);
      assert p[..k + 1][..k] == p[..k];
      var before, ops := OpsAlong(blocks, p, k - 1), blocks[p[k - 1]];
      RunInPieces(before, ops, []);
      DeltaOfRun(ops, Run(before, []));
    }
  }

  /** What executing block k of a walk adds to the run so far.  The recorded
      depth is the true depth when the block is entered. */
  lemma WalkStep(g: Cfg, blocks: seq<seq<Op>>, entryDepth: map<nat, nat>, p: seq<nat>, k: nat)
    requires g.Valid() && HasDeltas(g, blocks) && IsEntryDepth(g, entryDepth) && IsPath(g, p) && k < |p|
    requires InRange(blocks, p) && AllLive(OpsAlong(blocks, p, |p|), [])
    ensures p[k] in entryDepth
    ensures AllLive(OpsAlong(blocks, p, k), []) && AllLive(OpsAlong(blocks, p, k + 1), [])
    ensures var before, ops := OpsAlong(blocks, p, k), blocks[p[k]];
      && |Run(before, [])| == entryDepth[p[k]] && AllLive(ops, Run(before, []))
      && Run(OpsAlong(blocks, p, k + 1), []) == Run(ops, Run(before, []))
      && Observations(OpsAlong(blocks, p, k + 1), []) == Observations(before, []) + Observations(ops, Run(before, []))
  {
    hide Run, AllLive, Observations;
    PrefixIsLive(blocks, p, k + 1);
    PathSumIsDepth(g, blocks, p, k);
    assert Last(p[..k + 1]) == p[k];
    RunInPieces(OpsAlong(blocks, p, k), blocks[p[k]], []);
  }

  /** Executes the emitted code along a walk through the function.  Each block
      was lowered from the depth recorded for it; the code still computes the
      stack of the original operations. */
  method LowerAlongPath(g: Cfg, blocks: seq<seq<Op>>, entryDepth: map<nat, nat>, p: seq<nat>)
    returns (w: X87Window)
    requires g.Valid() && HasDeltas(g, blocks) && IsEntryDepth(g, entryDepth) && IsPath(g, p)
    requires InRange(blocks, p) && AllLive(OpsAlong(blocks, p, |p|), [])
    ensures w.Valid() && w.depth.Some?
    ensures w.stack == Run(OpsAlong(blocks, p, |p|), [])
    ensures w.out == Observations(OpsAlong(blocks, p, |p|), [])
  {
    hide Run, AllLive, Observations, IsEntryDepth, IsPath, HasDeltas;
    w := new X87Window.Precise();
    EmptyRun([]);
    for k := 0 to |p|
      invariant w.Valid() && w.depth.Some? && fresh(w)
      invariant AllLive(OpsAlong(blocks, p, k), [])
      invariant w.stack == Run(OpsAlong(blocks, p, k), [])
      invariant w.out == Observations(OpsAlong(blocks, p, k), [])
    {
      WalkStep(g, blocks, entryDepth, p, k);
      w.EnterBlock(entryDepth[p[k]], blocks[p[k]]);
    }
  }
}
