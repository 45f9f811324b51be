/** Register accesses as bit slices of storage units, against a flat file of
    register bytes. */
module RegisterStorage {
  import opened Bits
  import opened Bitwise
  import opened RegisterRange
  import opened RegisterUnits
  import opened Wrappers

  datatype Access = Access(space: string, offset: nat, size: nat)

  // ----- a flat file of bytes ---------------------------------------------------

  datatype Cell = Cell(space: string, addr: nat)

  /** The place of byte k of an n-byte value, counted from its low end. */
  function Position(n: nat, k: nat, big: bool): nat
    requires k < n
  {
    if big then n - 1 - k else k
  }

  predicate Covers(a: Access, c: Cell) {
    c.space == a.space && a.offset <= c.addr < a.offset + a.size
  }

  ghost predicate Mapped(cells: set<Cell>, a: Access) {
    forall c :: Covers(a, c) ==> c in cells
  }

  function FlatRead(file: map<Cell, nat>, a: Access, big: bool): nat
    requires Mapped(file.Keys, a)
    decreases a.size
  {
    if a.size == 0 then 0
    else
      var low := if big then a.offset + a.size - 1 else a.offset;
      var rest := Access(a.space, if big then a.offset else a.offset + 1, a.size - 1);
      file[Cell(a.space, low)] + 0x100 * FlatRead(file, rest, big)
  }

  function FlatWrite(file: map<Cell, nat>, a: Access, value: nat, big: bool): (r: map<Cell, nat>)
    ensures r.Keys == file.Keys
  {
    map c | c in file ::
      if Covers(a, c) then Slice(value, 8 * Position(a.size, c.addr - a.offset, big), 8) else file[c]
  }

  // ----- bytes of a unit ------------------------------------------------------------

  /** bitOffset: where an access starts inside its unit's value. */
  function BitOffset(u: Unit, a: Access, big: bool): nat
    requires a.space == u.space && u.offset <= a.offset && a.offset + a.size <= u.offset + u.size
  {
    var relative := a.offset - u.offset;
    8 * if big then u.size - relative - a.size else relative
  }

  predicate Holds(u: Unit, c: Cell) {
    c.space == u.space && u.offset <= c.addr < u.offset + u.size
  }

  /** The unit's value and the file hold the same bytes. */
  ghost predicate Agrees(u: Unit, value: nat, file: map<Cell, nat>, big: bool) {
    && IsWord(value, 8 * u.size)
    && forall c :: Holds(u, c) ==>
         c in file && file[c] == Slice(value, 8 * Position(u.size, c.addr - u.offset, big), 8)
  }

  lemma AgreesWord(u: Unit, value: nat, file: map<Cell, nat>, big: bool)
    requires Agrees(u, value, file, big)
    ensures IsWord(value, 8 * u.size)
  {
  }

  lemma SliceOfSlice(v: int, a: nat, b: nat, c: nat, d: nat)
    requires c + d <= b
    ensures Slice(Slice(v, a, b), c, d) == Slice(v, a + c, d)
  {
    hide Slice, Wrap, Shr;
    SliceAbove(v, a + c, d, a);
    SliceBelow(Shr(v, a), c, d, b);
    SliceDefinition(v, a, b);
  }

  lemma SliceDefinition(v: int, a: nat, b: nat)
    ensures Slice(v, a, b) == Wrap(Shr(v, a), b)
  {
  }

  lemma SliceNothing(v: int, a: nat)
    ensures Slice(v, a, 0) == 0
  {
  }

  /** A slice of n bytes is its low byte and the slice above it. */
  lemma SliceLowByte(v: int, a: nat, w: nat)
    requires 8 <= w
    ensures Slice(v, a, w) == Slice(v, a, 8) + 0x100 * Slice(v, a + 8, w - 8)
  {
    Pow2Values();
    hide Pow2;
    ModSplit(Shr(v, a), 8, w - 8);
    ShrShr(v, a, 8);
  }

  /** Reading the slice reads the bytes. */
  lemma {:induction false} FlatReadIsSlice(u: Unit, value: nat, file: map<Cell, nat>, big: bool, a: Access)
    requires Agrees(u, value, file, big)
    requires a.space == u.space && u.offset <= a.offset && a.offset + a.size <= u.offset + u.size
    ensures Mapped(file.Keys, a)
    ensures FlatRead(file, a, big) == Slice(value, BitOffset(u, a, big), 8 * a.size)
    decreases a.size
  {
    hide Slice, IsWord;
    assert forall c :: Covers(a, c) ==> Holds(u, c);
    var at := BitOffset(u, a, big);
    if a.size == 0 {
      SliceNothing(value, at);
    } else {
      var low := if big then a.offset + a.size - 1 else a.offset;
      var rest := Access(a.space, if big then a.offset else a.offset + 1, a.size - 1);
      FlatReadIsSlice(u, value, file, big, rest);
      SliceLowByte(value, at, 8 * a.size);
      assert Holds(u, Cell(a.space, low));
    }
  }

  /** Splicing the slice writes the bytes. */
  lemma FlatWriteIsSplice(u: Unit, before: nat, file: map<Cell, nat>, big: bool, a: Access, value: nat)
    requires Agrees(u, before, file, big)
    requires a.space == u.space && u.offset <= a.offset && a.offset + a.size <= u.offset + u.size
    ensures var after := Splice(before, BitOffset(u, a, big), 8 * a.size, value);
      0 <= after && Agrees(u, after, FlatWrite(file, a, value, big), big)
  {
    hide Slice, Splice, IsWord, Wrap;
    var at := BitOffset(u, a, big);
    var after := Splice(before, at, 8 * a.size, value);
    SpliceWord(before, at, 8 * a.size, value, 8 * u.size);
    WordNatural(after, 8 * u.size);
    forall c | Holds(u, c)
      ensures FlatWrite(file, a, value, big)[c] == Slice(after, 8 * Position(u.size, c.addr - u.offset, big), 8)
    {
      SplicedByte(before, at, a.size, value, 8 * Position(u.size, c.addr - u.offset, big));
    }
  }

  lemma WordNatural(v: int, w: nat)
    requires IsWord(v, w)
    ensures 0 <= v
  {
  }

  /** A byte of a spliced value, at a bit offset a whole number of bytes away. */
  lemma SplicedByte(before: nat, at: nat, size: nat, value: nat, byte: nat)
    requires byte + 8 <= at || at + 8 * size <= byte || (at <= byte && byte + 8 <= at + 8 * size)
    ensures Slice(Splice(before, at, 8 * size, value), byte, 8)
         == if at <= byte < at + 8 * size then Slice(value, byte - at, 8) else Slice(before, byte, 8)
  {
    hide Slice, Splice, Wrap;
    var after := Splice(before, at, 8 * size, value);
    SliceOfSplice(before, at, 8 * size, value, byte, 8);
    if at <= byte < at + 8 * size {
      SliceOfSlice(after, at, 8 * size, byte - at, 8);
      SliceBelow(value, byte - at, 8, 8 * size);
    }
  }

  /** Other units do not notice. */
  lemma WriteElsewhere(u: Unit, value: nat, file: map<Cell, nat>, big: bool, a: Access, written: nat)
    requires Agrees(u, value, file, big)
    requires a.space != u.space || a.offset + a.size <= u.offset || u.offset + u.size <= a.offset
    ensures Agrees(u, value, FlatWrite(file, a, written, big), big)
  {
    hide Slice, IsWord;
    assert forall c :: Holds(u, c) ==> !Covers(a, c);
  }

  /** The flat file itself reads back what was written. */
  lemma {:induction false} FlatReadAfterWrite(file: map<Cell, nat>, a: Access, value: nat, big: bool)
    requires Mapped(file.Keys, a)
    ensures Mapped(FlatWrite(file, a, value, big).Keys, a)
    ensures FlatRead(FlatWrite(file, a, value, big), a, big) == Wrap(value, 8 * a.size)
  {
    var u := Unit(a.space, a.offset, a.size);
    var after := FlatWrite(file, a, value, big);
    hide Slice, Wrap;
    forall c | Holds(u, c)
      ensures after[c] == Slice(Wrap(value, 8 * a.size), 8 * Position(u.size, c.addr - u.offset, big), 8)
    {
      assert Covers(a, c);
      SliceBelow(value, 8 * Position(u.size, c.addr - u.offset, big), 8, 8 * a.size);
    }
    FlatReadIsSlice(u, Wrap(value, 8 * a.size), after, big, a);
    SliceWhole(Wrap(value, 8 * a.size), 8 * a.size);
  }

  lemma SliceWhole(v: int, w: nat)
    requires IsWord(v, w)
    ensures Slice(v, 0, w) == v
  {
    ShrNothing(v);
    WrapSmall(v, w, w);
  }

  /** A unit holds one value. */
  lemma AgreesOnce(u: Unit, one: nat, other: nat, file: map<Cell, nat>, big: bool)
    requires Agrees(u, one, file, big) && Agrees(u, other, file, big)
    ensures one == other
  {
    hide Slice;
    var whole := Access(u.space, u.offset, u.size);
    FlatReadIsSlice(u, one, file, big, whole);
    FlatReadIsSlice(u, other, file, big, whole);
    SliceWhole(one, 8 * u.size);
    SliceWhole(other, 8 * u.size);
  }

  /** Units whose sanitised names and widths coincide are given one global.  After a
      write to the whole of one of them the global still agrees with the other one's
      bytes exactly when the write changed nothing. */
  lemma SharedGlobalExactly(u: Unit, v: Unit, shared: nat, file: map<Cell, nat>, big: bool, value: nat)
    requires Apart(u, v) && u.size == v.size && Agrees(u, shared, file, big) && Agrees(v, shared, file, big)
    ensures var after := FlatWrite(file, Access(u.space, u.offset, u.size), value, big);
      && Agrees(u, Wrap(value, 8 * u.size), after, big)
      && (Agrees(v, Wrap(value, 8 * u.size), after, big) <==> Wrap(value, 8 * u.size) == shared)
  {
    hide Slice, Splice, Wrap, FlatWrite, Agrees;
    var whole := Access(u.space, u.offset, u.size);
    var after := FlatWrite(file, whole, value, big);
    AgreesWord(u, shared, file, big);
    FlatWriteIsSplice(u, shared, file, big, whole, value);
    WholeIsSplice(u, shared, whole, value, big);
    WriteElsewhere(v, shared, file, big, whole, value);
    if Agrees(v, Wrap(value, 8 * u.size), after, big) {
      AgreesOnce(v, shared, Wrap(value, 8 * u.size), after, big);
    }
  }

  // ----- the storage --------------------------------------------------------------------

  datatype RegisterOp = ReadOp(a: Access) | WriteOp(a: Access, value: nat)

  /** The source's 64-bit containment test. */
  predicate Serves(u: Unit, a: Access) {
    && u.space == a.space && u.offset <= a.offset
    && (a.offset + a.size) % WORD64 <= (u.offset + u.size) % WORD64
  }

  /** p-code accesses are at least one byte and do not wrap. */
  predicate Proper(a: Access) {
    1 <= a.size && a.offset + a.size < WORD64
  }

  /** A unit holds all of the access. */
  predicate Served(units: seq<Unit>, a: Access) {
    exists u :: 0 <= u < |units| && Within(units[u], a)
  }

  predicate Within(u: Unit, a: Access) {
    u.space == a.space && u.offset <= a.offset && a.offset + a.size <= u.offset + u.size
  }

  /** None: an access that no unit serves, or a write. */
  function FlatResult(units: seq<Unit>, op: RegisterOp, file: map<Cell, nat>, big: bool): Option<nat>
    requires forall a | Served(units, a) :: Mapped(file.Keys, a)
  {
    if op.ReadOp? && Served(units, op.a) then Some(FlatRead(file, op.a, big)) else None
  }

  /** The results of a run over the flat file. */
  function FlatResults(units: seq<Unit>, ops: seq<RegisterOp>, file: map<Cell, nat>, big: bool): seq<Option<nat>>
    requires forall a | Served(units, a) :: Mapped(file.Keys, a)
    decreases |ops|
  {
    if ops == [] then []
    else
      [FlatResult(units, ops[0], file, big)]
      + FlatResults(units, ops[1..], FlatAfter(units, ops[0], file, big), big)
  }

  lemma ResultsStep(units: seq<Unit>, ops: seq<RegisterOp>, k: nat, file: map<Cell, nat>, big: bool)
    requires k < |ops| && forall a | Served(units, a) :: Mapped(file.Keys, a)
    ensures FlatResults(units, ops[k..], file, big) == [FlatResult(units, ops[k], file, big)]
         + FlatResults(units, ops[k + 1..], FlatAfter(units, ops[k], file, big), big)
  {
    assert ops[k..][0] == ops[k] && ops[k..][1..] == ops[k + 1..];
  }

  lemma ResultsEnd(units: seq<Unit>, ops: seq<RegisterOp>, file: map<Cell, nat>, big: bool)
    requires forall a | Served(units, a) :: Mapped(file.Keys, a)
    ensures FlatResults(units, ops[|ops|..], file, big) == []
  {
  }

  function FlatAfter(units: seq<Unit>, op: RegisterOp, file: map<Cell, nat>, big: bool): (r: map<Cell, nat>)
    ensures r.Keys == file.Keys
  {
    if op.WriteOp? && Served(units, op.a) then FlatWrite(file, op.a, op.value, big) else file
  }

  /** Every byte of the access is a register's, and any two next to each other are
      in one register. */
  ghost predicate HeldByRegisters(registers: seq<RegisterInfo>, a: Access) {
    && (forall x: nat | a.offset <= x < a.offset + a.size :: Held(registers, a.space, x, x))
    && (forall x: nat, y: nat | a.offset <= x && y == x + 1 < a.offset + a.size :: Held(registers, a.space, x, y))
  }

  /** The accesses that the storage of a register list serves. */
  lemma ServedExactly(registers: seq<RegisterInfo>, units: seq<Unit>, a: Access)
    requires Components(registers, units) && 1 <= a.size
    ensures Served(units, a) <==> HeldByRegisters(registers, a)
  {
    hide Components, Held;
    if Served(units, a) {
      var u :| 0 <= u < |units| && Within(units[u], a);
      forall x: nat | a.offset <= x < a.offset + a.size
        ensures Held(registers, a.space, x, x)
      {
        assert UnitByte(units[u], a.space, x);
        UnitsOfBytes(registers, units, a.space, x);
      }
      forall x: nat, y: nat | a.offset <= x && y == x + 1 < a.offset + a.size
        ensures Held(registers, a.space, x, y)
      {
        assert UnitByte(units[u], a.space, x) && UnitByte(units[u], a.space, x + 1);
        UnitsOfBytes(registers, units, a.space, x);
      }
    }
    if HeldByRegisters(registers, a) {
      var u := UnitOfRun(registers, units, a);
      assert Within(units[u], a);
    }
  }

  lemma {:induction false} UnitOfRun(registers: seq<RegisterInfo>, units: seq<Unit>, a: Access) returns (u: nat)
    requires Components(registers, units) && 1 <= a.size && HeldByRegisters(registers, a)
    ensures u < |units| && Within(units[u], a)
    decreases a.size
  {
    hide Components, Held;
    var last: nat := a.offset + a.size - 1;
    UnitsOfBytes(registers, units, a.space, last);
    if a.size == 1 {
      assert Held(registers, a.space, last, last);
      u :| u < |units| && UnitByte(units[u], a.space, last);
    } else {
      assert Held(registers, a.space, last - 1, last);
      u := UnitOfRun(registers, units, Access(a.space, a.offset, a.size - 1));
      UnitsOfBytes(registers, units, a.space, last - 1);
      assert Together(units, a.space, last - 1, last);
      var v: nat :| v < |units| && UnitByte(units[v], a.space, last - 1) && UnitByte(units[v], a.space, last);
      assert UnitByte(units[u], a.space, last - 1);
    }
  }

  /** Each access inside one register of the list is served. */
  lemma RegisterIsServed(registers: seq<RegisterInfo>, units: seq<Unit>, r: RegisterInfo, a: Access)
    requires Components(registers, units) && r in registers && r.space != "" && r.size != 0
    requires 1 <= a.size && a.space == r.space && r.offset <= a.offset && a.offset + a.size <= r.offset + r.size
    ensures Served(units, a)
  {
    hide Components;
    forall x: nat, y: nat | a.offset <= x <= y < a.offset + a.size
      ensures Held(registers, a.space, x, y)
    {
      assert HasByte(r, a.space, x) && HasByte(r, a.space, y);
    }
    ServedExactly(registers, units, a);
  }

  // ----- the bytes behind the initial globals ---------------------------------------------

  function CellsFrom(u: Unit, n: nat): (cells: set<Cell>)
    ensures forall c :: c in cells <==> c.space == u.space && u.offset <= c.addr < u.offset + n
  {
    if n == 0 then {} else CellsFrom(u, n - 1) + {Cell(u.space, u.offset + n - 1)}
  }

  function UnitFile(u: Unit, value: nat, big: bool): map<Cell, nat> {
    map c | c in CellsFrom(u, u.size) :: Slice(value, 8 * Position(u.size, c.addr - u.offset, big), 8)
  }

  function FileOf(units: seq<Unit>, globals: seq<nat>, n: nat, big: bool): map<Cell, nat>
    requires n <= |units| == |globals|
  {
    if n == 0 then map[] else FileOf(units, globals, n - 1, big) + UnitFile(units[n - 1], globals[n - 1], big)
  }

  lemma UnitFileAgrees(u: Unit, value: nat, file: map<Cell, nat>, big: bool)
    requires IsWord(value, 8 * u.size)
    ensures Agrees(u, value, file + UnitFile(u, value, big), big)
  {
    hide Slice, IsWord;
  }

  lemma UnitFileElsewhere(u: Unit, value: nat, file: map<Cell, nat>, other: Unit, otherValue: nat, big: bool)
    requires Agrees(u, value, file, big) && Apart(u, other)
    ensures Agrees(u, value, file + UnitFile(other, otherValue, big), big)
  {
    hide Slice, IsWord;
    assert forall c :: Holds(u, c) ==> c !in CellsFrom(other, other.size);
  }

  lemma {:induction false} FileOfAgrees(units: seq<Unit>, globals: seq<nat>, n: nat, big: bool, u: nat)
    requires u < n <= |units| == |globals| && Disjoint(units) && IsWord(globals[u], 8 * units[u].size)
    ensures Agrees(units[u], globals[u], FileOf(units, globals, n, big), big)
    decreases n
  {
    hide Agrees, UnitFile;
    var before := FileOf(units, globals, n - 1, big);
    if u < n - 1 {
      FileOfAgrees(units, globals, n - 1, big, u);
      assert Apart(units[u], units[n - 1]);
      UnitFileElsewhere(units[u], globals[u], before, units[n - 1], globals[n - 1], big);
    } else {
      UnitFileAgrees(units[u], globals[u], before, big);
    }
  }

  /** A write to a whole unit is a splice like any other. */
  lemma WholeIsSplice(u: Unit, before: nat, a: Access, value: nat, big: bool)
    requires Within(u, a) && u.offset == a.offset && u.size == a.size && IsWord(before, 8 * u.size)
    ensures Splice(before, BitOffset(u, a, big), 8 * a.size, value) == Wrap(value, 8 * a.size)
  {
    InsertWhole(8 * a.size, before, Wrap(value, 8 * a.size));
    WrapWrap(value, 8 * a.size, 8 * a.size);
  }

  lemma UnitEndFits(registers: seq<RegisterInfo>, units: seq<Unit>, u: nat)
    requires Fits(registers) && Components(registers, units) && u < |units|
    ensures units[u].offset + units[u].size < WORD64
  {
    hide Connected, Disjoint;
    assert Spanned(registers, units[u]);
  }

  class Storage {
    const bigEndian: bool
    var units: seq<Unit>
    var globals: seq<nat>    // the value of each unit's global variable

    ghost var file: map<Cell, nat>

    ghost predicate Valid()
      reads this
    {
      && Disjoint(units) && |globals| == |units|
      && (forall u :: 0 <= u < |units| ==> units[u].offset + units[u].size < WORD64)
      && (forall u :: 0 <= u < |units| ==> Agrees(units[u], globals[u], file, bigEndian))
    }

    /** The register globals start with the given contents. */
    constructor (registers: seq<RegisterInfo>, big: bool, initial: Unit -> nat)
      requires Fits(registers)
      ensures Valid() && bigEndian == big && Components(registers, units)
      ensures forall a: Access | 1 <= a.size :: Served(units, a) <==> HeldByRegisters(registers, a)
    {
      bigEndian := big;
      var merged := BuildUnits(registers);
      units := merged;
      globals := seq(|merged|, u requires 0 <= u < |merged| => Wrap(initial(merged[u]), 8 * merged[u].size));
      new;
      file := FileOf(units, globals, |units|, big);
      forall u | 0 <= u < |units|
        ensures units[u].offset + units[u].size < WORD64
        ensures Agrees(units[u], globals[u], file, big)
      {
        UnitEndFits(registers, units, u);
        FileOfAgrees(units, globals, |units|, big, u);
      }
      forall a: Access | 1 <= a.size
        ensures Served(units, a) <==> HeldByRegisters(registers, a)
      {
        ServedExactly(registers, units, a);
      }
    }

    /** unitFor: the first unit that serves the access. */
    method UnitFor(a: Access) returns (u: nat)
      requires Valid() && Proper(a)
      ensures u <= |units| && (u < |units| <==> Served(units, a))
      ensures u < |units| ==> Within(units[u], a)
    {
      u := 0;
      while u < |units| && !Serves(units[u], a)
        invariant 0 <= u <= |units|
        invariant forall v :: 0 <= v < u ==> !Within(units[v], a)
      {
        u := u + 1;
      }
    }

    method Read(a: Access) returns (r: Option<nat>)
      requires Valid() && Proper(a)
      ensures Served(units, a) ==> Mapped(file.Keys, a)
      ensures r == if Served(units, a) then Some(FlatRead(file, a, bigEndian)) else None
    {
      var u := UnitFor(a);
      if u == |units| {
        return None;
      }
      FlatReadIsSlice(units[u], globals[u], file, bigEndian, a);
      if units[u].offset == a.offset && units[u].size == a.size {
        SliceWhole(globals[u], 8 * a.size);
        return Some(globals[u]);
      }
      var at := BitOffset(units[u], a, bigEndian);
      return Some(Slice(globals[u], at, 8 * a.size));
    }

    method Write(a: Access, value: nat)
      requires Valid() && Proper(a)
      modifies this`globals, this`file
      ensures Valid()
      ensures file == FlatAfter(units, WriteOp(a, value), old(file), bigEndian)
    {
      hide Slice, Splice, Wrap, FlatWrite, Agrees, Disjoint;
      var u := UnitFor(a);
      if u == |units| {
        return;
      }
      var at := BitOffset(units[u], a, bigEndian);
      WriteKeeps(u, a, value);
      if units[u].offset == a.offset && units[u].size == a.size {
        assert IsWord(globals[u], 8 * units[u].size) by { AgreesWord(units[u], globals[u], file, bigEndian); }
        WholeIsSplice(units[u], globals[u], a, value, bigEndian);
        globals := globals[u := Wrap(value, 8 * a.size)];
      } else {
        globals := globals[u := Splice(globals[u], at, 8 * a.size, value)];
      }
      file := FlatWrite(file, a, value, bigEndian);
    }

    lemma WriteKeeps(u: nat, a: Access, value: nat)
      requires Valid() && u < |units| && Within(units[u], a)
      ensures var after := Splice(globals[u], BitOffset(units[u], a, bigEndian), 8 * a.size, value);
        && 0 <= after
        && forall v :: 0 <= v < |units| ==>
             Agrees(units[v], if v == u then after else globals[v], FlatWrite(file, a, value, bigEndian), bigEndian)
    {
      hide Slice, Splice, FlatWrite, Agrees;
      FlatWriteIsSplice(units[u], globals[u], file, bigEndian, a, value);
      forall v | 0 <= v < |units| && v != u
        ensures Agrees(units[v], globals[v], FlatWrite(file, a, value, bigEndian), bigEndian)
      {
        assert Apart(units[u], units[v]);
        WriteElsewhere(units[v], globals[v], file, bigEndian, a, value);
      }
    }

    /** Any run of reads and writes gives what the flat file gives. */
    method Run(ops: seq<RegisterOp>) returns (results: seq<Option<nat>>)
      requires Valid() && forall op | op in ops :: Proper(op.a)
      modifies this`globals, this`file
      ensures Valid()
      ensures forall a | Served(units, a) :: Mapped(old(file).Keys, a)
      ensures results == FlatResults(units, ops, old(file), bigEndian)
    {
      hide Served, Mapped, FlatResults, FlatRead, FlatWrite, FlatAfter, Valid;
      ServedIsMapped();
      results := [];
      for k := 0 to |ops|
        invariant Valid() && (forall a | Served(units, a) :: Mapped(file.Keys, a))
        invariant results + FlatResults(units, ops[k..], file, bigEndian)
               == FlatResults(units, ops, old(file), bigEndian)
      {
        ResultsStep(units, ops, k, file, bigEndian);
        var r := Perform(ops[k]);
        results := results + [r];
      }
      ResultsEnd(units, ops, file, bigEndian);
    }

    method Perform(op: RegisterOp) returns (r: Option<nat>)
      requires Valid() && Proper(op.a)
      modifies this`globals, this`file
      ensures Valid() && file == FlatAfter(units, op, old(file), bigEndian)
      ensures forall a | Served(units, a) :: Mapped(old(file.Keys), a)
      ensures r == FlatResult(units, op, old(file), bigEndian)
    {
      hide Served, Mapped, FlatRead, FlatWrite, Valid;
      ServedIsMapped();
      match op
      case ReadOp(a) => r := Read(a);
      case WriteOp(a, value) =>
        Write(a, value);
        r := None;
    }

    lemma ServedIsMapped()
      requires Valid()
      ensures forall a | Served(units, a) :: Mapped(file.Keys, a)
    {
      forall a | Served(units, a)
        ensures Mapped(file.Keys, a)
      {
        var u :| 0 <= u < |units| && Within(units[u], a);
        FlatReadIsSlice(units[u], globals[u], file, bigEndian, a);
      }
    }
  }
}
