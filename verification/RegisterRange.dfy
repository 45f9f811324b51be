/** Bit ranges of register values: the arithmetic meaning of extracting and
    inserting a range, the shift-and-mask code that computes it, and the search
    for an inserted piece through a chain of inserts. */
module RegisterRange {
  import opened Bits
  import opened Bitwise
  import opened Wrappers

  // ----- meaning ------------------------------------------------------------------

  /** Bits off .. off + w - 1 of v. */
  function Slice(v: int, off: nat, w: nat): nat {
    Wrap(Shr(v, off), w)
  }

  /** base with bits off .. off + w - 1 replaced by the low bits of value. */
  function Splice(base: int, off: nat, w: nat, value: int): int {
    base + (Wrap(value, w) - Slice(base, off, w)) * Pow2(off)
  }

  /** A number given by its bits below off, the next w bits, and the rest. */
  function Three(low: int, mid: int, high: int, off: nat, w: nat): int {
    (high * Pow2(w) + mid) * Pow2(off) + low
  }

  lemma PartsOf(v: int, off: nat, w: nat)
    ensures v == Three(Wrap(v, off), Slice(v, off, w), Shr(v, off + w), off, w)
  {
    Pow2Add(off, w);
    DivMod(v, Pow2(off));
    DivMod(Shr(v, off), Pow2(w));
    DivDiv(v, Pow2(off), Pow2(w));
  }

  lemma ThreeParts(low: int, mid: int, high: int, off: nat, w: nat)
    requires IsWord(low, off) && IsWord(mid, w)
    ensures var v := Three(low, mid, high, off, w);
      Wrap(v, off) == low && Slice(v, off, w) == mid && Shr(v, off + w) == high
  {
    Pow2Add(off, w);
    var v := Three(low, mid, high, off, w);
    DivAddMultiple(low, high * Pow2(w) + mid, Pow2(off));
    ModSmall(low, Pow2(off));
    DivAddMultiple(mid, high, Pow2(w));
    ModSmall(mid, Pow2(w));
    DivDiv(v, Pow2(off), Pow2(w));
  }

  lemma SpliceParts(base: int, off: nat, w: nat, value: int)
    ensures Splice(base, off, w, value) == Three(Wrap(base, off), Wrap(value, w), Shr(base, off + w), off, w)
  {
    PartsOf(base, off, w);
    hide Pow2, Wrap, Shr, Slice;
    var p, low, mid, high := Pow2(off), Wrap(base, off), Slice(base, off, w), Shr(base, off + w);
    var replaced := Wrap(value, w);
    ReplaceMiddle(high * Pow2(w), mid, replaced, p, low);
  }

  lemma ReplaceMiddle(h: int, mid: int, replaced: int, p: int, low: int)
    ensures (h + mid) * p + low + (replaced - mid) * p == (h + replaced) * p + low
  {
  }

  lemma ShrShr(v: int, a: nat, b: nat)
    ensures Shr(Shr(v, a), b) == Shr(v, a + b)
  {
    Pow2Add(a, b);
    DivDiv(v, Pow2(a), Pow2(b));
  }

  /** A range below bit k is a range of the low k bits. */
  lemma SliceBelow(v: int, off: nat, w: nat, k: nat)
    requires off + w <= k
    ensures Slice(v, off, w) == Slice(Wrap(v, k), off, w)
  {
    WrapHigh(v, off, k - off);
    WrapWrap(Shr(v, off), k - off, w);
  }

  /** A range above bit k is a range of what is above bit k. */
  lemma SliceAbove(v: int, off: nat, w: nat, k: nat)
    requires k <= off
    ensures Slice(v, off, w) == Slice(Shr(v, k), off - k, w)
  {
    ShrShr(v, k, off - k);
  }

  /** Reading back a written range gives the value; reading any range that does
      not meet it gives what was there. */
  lemma SliceOfSplice(base: int, off: nat, w: nat, value: int, readOff: nat, readW: nat)
    ensures Slice(Splice(base, off, w, value), off, w) == Wrap(value, w)
    ensures readOff + readW <= off || off + w <= readOff ==>
              Slice(Splice(base, off, w, value), readOff, readW) == Slice(base, readOff, readW)
  {
    hide Pow2, Wrap, Shr, Slice, Three, Splice;
    var s := Splice(base, off, w, value);
    SpliceParts(base, off, w, value);
    assert IsWord(Wrap(base, off), off) && IsWord(Wrap(value, w), w);
    ThreeParts(Wrap(base, off), Wrap(value, w), Shr(base, off + w), off, w);
    if readOff + readW <= off {
      SliceBelow(s, readOff, readW, off);
      SliceBelow(base, readOff, readW, off);
    } else if off + w <= readOff {
      SliceAbove(s, readOff, readW, off + w);
      SliceAbove(base, readOff, readW, off + w);
    }
  }

  /** The last write to a range wins; writing back what was read changes nothing. */
  lemma SpliceTwice(base: int, off: nat, w: nat, a: int, b: int)
    ensures Splice(Splice(base, off, w, a), off, w, b) == Splice(base, off, w, b)
    ensures Splice(base, off, w, Slice(base, off, w)) == base
  {
    hide Pow2, Wrap, Shr, Slice, Three, Splice;
    SpliceParts(base, off, w, a);
    SpliceParts(base, off, w, b);
    SpliceParts(Splice(base, off, w, a), off, w, b);
    assert IsWord(Wrap(base, off), off) && IsWord(Wrap(a, w), w);
    ThreeParts(Wrap(base, off), Wrap(a, w), Shr(base, off + w), off, w);
    SpliceParts(base, off, w, Slice(base, off, w));
    PartsOf(base, off, w);
    SliceIsWord(base, off, w);
  }

  lemma SliceIsWord(v: int, off: nat, w: nat)
    ensures IsWord(Slice(v, off, w), w) && Wrap(Slice(v, off, w), w) == Slice(v, off, w)
  {
    WrapSmall(Slice(v, off, w), w, w);
  }

  /** A number fits in full bits when what is above bit k fits in the rest. */
  lemma WordByHigh(v: int, k: nat, full: nat)
    requires k <= full
    ensures IsWord(v, full) <==> IsWord(Shr(v, k), full - k)
  {
    Pow2Add(full - k, k);
    DivBounds(v, Pow2(k), Pow2(full - k));
    DivBounds(v, Pow2(k), 0);
  }

  lemma SpliceWord(base: int, off: nat, w: nat, value: int, full: nat)
    requires IsWord(base, full) && off + w <= full
    ensures IsWord(Splice(base, off, w, value), full)
  {
    hide Pow2, Shr, Slice, Three, Splice, Wrap;
    SpliceParts(base, off, w, value);
    assert IsWord(Wrap(base, off), off) && IsWord(Wrap(value, w), w);
    ThreeParts(Wrap(base, off), Wrap(value, w), Shr(base, off + w), off, w);
    WordByHigh(base, off + w, full);
    WordByHigh(Splice(base, off, w, value), off + w, full);
  }

  // ----- helper calls -------------------------------------------------------------------

  /** What the call parsers accept: the end of the range is a 64-bit sum. */
  predicate ParseAccepts(full: nat, part: nat, off: nat) {
    1 <= part <= full && Wrap(off + part, 64) <= full
  }

  /** Apart from the ranges inside the value, exactly those whose end wraps. */
  lemma ParseAcceptsExactly(full: nat, part: nat, off: nat)
    requires full < 0x1_0000_0000 && off < 0x1_0000_0000_0000_0000
    ensures ParseAccepts(full, part, off) <==>
              1 <= part <= full && (off + part <= full || 0x1_0000_0000_0000_0000 <= off + part)
  {
    Pow2Values();
    hide Pow2;
    var m := 0x1_0000_0000_0000_0000;
    if 1 <= part <= full {
      if off + part < m {
        ModSmall(off + part, m);
      } else {
        ModShift(off + part - m, off + part, m, 1);
        ModSmall(off + part - m, m);
      }
    }
  }

  // ----- lowering to shifts and masks ------------------------------------------------------

  function PartialWriteMask(full: nat, w: nat, off: nat): nat {
    if full == 0 || w == 0 || off >= full || off + w > full then 0
    else Wrap(Wrap(Pow2(w) - 1, full) * Pow2(off), full)
  }

  function LowerExtract(full: nat, r: nat, off: nat, v: nat): nat
    requires IsWord(v, full)
  {
    if off == 0 && r == full then v
    else
      ShrNatural(v, off);
      var bits: nat := if off != 0 then Shr(v, off) else v;
      if r != full then Wrap(bits, r) else bits
  }

  /** None: the call is left in place. */
  function LowerInsert(full: nat, w: nat, off: nat, base: nat, value: nat): Option<nat>
    requires IsWord(base, full) && IsWord(value, w)
  {
    if off == 0 && w == full then Some(value)
    else
      var mask := PartialWriteMask(full, w, off);
      if mask == 0 then None
      else
        var wide := Wrap(value, full);
        var shifted := if off != 0 then Wrap(wide * Pow2(off), full) else wide;
        var bits := Apply(And, shifted, mask);
        assert mask < Pow2(full);
        var kept := Apply(And, base, Pow2(full) - 1 - mask);
        Some(Apply(Or, kept, bits))
  }

  lemma ExtractMeaning(full: nat, r: nat, off: nat, v: nat)
    requires IsWord(v, full) && 1 <= r && off + r <= full
    ensures LowerExtract(full, r, off, v) == Slice(v, off, r)
  {
    ShrNothing(v);
    if r == full { WrapSmall(v, full, full); }
  }

  lemma ShrNothing(v: int)
    ensures Shr(v, 0) == v
  {
  }

  /** Below 2^full, a value of w bits moved up by off bits keeps its bits. */
  lemma MovedUp(value: int, off: nat, w: nat, full: nat)
    requires IsWord(value, w) && off + w <= full
    ensures Wrap(Wrap(value, full) * Pow2(off), full) == Three(0, value, 0, off, w)
  {
    WrapSmall(value, w, full);
    Pow2Add(w, off);
    MulLt(value, Pow2(w), Pow2(off));
    MulLe(0, value, Pow2(off));
    hide Pow2, Wrap;
    WrapSmall(value * Pow2(off), off + w, full);
  }

  lemma ThreeNatural(low: nat, mid: nat, high: nat, off: nat, w: nat)
    ensures 0 <= Three(low, mid, high, off, w)
  {
    MulLe(0, high, Pow2(w));
    MulLe(0, high * Pow2(w) + mid, Pow2(off));
  }

  /** Bitwise operations work on the three parts separately. */
  lemma ApplyThree(op: Logic, al: nat, am: nat, ah: nat, bl: nat, bm: nat, bh: nat, off: nat, w: nat)
    requires IsWord(al, off) && IsWord(bl, off) && IsWord(am, w) && IsWord(bm, w)
    ensures 0 <= Three(al, am, ah, off, w) && 0 <= Three(bl, bm, bh, off, w)
    ensures Apply(op, Three(al, am, ah, off, w), Three(bl, bm, bh, off, w))
         == Three(Apply(op, al, bl), Apply(op, am, bm), Apply(op, ah, bh), off, w)
  {
    hide Apply, Pow2;
    ThreeNatural(al, am, ah, off, w);
    ThreeNatural(bl, bm, bh, off, w);
    MulLe(0, ah, Pow2(w));
    MulLe(0, bh, Pow2(w));
    ApplyParts(op, ah * Pow2(w) + am, al, bh * Pow2(w) + bm, bl, off);
    ApplyParts(op, ah, am, bh, bm, w);
  }

  /** The complement of the mask, by parts. */
  lemma MaskParts(full: nat, off: nat, w: nat)
    requires 1 <= w && off + w <= full
    ensures var mask := PartialWriteMask(full, w, off);
      && mask == Three(0, Pow2(w) - 1, 0, off, w) && 0 < mask < Pow2(full)
      && Pow2(full) - 1 - mask == Three(Pow2(off) - 1, 0, Pow2(full - off - w) - 1, off, w)
  {
    var r := full - off - w;
    Pow2Lt(0, w);
    MovedUp(Pow2(w) - 1, off, w, full);
    Pow2Add(off, w);
    Pow2Add(r, off + w);
    hide Wrap, Pow2;
    ComplementStep(Pow2(off), Pow2(w), Pow2(r));
    MulLe(1, Pow2(w) - 1, Pow2(off));
  }

  lemma ComplementStep(o: int, w: int, r: int)
    ensures r * (o * w) - 1 - (w - 1) * o == ((r - 1) * w + 0) * o + (o - 1)
  {
    assert ((r - 1) * w) * o == (r * w) * o - w * o;
    assert (r * w) * o == r * (w * o);
  }

  /** The mask is empty exactly for the ranges that are not inside the value. */
  lemma MaskExactly(full: nat, off: nat, w: nat)
    ensures PartialWriteMask(full, w, off) == if 1 <= w && off + w <= full then (Pow2(w) - 1) * Pow2(off) else 0
    ensures PartialWriteMask(full, w, off) != 0 <==> 1 <= w && off + w <= full
  {
    hide Pow2, Wrap;
    if 1 <= w && off + w <= full { MaskParts(full, off, w); }
  }

  /** The shift-and-mask code writes the range and nothing else, and it is
      emitted exactly for the ranges inside the value. */
  lemma LowerInsertExactly(full: nat, w: nat, off: nat, base: nat, value: nat)
    requires full < 0x1_0000_0000 && off < 0x1_0000_0000_0000_0000 && ParseAccepts(full, w, off)
    requires IsWord(base, full) && IsWord(value, w)
    ensures LowerInsert(full, w, off, base, value).Some? <==> off + w <= full
    ensures off + w <= full ==> LowerInsert(full, w, off, base, value) == Some(Splice(base, off, w, value))
  {
    ParseAcceptsExactly(full, w, off);
    hide ParseAccepts;
    if off + w <= full {
      if off == 0 && w == full {
        InsertWhole(full, base, value);
      } else {
        InsertPart(full, w, off, base, value);
      }
    }
  }

  lemma InsertWhole(full: nat, base: nat, value: nat)
    requires IsWord(base, full) && IsWord(value, full)
    ensures Splice(base, 0, full, value) == value
  {
    ShrNothing(base);
    WrapSmall(base, full, full);
    WrapSmall(value, full, full);
  }

  lemma InsertPart(full: nat, w: nat, off: nat, base: nat, value: nat)
    requires 1 <= w && off + w <= full && IsWord(base, full) && IsWord(value, w)
    requires !(off == 0 && w == full)
    ensures LowerInsert(full, w, off, base, value) == Some(Splice(base, off, w, value))
  {
    hide Pow2, Three, Splice, Slice, Shr, Wrap, Apply, PartialWriteMask;
    var r := full - off - w;
    MaskParts(full, off, w);
    MovedUp(value, off, w, full);
    NotMoved(value, full);
    WordByHigh(base, off + w, full);
    PartsOf(base, off, w);
    SliceIsWord(base, off, w);
    SpliceParts(base, off, w, value);
    WrapSmall(value, w, w);
    var l, m, h := Wrap(base, off), Slice(base, off, w), Shr(base, off + w);
    assert IsWord(l, off);
    AndMask(value, off, w);
    AndComplement(l, m, h, off, w, r);
    OrParts(l, h, value, off, w);
  }

  lemma NotMoved(value: int, full: nat)
    ensures Wrap(Wrap(value, full) * Pow2(0), full) == Wrap(value, full)
  {
    WrapWrap(value, full, full);
  }

  lemma AndMask(value: nat, off: nat, w: nat)
    requires IsWord(value, w)
    ensures 0 <= Three(0, value, 0, off, w) && 0 <= Three(0, Pow2(w) - 1, 0, off, w)
    ensures Apply(And, Three(0, value, 0, off, w), Three(0, Pow2(w) - 1, 0, off, w)) == Three(0, value, 0, off, w)
  {
    ApplyThree(And, 0, value, 0, 0, Pow2(w) - 1, 0, off, w);
    AndOnes(value, w);
    WrapSmall(value, w, w);
    ApplyZero(And, 0);
  }

  lemma AndComplement(l: nat, m: nat, h: nat, off: nat, w: nat, r: nat)
    requires IsWord(l, off) && IsWord(m, w) && IsWord(h, r)
    ensures 0 <= Three(l, m, h, off, w) && 0 <= Three(Pow2(off) - 1, 0, Pow2(r) - 1, off, w)
    ensures Apply(And, Three(l, m, h, off, w), Three(Pow2(off) - 1, 0, Pow2(r) - 1, off, w)) == Three(l, 0, h, off, w)
  {
    ApplyThree(And, l, m, h, Pow2(off) - 1, 0, Pow2(r) - 1, off, w);
    AndOnes(l, off);
    AndOnes(h, r);
    WrapSmall(l, off, off);
    WrapSmall(h, r, r);
    ApplyZero(And, m);
  }

  lemma OrParts(l: nat, h: nat, value: nat, off: nat, w: nat)
    requires IsWord(l, off) && IsWord(value, w)
    ensures 0 <= Three(l, 0, h, off, w) && 0 <= Three(0, value, 0, off, w)
    ensures Apply(Or, Three(l, 0, h, off, w), Three(0, value, 0, off, w)) == Three(l, value, h, off, w)
  {
    ApplyThree(Or, l, 0, h, 0, value, 0, off, w);
    ApplyZero(Or, l);
    ApplyZero(Or, value);
    ApplyZero(Or, h);
  }

  // ----- finding an inserted piece ------------------------------------------------------------

  datatype Source =
    | Constant(width: nat, bits: nat)
    | Computed(width: nat, bits: nat)
    | Insert(base: Source, full: nat, w: nat, off: nat, value: nat)

  function Width(s: Source): nat {
    match s
    case Constant(width, _) => width
    case Computed(width, _) => width
    case Insert(_, full, _, _, _) => full
  }

  predicate WellFormed(s: Source) {
    match s
    case Constant(width, bits) => IsWord(bits, width)
    case Computed(width, bits) => IsWord(bits, width)
    case Insert(base, full, w, off, value) =>
      WellFormed(base) && Width(base) == full && 1 <= w && off + w <= full && IsWord(value, w)
  }

  function Value(s: Source): int {
    match s
    case Constant(_, bits) => bits
    case Computed(_, bits) => bits
    case Insert(base, _, w, off, value) => Splice(Value(base), off, w, value)
  }

  predicate RangesOverlap(a: nat, aWidth: nat, b: nat, bWidth: nat) {
    a < b + bWidth && b < a + aWidth
  }

  function FindInsertedPiece(s: Source, full: nat, off: nat, w: nat): Option<nat> {
    match s
    case Constant(width, bits) => if bits == 0 && width == full then Some(0) else None
    case Computed(_, _) => None
    case Insert(base, insertFull, insertW, insertOff, value) =>
      if insertFull != full then None
      else if insertOff <= off && off + w <= insertOff + insertW then
        if off == insertOff && w == insertW then Some(value) else None
      else if RangesOverlap(off, w, insertOff, insertW) then None
      else FindInsertedPiece(base, full, off, w)
  }

  /** A piece found below any number of inserts is the slice of the whole chain. */
  lemma {:induction false} FoundPieceIsSlice(s: Source, full: nat, off: nat, w: nat)
    requires WellFormed(s) && 1 <= w && FindInsertedPiece(s, full, off, w).Some?
    ensures FindInsertedPiece(s, full, off, w).value == Slice(Value(s), off, w)
  {
    hide Slice, Splice, Pow2, Wrap;
    match s
    case Constant(_, _) => SliceOfZero(off, w);
    case Insert(base, _, insertW, insertOff, value) =>
      SliceOfSplice(Value(base), insertOff, insertW, value, off, w);
      WrapSmall(value, insertW, insertW);
      if !(off == insertOff && w == insertW) {
        FoundPieceIsSlice(base, full, off, w);
      }
  }

  function Inserts(s: Source): nat {
    if s.Insert? then 1 + Inserts(s.base) else 0
  }

  /** The chain below its n outermost inserts. */
  function Below(s: Source, n: nat): Source
    requires n <= Inserts(s)
  {
    if n == 0 then s else Below(s.base, n - 1)
  }

  /** The range is a piece of its own at the top of the chain: inserted as such, or
      part of a zero of the full width. */
  predicate IsPiece(s: Source, full: nat, off: nat, w: nat) {
    (s.Insert? && s.full == full && s.off == off && s.w == w) || s == Constant(full, 0)
  }

  /** The insert at the top of the chain does not meet the range. */
  predicate Misses(s: Source, full: nat, off: nat, w: nat) {
    s.Insert? && s.full == full && (off + w <= s.off || s.off + s.w <= off)
  }

  ghost predicate PieceBelow(s: Source, full: nat, off: nat, w: nat, n: nat) {
    && n <= Inserts(s) && IsPiece(Below(s, n), full, off, w)
    && forall i: nat :: i < n ==> Misses(Below(s, i), full, off, w)
  }

  /** The search finds exactly the pieces that lie below inserts that miss them. */
  lemma {:induction false} FoundExactly(s: Source, full: nat, off: nat, w: nat)
    requires WellFormed(s) && 1 <= w
    ensures FindInsertedPiece(s, full, off, w).Some? <==> exists n: nat :: PieceBelow(s, full, off, w, n)
    decreases s
  {
    if s.Insert? {
      FoundExactly(s.base, full, off, w);
      if n: nat :| PieceBelow(s, full, off, w, n) {
        if n == 0 {
          assert IsPiece(Below(s, 0), full, off, w);
        } else {
          assert Misses(Below(s, 0), full, off, w);
          assert forall i: nat :: i < n - 1 ==> Below(s, i + 1) == Below(s.base, i);
          assert PieceBelow(s.base, full, off, w, n - 1);
        }
      }
      if FindInsertedPiece(s, full, off, w).Some? {
        if s.off == off && s.w == w {
          assert PieceBelow(s, full, off, w, 0);
        } else {
          var n: nat :| PieceBelow(s.base, full, off, w, n);
          assert forall i: nat :: i < n + 1 ==> Below(s, i) == if i == 0 then s else Below(s.base, i - 1);
          assert PieceBelow(s, full, off, w, n + 1);
        }
      }
    } else {
      if FindInsertedPiece(s, full, off, w).Some? { assert PieceBelow(s, full, off, w, 0); }
      if n: nat :| PieceBelow(s, full, off, w, n) { assert Below(s, n) == s; }
    }
  }

  lemma SliceOfZero(off: nat, w: nat)
    ensures Slice(0, off, w) == 0
  {
    ModSmall(0, Pow2(off));
    ModSmall(0, Pow2(w));
  }

  /** trunc of a chain, or of a chain shifted right by a constant. */
  function SimplifyInsertedExtract(s: Source, shift: Option<nat>, w: nat): Option<nat> {
    var off := if shift.Some? then shift.value else 0;
    var full := Width(s);
    if w == 0 || w >= full || off >= full || w > full - off then None
    else FindInsertedPiece(s, full, off, w)
  }

  /** A truncation is simplified exactly if it is narrower than the chain and reads such
      a piece of it. */
  lemma SimplifiedExactly(s: Source, shift: Option<nat>, w: nat)
    requires WellFormed(s)
    ensures var off := if shift.Some? then shift.value else 0;
      SimplifyInsertedExtract(s, shift, w).Some? <==>
        0 < w < Width(s) && off + w <= Width(s) && exists n: nat :: PieceBelow(s, Width(s), off, w, n)
  {
    hide FindInsertedPiece, PieceBelow;
    if 0 < w { FoundExactly(s, Width(s), if shift.Some? then shift.value else 0, w); }
  }

  lemma SimplifiedExtractIsTruncation(s: Source, shift: Option<nat>, w: nat)
    requires WellFormed(s) && SimplifyInsertedExtract(s, shift, w).Some?
    ensures SimplifyInsertedExtract(s, shift, w).value
         == Wrap(if shift.Some? then Shr(Value(s), shift.value) else Value(s), w)
  {
    FoundPieceIsSlice(s, Width(s), if shift.Some? then shift.value else 0, w);
    ShrNothing(Value(s));
  }
}
