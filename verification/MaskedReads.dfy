/** Narrowing a register read whose users all mask it with constants. */
module MaskedReads {
  import opened Bits
  import opened Bitwise
  import opened RegisterRange
  import opened RegisterUnits
  import opened RegisterStorage
  import opened Wrappers

  /** The number of bits up to the highest one that is set. */
  function ActiveBits(v: nat): nat {
    if v == 0 then 0 else 1 + ActiveBits(v / 2)
  }

  lemma {:induction false} ActiveBitsExactly(v: nat, k: nat)
    ensures ActiveBits(v) <= k <==> IsWord(v, k)
    decreases k
  {
    if v != 0 && k != 0 {
      ActiveBitsExactly(v / 2, k - 1);
    }
  }

  /** The bits that some mask lets through. */
  function Union(masks: seq<nat>): nat {
    if masks == [] then 0 else Apply(Or, masks[0], Union(masks[1..]))
  }

  lemma {:induction false} OrFits(a: nat, b: nat, k: nat)
    ensures IsWord(Apply(Or, a, b), k) <==> IsWord(a, k) && IsWord(b, k)
    decreases k, a + b
  {
    ApplyStep(Or, a, b);
    if k != 0 {
      OrFits(a / 2, b / 2, k - 1);
    } else if a != 0 || b != 0 {
      OrFits(a / 2, b / 2, 0);
    }
  }

  lemma {:induction false} UnionFits(masks: seq<nat>, k: nat)
    ensures IsWord(Union(masks), k) <==> forall m :: m in masks ==> IsWord(m, k)
    decreases |masks|
  {
    hide Apply;
    if masks == [] {
      Pow2Le(0, k);
    } else {
      OrFits(masks[0], Union(masks[1..]), k);
      UnionFits(masks[1..], k);
    }
  }

  /** The width the read is narrowed to, if narrowing is worth it. */
  function NarrowBits(masks: seq<nat>, width: nat): Option<nat> {
    var needed := ActiveBits(Union(masks));
    if width <= 8 || masks == [] || needed == 0 || needed >= width then None
    else
      var narrow := if needed <= 8 then 8 else if needed <= 16 then 16 else if needed <= 32 then 32 else 64;
      if narrow >= width then None else Some(narrow)
  }

  lemma UnionBelow(masks: seq<nat>, k: nat)
    ensures ActiveBits(Union(masks)) <= k <==> forall m :: m in masks ==> m < Pow2(k)
    ensures Pow2(0) == 1
  {
    hide ActiveBits, Union;
    ActiveBitsExactly(Union(masks), k);
    UnionFits(masks, k);
  }

  /** A read is narrowed to n bits exactly when n is one of the four widths below
      its own, some mask lets a bit through, no mask needs the top bit of the
      read, and n is the least of the widths that hold all masks, or 64. */
  lemma NarrowedExactly(masks: seq<nat>, width: nat, n: nat)
    ensures NarrowBits(masks, width) == Some(n) <==>
              && (n == 8 || n == 16 || n == 32 || n == 64) && n < width
              && (exists m :: m in masks && m != 0)
              && (forall m :: m in masks ==> m < Pow2(width - 1))
              && (n < 64 ==> forall m :: m in masks ==> m < Pow2(n))
              && (8 < n ==> exists m :: m in masks && Pow2(n / 2) <= m)
  {
    hide Pow2, ActiveBits, Union, IsWord;
    if 8 < width {
      UnionBelow(masks, width - 1);
    }
    if n == 8 || n == 16 || n == 32 || n == 64 {
      UnionBelow(masks, n);
      UnionBelow(masks, n / 2);
    }
    UnionBelow(masks, 0);
  }

  /** Masking sees only the low k bits of a value exactly when the mask has no
      bit above them. */
  lemma MaskSeesLowBits(m: nat, k: nat)
    ensures IsWord(m, k) <==> forall v: nat :: Apply(And, v, m) == Apply(And, Wrap(v, k), m)
  {
    hide Apply, Wrap, Pow2;
    if IsWord(m, k) {
      forall v: nat
        ensures Apply(And, v, m) == Apply(And, Wrap(v, k), m)
      {
        MaskedLowBits(v, m, k);
      }
    }
    if forall v: nat :: Apply(And, v, m) == Apply(And, Wrap(v, k), m) {
      AndSelf(m);
      AndBelow(Wrap(m, k), m, k);
      assert Apply(And, m, m) == Apply(And, Wrap(m, k), m);
    }
  }

  lemma MaskedLowBits(v: nat, m: nat, k: nat)
    requires IsWord(m, k)
    ensures Apply(And, v, m) == Apply(And, Wrap(v, k), m)
  {
    hide Apply;
    ApplySplit(And, v, m, k);
    ModSmall(m, Pow2(k));
    ApplyZero(And, Shr(v, k));
  }

  lemma {:induction false} AndSelf(m: nat)
    ensures Apply(And, m, m) == m
  {
    if m != 0 { AndSelf(m / 2); }
  }

  lemma AndBelow(a: nat, m: nat, k: nat)
    requires IsWord(a, k)
    ensures IsWord(Apply(And, a, m), k)
  {
    hide Apply;
    ApplySplit(And, a, m, k);
    ModSmall(a, Pow2(k));
    ApplyZero(And, Shr(m, k));
  }

  /** When a width is chosen, every user computes the same masked value from the
      narrowed read exactly when the masks need no bit above bit 63: the widest
      choice is 64 bits even if more are needed. */
  lemma NarrowedReadMasksAlike(masks: seq<nat>, width: nat)
    requires NarrowBits(masks, width).Some?
    ensures ActiveBits(Union(masks)) <= 64 <==>
              forall m, v: nat :: m in masks ==>
                Apply(And, v, m) == Apply(And, Wrap(v, NarrowBits(masks, width).value), m)
  {
    var narrow := NarrowBits(masks, width).value;
    assert ActiveBits(Union(masks)) <= 64 <==> ActiveBits(Union(masks)) <= narrow;
    hide Apply, Wrap, NarrowBits, IsWord, ActiveBits, Union;
    ActiveBitsExactly(Union(masks), narrow);
    UnionFits(masks, narrow);
    forall m | m in masks
      ensures IsWord(m, narrow) <==> forall v: nat :: Apply(And, v, m) == Apply(And, Wrap(v, narrow), m)
    {
      MaskSeesLowBits(m, narrow);
    }
  }

  /** A 128-bit register masked with bit 64 alone is narrowed to 64 bits. */
  lemma WideMaskBreaks()
    ensures NarrowBits([Pow2(64)], 128) == Some(64)
    ensures Apply(And, Pow2(64), Pow2(64)) != Apply(And, Wrap(Pow2(64), 64), Pow2(64))
  {
    hide Apply, Pow2, Wrap, ActiveBits, IsWord;
    var m := Pow2(64);
    ApplyZero(Or, m);
    assert Union([m]) == m;
    BitOfPower(64);
    AndSelf(m);
    MultipleWraps(64);
    ApplyZero(And, m);
  }

  lemma BitOfPower(k: nat)
    ensures ActiveBits(Pow2(k)) == k + 1
  {
    Pow2Lt(k, k + 1);
    ActiveBitsExactly(Pow2(k), k);
    ActiveBitsExactly(Pow2(k), k + 1);
  }

  lemma MultipleWraps(k: nat)
    ensures Wrap(Pow2(k), k) == 0
  {
    DivAddMultiple(0, 1, Pow2(k));
    ModSmall(0, Pow2(k));
  }

  /** Fewer bits than the union of the masks would change some user. */
  lemma FewerBitsAreTooFew(masks: seq<nat>, k: nat)
    requires k < ActiveBits(Union(masks))
    ensures exists m, v: nat :: m in masks && Apply(And, v, m) != Apply(And, Wrap(v, k), m)
  {
    hide Apply, Wrap;
    ActiveBitsExactly(Union(masks), k);
    UnionFits(masks, k);
    var m :| m in masks && !IsWord(m, k);
    MaskSeesLowBits(m, k);
  }

  // ----- where the narrow read looks -----------------------------------------------------

  /** The narrowed access keeps the offset and shrinks the size.  In a
      little-endian unit that is the low part of the wide value; in a big-endian
      unit it is the high part. */
  lemma NarrowAccessValue(u: Unit, value: nat, a: Access, n: nat, big: bool)
    requires a.space == u.space && u.offset <= a.offset && a.offset + a.size <= u.offset + u.size && n < a.size
    ensures var wide, narrow := Slice(value, BitOffset(u, a, big), 8 * a.size),
                                Slice(value, BitOffset(u, a.(size := n), big), 8 * n);
      narrow == if big then Slice(wide, 8 * (a.size - n), 8 * n) else Wrap(wide, 8 * n)
  {
    hide Slice, Wrap;
    var at := BitOffset(u, a, big);
    SliceOfSlice(value, at, 8 * a.size, if big then 8 * (a.size - n) else 0, 8 * n);
    LowSlice(Slice(value, at, 8 * a.size), 8 * n);
  }

  lemma LowSlice(v: int, w: nat)
    ensures Slice(v, 0, w) == Wrap(v, w)
  {
    ShrNothing(v);
  }

  /** So the narrowed read is the low part of the wide one, for every content of
      the unit, exactly in little-endian storage. */
  lemma NarrowReadExactly(u: Unit, a: Access, n: nat, big: bool)
    requires a.space == u.space && u.offset <= a.offset && a.offset + a.size <= u.offset + u.size && 0 < n < a.size
    ensures !big <==> forall value: nat ::
              Slice(value, BitOffset(u, a.(size := n), big), 8 * n)
              == Wrap(Slice(value, BitOffset(u, a, big), 8 * a.size), 8 * n)
  {
    hide Slice, Wrap, Pow2, Shr;
    if big {
      var at := BitOffset(u, a, big);
      var value := Pow2(at);
      OneAt(at, 8 * a.size);
      NarrowAccessValue(u, value, a, n, big);
      OneFits(8 * (a.size - n));
      SmallSlice(1, 8 * (a.size - n), 8 * n);
      OneWraps(8 * n);
    } else {
      forall value: nat
        ensures Slice(value, BitOffset(u, a.(size := n), big), 8 * n)
             == Wrap(Slice(value, BitOffset(u, a, big), 8 * a.size), 8 * n)
      {
        NarrowAccessValue(u, value, a, n, big);
      }
    }
  }

  lemma OneAt(at: nat, w: nat)
    requires 0 < w
    ensures Slice(Pow2(at), at, w) == 1
  {
    DivUnique(Pow2(at), Pow2(at), 1);
    OneWraps(w);
  }

  lemma OneFits(w: nat)
    requires 0 < w
    ensures IsWord(1, w)
  {
    Pow2Lt(0, w);
  }

  lemma OneWraps(w: nat)
    requires 0 < w
    ensures Wrap(1, w) == 1
  {
    Pow2Lt(0, w);
    WrapSmall(1, w, w);
  }

  lemma SmallSlice(v: nat, off: nat, w: nat)
    requires IsWord(v, off)
    ensures Slice(v, off, w) == 0
  {
    ModSmall(v, Pow2(off));
    ModSmall(0, Pow2(w));
  }
}
