/** Little-endian base 128 numbers (section 7.6 of DWARF 4), as the exception
    table reader decodes them. */
module Leb128 {
  import opened Bits
  import opened Bitwise
  import opened RegisterRange
  import opened Wrappers

  type Byte = b: nat | b < 0x100

  function Payload(b: Byte): nat { b % 0x80 }

  predicate Continues(b: Byte) { 0x80 <= b }

  // ----- meaning ------------------------------------------------------------------

  /** The first byte at or after from that does not continue. */
  function Terminator(bytes: seq<Byte>, from: nat, end: nat): (t: Option<nat>)
    requires end <= |bytes|
    ensures t.Some? ==> from <= t.value < end && !Continues(bytes[t.value])
    ensures t.Some? ==> forall i :: from <= i < t.value ==> Continues(bytes[i])
    ensures t.None? ==> forall i :: from <= i < end ==> Continues(bytes[i])
    decreases end - from
  {
    if from >= end then None
    else if !Continues(bytes[from]) then Some(from)
    else Terminator(bytes, from + 1, end)
  }

  /** The number whose base 128 digits are the payloads of n bytes, lowest first. */
  function Sum(bytes: seq<Byte>, from: nat, n: nat): nat
    requires from + n <= |bytes|
    decreases n
  {
    if n == 0 then 0 else Payload(bytes[from]) + 0x80 * Sum(bytes, from + 1, n - 1)
  }

  lemma {:induction false} SumAppend(bytes: seq<Byte>, from: nat, n: nat)
    requires from + n < |bytes|
    ensures Sum(bytes, from, n + 1) == Sum(bytes, from, n) + Payload(bytes[from + n]) * Pow2(7 * n)
    decreases n
  {
    if n == 0 {
      assert Sum(bytes, from, 1) == Payload(bytes[from]) + 0x80 * Sum(bytes, from + 1, 0);
    } else {
      SumAppend(bytes, from + 1, n - 1);
      Pow2Seven(n - 1);
      Regroup(Payload(bytes[from + n]), Pow2(7 * (n - 1)));
    }
  }

  lemma Pow2Seven(k: nat)
    ensures Pow2(7 * (k + 1)) == 0x80 * Pow2(7 * k)
  {
    Pow2Values();
    Pow2Add(7, 7 * k);
  }

  lemma Regroup(p: int, q: int)
    ensures 0x80 * (p * q) == p * (0x80 * q)
  {
  }

  lemma {:induction false} SumFits(bytes: seq<Byte>, from: nat, n: nat)
    requires from + n <= |bytes|
    ensures IsWord(Sum(bytes, from, n), 7 * n)
    decreases n
  {
    if n != 0 {
      SumFits(bytes, from + 1, n - 1);
      Pow2Seven(n - 1);
    }
  }

  /** What the unsigned reader answers: the sum modulo 2^64, unless a byte from the
      eleventh on carries bits. */
  function DecodeUnsigned(bytes: seq<Byte>, from: nat, end: nat): Option<(nat, nat)>
    requires end <= |bytes|
  {
    var t := Terminator(bytes, from, end);
    if t.None? || (exists i :: from + 10 <= i <= t.value && Payload(bytes[i]) != 0) then None
    else Some((Wrap(Sum(bytes, from, t.value + 1 - from), 64), t.value + 1))
  }

  /** The two's complement number of n bytes. */
  function SignedSum(bytes: seq<Byte>, from: nat, n: nat): int
    requires 0 < n && from + n <= |bytes|
  {
    if 0x40 <= Payload(bytes[from + n - 1]) then Sum(bytes, from, n) - Pow2(7 * n) else Sum(bytes, from, n)
  }

  /** What the signed reader answers: at most ten bytes, wrapped to 64 bits. */
  function DecodeSigned(bytes: seq<Byte>, from: nat, end: nat): Option<(int, nat)>
    requires end <= |bytes|
  {
    var t := Terminator(bytes, from, end);
    if t.None? || from + 10 <= t.value then None
    else Some((ToSigned(Wrap(SignedSum(bytes, from, t.value + 1 - from), 64), 64), t.value + 1))
  }

  // ----- the readers ----------------------------------------------------------------

  /** Setting bits above all those that are set adds them. */
  lemma OrIsSum(low: nat, high: nat, s: nat)
    requires IsWord(low, s)
    ensures 0 <= high * Pow2(s) && Apply(Or, low, high * Pow2(s)) == low + high * Pow2(s)
  {
    hide Apply, Pow2;
    ApplyParts(Or, 0, low, high, 0, s);
    ApplyZero(Or, low);
    ApplyZero(Or, high);
    MulZero(Pow2(s));
  }

  lemma MulZero(p: int)
    ensures 0 * p == 0
  {
  }

  /** One more digit, in 64 bits. */
  lemma AddDigit(sum: nat, p: nat, s: nat)
    requires IsWord(sum, s) && s < 64
    ensures Apply(Or, sum, Wrap(p * Pow2(s), 64)) == Wrap(sum + p * Pow2(s), 64)
  {
    hide Apply, Pow2, Wrap;
    ShlLow(p, s, 64);
    OrIsSum(sum, Wrap(p, 64 - s), s);
    AddedBelow(sum, p, s);
  }

  lemma AddedBelow(sum: nat, p: nat, s: nat)
    requires IsWord(sum, s) && s < 64
    ensures Wrap(sum + p * Pow2(s), 64) == sum + Wrap(p, 64 - s) * Pow2(s)
  {
    hide Pow2;
    ModSplit(sum + p * Pow2(s), s, 64 - s);
    DivAddMultiple(sum, p, Pow2(s));
    ModSmall(sum, Pow2(s));
  }

  method ReadUleb128(bytes: seq<Byte>, from: nat, end: nat) returns (ok: bool, value: nat, offset: nat)
    requires end <= |bytes|
    ensures ok <==> DecodeUnsigned(bytes, from, end).Some?
    ensures ok ==> DecodeUnsigned(bytes, from, end) == Some((value, offset))
  {
    hide Wrap, Pow2, Apply, Sum;
    value, offset := 0, from;
    ghost var t := Terminator(bytes, from, end);
    var shift := 0;
    NoDigits(bytes, from);
    while offset < end
      invariant from <= offset && (offset <= end || offset == from)
      invariant shift == 7 * (offset - from)
      invariant forall i :: from <= i < offset ==> Continues(bytes[i])
      invariant forall i :: from + 10 <= i < offset ==> Payload(bytes[i]) == 0
      invariant offset <= end ==> value == Wrap(Sum(bytes, from, offset - from), 64)
      decreases end - offset
    {
      var byte := bytes[offset];
      offset := offset + 1;
      if shift >= 64 && Payload(byte) != 0 {
        return false, value, offset;
      }
      NextDigit(bytes, from, offset - 1, value);
      value := Apply(Or, value, if shift < 64 then Wrap(Payload(byte) * Pow2(shift), 64) else 0);
      if !Continues(byte) {
        assert t == Some(offset - 1);
        return true, value, offset;
      }
      shift := shift + 7;
    }
    ok := false;
  }

  lemma NoDigits(bytes: seq<Byte>, from: nat)
    ensures from <= |bytes| ==> Wrap(Sum(bytes, from, 0), 64) == 0
  {
    ModSmall(0, Pow2(64));
  }

  lemma NextDigit(bytes: seq<Byte>, from: nat, at: nat, value: nat)
    requires from <= at < |bytes| && value == Wrap(Sum(bytes, from, at - from), 64)
    requires 64 <= 7 * (at - from) ==> Payload(bytes[at]) == 0
    ensures Apply(Or, value, if 7 * (at - from) < 64 then Wrap(Payload(bytes[at]) * Pow2(7 * (at - from)), 64) else 0)
         == Wrap(Sum(bytes, from, at + 1 - from), 64)
  {
    hide Pow2, Apply, Sum, Wrap;
    var n := at - from;
    SumAppend(bytes, from, n);
    SumFits(bytes, from, n);
    if 7 * n < 64 {
      WrapSmall(Sum(bytes, from, n), 7 * n, 64);
      AddDigit(Sum(bytes, from, n), Payload(bytes[at]), 7 * n);
    } else {
      ApplyZero(Or, value);
      MulZero(Pow2(7 * n));
    }
  }

  method ReadSleb128(bytes: seq<Byte>, from: nat, end: nat) returns (ok: bool, value: int, offset: nat)
    requires end <= |bytes|
    ensures ok <==> DecodeSigned(bytes, from, end).Some?
    ensures ok ==> DecodeSigned(bytes, from, end) == Some((value, offset))
  {
    hide Wrap, Pow2, Apply, Sum, SignedSum, ToSigned;
    var pattern: nat := 0;
    offset := from;
    ghost var t := Terminator(bytes, from, end);
    var shift, byte: Byte := 0, 0;
    NoDigits(bytes, from);
    while true
      invariant from <= offset && (offset <= end || offset == from)
      invariant shift == 7 * (offset - from)
      invariant forall i :: from <= i < offset ==> Continues(bytes[i])
      invariant offset <= end ==> pattern == Wrap(Sum(bytes, from, offset - from), 64)
      decreases end - offset
    {
      if offset >= end || shift >= 64 {
        return false, 0, offset;
      }
      byte := bytes[offset];
      NextDigit(bytes, from, offset, pattern);
      pattern := Apply(Or, pattern, Wrap(Payload(byte) * Pow2(shift), 64));
      offset := offset + 1;
      shift := shift + 7;
      if !Continues(byte) {
        break;
      }
    }
    assert t == Some(offset - 1);
    SignExtends(bytes, from, offset - from, pattern);
    if shift < 64 && 0x40 <= Payload(byte) {
      Pow2Below(shift);
      pattern := Apply(Or, pattern, Pow2(64) - Pow2(shift));
    }
    ok, value := true, ToSigned(pattern, 64);
  }

  lemma Pow2Below(s: nat)
    requires s < 64
    ensures Pow2(s) <= Pow2(64)
  {
    Pow2Le(s, 64);
  }

  /** Filling the bits above the last digit with its sign. */
  lemma SignExtends(bytes: seq<Byte>, from: nat, n: nat, pattern: nat)
    requires 0 < n && from + n <= |bytes| && pattern == Wrap(Sum(bytes, from, n), 64)
    ensures 7 * n < 64 ==> 0 <= Pow2(64) - Pow2(7 * n)
    ensures (if 7 * n < 64 && 0x40 <= Payload(bytes[from + n - 1])
             then Apply(Or, pattern, Pow2(64) - Pow2(7 * n)) else pattern)
         == Wrap(SignedSum(bytes, from, n), 64)
  {
    hide Apply, Sum, Wrap, Pow2;
    var sum, s := Sum(bytes, from, n), 7 * n;
    SumFits(bytes, from, n);
    if s < 64 {
      Pow2Below(s);
      WrapSmall(sum, s, 64);
      if 0x40 <= Payload(bytes[from + n - 1]) {
        Pow2Add(64 - s, s);
        FillAbove(sum, Pow2(64 - s), Pow2(s));
        OrIsSum(sum, Pow2(64 - s) - 1, s);
        WrapNegative(sum - Pow2(s), 64);
      }
    } else if 0x40 <= Payload(bytes[from + n - 1]) {
      Pow2Add(s - 64, 64);
      WrapMultiple(sum, Pow2(s - 64));
    }
  }

  lemma FillAbove(sum: int, high: int, p: int)
    ensures (high - 1) * p == high * p - p
  {
  }

  lemma WrapMultiple(v: int, k: int)
    ensures Wrap(v - k * Pow2(64), 64) == Wrap(v, 64)
  {
    ModShift(v - k * Pow2(64), v, Pow2(64), k);
  }

  // ----- encoding -------------------------------------------------------------------------

  function EncodeUnsigned(v: nat): (e: seq<Byte>)
    ensures e != []
  {
    if v < 0x80 then [v] else [v % 0x80 + 0x80] + EncodeUnsigned(v / 0x80)
  }

  function EncodeSigned(v: int): (e: seq<Byte>)
    ensures e != []
    decreases if v < 0 then -v else v
  {
    var digit, rest := v % 0x80, v / 0x80;
    if (rest == 0 && digit < 0x40) || (rest == -1 && 0x40 <= digit) then [digit]
    else [digit + 0x80] + EncodeSigned(rest)
  }

  lemma {:induction false} UnsignedLength(v: nat, n: nat)
    requires 0 < n && IsWord(v, 7 * n)
    ensures |EncodeUnsigned(v)| <= n
    decreases n
  {
    if 0x80 <= v {
      if n == 1 { Pow2Values(); }
      Pow2Seven(n - 1);
      UnsignedLength(v / 0x80, n - 1);
    }
  }

  lemma {:induction false} SignedLength(v: int, n: nat)
    requires 0 < n && IsSigned(v, 7 * n)
    ensures |EncodeSigned(v)| <= n
    decreases n
  {
    if n == 1 {
      assert Pow2(6) == 0x40;
    } else {
      Pow2Values();
      Pow2Add(7, 7 * n - 8);
      SignedLength(v / 0x80, n - 1);
    }
  }

  /** The bytes of an encoding, wherever they stand, end where it ends and carry
      its digits. */
  lemma {:induction false} EncodedUnsigned(bytes: seq<Byte>, from: nat, end: nat, v: nat)
    requires from + |EncodeUnsigned(v)| <= end <= |bytes|
    requires bytes[from..from + |EncodeUnsigned(v)|] == EncodeUnsigned(v)
    ensures Terminator(bytes, from, end) == Some(from + |EncodeUnsigned(v)| - 1)
    ensures Sum(bytes, from, |EncodeUnsigned(v)|) == v
    decreases v
  {
    var e := EncodeUnsigned(v);
    assert bytes[from] == e[0];
    if 0x80 <= v {
      assert bytes[from + 1..from + |e|] == e[1..];
      EncodedUnsigned(bytes, from + 1, end, v / 0x80);
    } else {
      assert Sum(bytes, from + 1, 0) == 0;
    }
  }

  lemma {:induction false} EncodedSigned(bytes: seq<Byte>, from: nat, end: nat, v: int)
    requires from + |EncodeSigned(v)| <= end <= |bytes|
    requires bytes[from..from + |EncodeSigned(v)|] == EncodeSigned(v)
    ensures Terminator(bytes, from, end) == Some(from + |EncodeSigned(v)| - 1)
    ensures SignedSum(bytes, from, |EncodeSigned(v)|) == v
    decreases if v < 0 then -v else v
  {
    hide Pow2, Sum, SignedSum;
    var e := EncodeSigned(v);
    assert bytes[from] == e[0];
    var digit, rest := v % 0x80, v / 0x80;
    if (rest == 0 && digit < 0x40) || (rest == -1 && 0x40 <= digit) {
      SignedSumOne(bytes, from);
    } else {
      assert bytes[from + 1..from + |e|] == e[1..];
      EncodedSigned(bytes, from + 1, end, rest);
      SignedSumStep(bytes, from, |e|);
    }
  }

  lemma SignedSumOne(bytes: seq<Byte>, from: nat)
    requires from < |bytes|
    ensures var p := Payload(bytes[from]); SignedSum(bytes, from, 1) == if 0x40 <= p then p - 0x80 else p
  {
    Pow2Values();
    assert Sum(bytes, from + 1, 0) == 0;
  }

  lemma SignedSumStep(bytes: seq<Byte>, from: nat, n: nat)
    requires 1 < n && from + n <= |bytes|
    ensures SignedSum(bytes, from, n) == Payload(bytes[from]) + 0x80 * SignedSum(bytes, from + 1, n - 1)
  {
    hide Pow2;
    Pow2Seven(n - 1);
  }

  /** Every unsigned 64-bit value comes back, with exactly its bytes consumed. */
  lemma UnsignedRoundTrip(prefix: seq<Byte>, v: nat, suffix: seq<Byte>, end: nat)
    requires IsWord(v, 64)
    requires |prefix| + |EncodeUnsigned(v)| <= end <= |prefix| + |EncodeUnsigned(v)| + |suffix|
    ensures DecodeUnsigned(prefix + EncodeUnsigned(v) + suffix, |prefix|, end)
         == Some((v, |prefix| + |EncodeUnsigned(v)|))
  {
    hide Pow2, Sum, EncodeUnsigned;
    var bytes := prefix + EncodeUnsigned(v) + suffix;
    assert bytes[|prefix|..|prefix| + |EncodeUnsigned(v)|] == EncodeUnsigned(v);
    EncodedUnsigned(bytes, |prefix|, end, v);
    Pow2Le(64, 70);
    UnsignedLength(v, 10);
    WrapSmall(v, 64, 64);
  }

  /** Every signed 64-bit value comes back, with exactly its bytes consumed. */
  lemma SignedRoundTrip64(prefix: seq<Byte>, v: int, suffix: seq<Byte>, end: nat)
    requires IsSigned(v, 64)
    requires |prefix| + |EncodeSigned(v)| <= end <= |prefix| + |EncodeSigned(v)| + |suffix|
    ensures DecodeSigned(prefix + EncodeSigned(v) + suffix, |prefix|, end)
         == Some((v, |prefix| + |EncodeSigned(v)|))
  {
    hide Pow2, SignedSum, EncodeSigned;
    var bytes := prefix + EncodeSigned(v) + suffix;
    assert bytes[|prefix|..|prefix| + |EncodeSigned(v)|] == EncodeSigned(v);
    EncodedSigned(bytes, |prefix|, end, v);
    Pow2Le(63, 69);
    SignedLength(v, 10);
    WrapSigned(v, 64);
  }

  // ----- padded encodings -------------------------------------------------------------------

  lemma RestFits(v: nat, n: nat)
    requires 1 < n && IsWord(v, 7 * n)
    ensures IsWord(v / 0x80, 7 * (n - 1))
  {
    Pow2Seven(n - 1);
  }

  /** The number in exactly n bytes. */
  function PaddedUnsigned(v: nat, n: nat): (e: seq<Byte>)
    requires 0 < n && IsWord(v, 7 * n)
    ensures |e| == n
    decreases n
  {
    if n == 1 then Pow2Values(); [v]
    else RestFits(v, n); [v % 0x80 + 0x80] + PaddedUnsigned(v / 0x80, n - 1)
  }

  lemma {:induction false} PaddedMeaning(bytes: seq<Byte>, from: nat, end: nat, v: nat, n: nat, k: nat)
    requires 0 < n && IsWord(v, 7 * n) && from + n <= end <= |bytes|
    requires bytes[from..from + n] == PaddedUnsigned(v, n) && v < Pow2(7 * k)
    ensures Terminator(bytes, from, end) == Some(from + n - 1) && Sum(bytes, from, n) == v
    ensures forall i :: from + k <= i < from + n ==> Payload(bytes[i]) == 0
    decreases n
  {
    hide Pow2;
    var e := PaddedUnsigned(v, n);
    assert bytes[from] == e[0];
    PaddedDigits(v, n, k);
    if n == 1 {
      assert Sum(bytes, from + 1, 0) == 0;
    } else {
      RestFits(v, n);
      assert bytes[from + 1..from + n] == e[1..];
      PaddedMeaning(bytes, from + 1, end, v / 0x80, n - 1, if k == 0 then 0 else k - 1);
    }
  }

  lemma PaddedDigits(v: nat, n: nat, k: nat)
    requires 0 < n && IsWord(v, 7 * n) && v < Pow2(7 * k)
    ensures n == 1 ==> v < 0x80
    ensures if k == 0 then v == 0 else v / 0x80 < Pow2(7 * (k - 1))
    ensures k == 0 ==> v < Pow2(0)
  {
    Pow2Values();
    if k != 0 { Pow2Seven(k - 1); }
  }

  /** Every unsigned 64-bit value comes back from an encoding of any length that
      holds it: zero digits at its end are not refused. */
  lemma PaddedRoundTrip(prefix: seq<Byte>, v: nat, n: nat, suffix: seq<Byte>, end: nat)
    requires IsWord(v, 64) && 0 < n && IsWord(v, 7 * n)
    requires |prefix| + n <= end <= |prefix| + n + |suffix|
    ensures DecodeUnsigned(prefix + PaddedUnsigned(v, n) + suffix, |prefix|, end) == Some((v, |prefix| + n))
  {
    hide Pow2, Sum, PaddedUnsigned;
    var bytes := prefix + PaddedUnsigned(v, n) + suffix;
    assert bytes[|prefix|..|prefix| + n] == PaddedUnsigned(v, n);
    Pow2Le(64, 70);
    PaddedMeaning(bytes, |prefix|, end, v, n, 10);
    WrapSmall(v, 64, 64);
  }

  lemma SignedRestFits(v: int, n: nat)
    requires 1 < n && IsSigned(v, 7 * n)
    ensures IsSigned(v / 0x80, 7 * (n - 1))
  {
    Pow2Values();
    Pow2Add(7, 7 * n - 8);
  }

  /** The signed number in exactly n bytes. */
  function PaddedSigned(v: int, n: nat): (e: seq<Byte>)
    requires 0 < n && IsSigned(v, 7 * n)
    ensures |e| == n
    decreases n
  {
    if n == 1 then [v % 0x80]
    else SignedRestFits(v, n); [v % 0x80 + 0x80] + PaddedSigned(v / 0x80, n - 1)
  }

  lemma {:induction false} PaddedSignedMeaning(bytes: seq<Byte>, from: nat, end: nat, v: int, n: nat)
    requires 0 < n && IsSigned(v, 7 * n) && from + n <= end <= |bytes|
    requires bytes[from..from + n] == PaddedSigned(v, n)
    ensures Terminator(bytes, from, end) == Some(from + n - 1) && SignedSum(bytes, from, n) == v
    decreases n
  {
    hide Sum, SignedSum;
    var e := PaddedSigned(v, n);
    assert bytes[from] == e[0];
    if n == 1 {
      assert Pow2(6) == 0x40;
      SignedSumOne(bytes, from);
    } else {
      hide Pow2;
      SignedRestFits(v, n);
      assert bytes[from + 1..from + n] == e[1..];
      PaddedSignedMeaning(bytes, from + 1, end, v / 0x80, n - 1);
      SignedSumStep(bytes, from, n);
    }
  }

  /** Every signed 64-bit value comes back from an encoding of up to ten bytes that
      holds it, and none of more bytes is read. */
  lemma PaddedSignedRoundTrip(prefix: seq<Byte>, v: int, n: nat, suffix: seq<Byte>, end: nat)
    requires IsSigned(v, 64) && 0 < n && IsSigned(v, 7 * n)
    requires |prefix| + n <= end <= |prefix| + n + |suffix|
    ensures DecodeSigned(prefix + PaddedSigned(v, n) + suffix, |prefix|, end)
         == if n <= 10 then Some((v, |prefix| + n)) else None
  {
    hide Pow2, SignedSum, PaddedSigned;
    var bytes := prefix + PaddedSigned(v, n) + suffix;
    assert bytes[|prefix|..|prefix| + n] == PaddedSigned(v, n);
    PaddedSignedMeaning(bytes, |prefix|, end, v, n);
    WrapSigned(v, 64);
  }

  // ----- values that do not fit ----------------------------------------------------------------

  /** A decoded number is the number the bytes mean exactly when it fits; a larger
      one is not refused but loses its high bits. */
  lemma DecodedExactly(bytes: seq<Byte>, from: nat, end: nat)
    requires end <= |bytes|
    ensures DecodeUnsigned(bytes, from, end).Some? ==>
              var (value, offset) := DecodeUnsigned(bytes, from, end).value;
              value == Sum(bytes, from, offset - from) <==> IsWord(Sum(bytes, from, offset - from), 64)
    ensures DecodeSigned(bytes, from, end).Some? ==>
              var (value, offset) := DecodeSigned(bytes, from, end).value;
              value == SignedSum(bytes, from, offset - from) <==> IsSigned(SignedSum(bytes, from, offset - from), 64)
  {
    hide Pow2, Sum, SignedSum;
    if DecodeUnsigned(bytes, from, end).Some? {
      var (_, offset) := DecodeUnsigned(bytes, from, end).value;
      var sum := Sum(bytes, from, offset - from);
      if IsWord(sum, 64) { WrapSmall(sum, 64, 64); }
    }
    if DecodeSigned(bytes, from, end).Some? {
      var (_, offset) := DecodeSigned(bytes, from, end).value;
      var sum := SignedSum(bytes, from, offset - from);
      SignedRoundTrip(Wrap(sum, 64), 64);
      if IsSigned(sum, 64) { WrapSigned(sum, 64); }
    }
  }

  /** Continuation bytes without bits of their own, then a byte of 2. */
  lemma {:induction false} EmptyDigits(bytes: seq<Byte>, from: nat, n: nat)
    requires from + n < |bytes| && bytes[from + n] == 2 && forall i :: from <= i < from + n ==> bytes[i] == 0x80
    ensures Sum(bytes, from, n + 1) == 2 * Pow2(7 * n) && Terminator(bytes, from, from + n + 1) == Some(from + n)
    decreases n
  {
    if n == 0 {
      assert Sum(bytes, from + 1, 0) == 0;
    } else {
      EmptyDigits(bytes, from + 1, n - 1);
      Pow2Seven(n - 1);
    }
  }

  /** Nine such bytes and the 2 mean 2^64, and decode to 0. */
  lemma TenthByteOverflows(bytes: seq<Byte>)
    requires |bytes| == 10 && bytes[9] == 2 && forall i :: 0 <= i < 9 ==> bytes[i] == 0x80
    ensures Sum(bytes, 0, 10) == Pow2(64) && DecodeUnsigned(bytes, 0, 10) == Some((0, 10))
  {
    EmptyDigits(bytes, 0, 9);
    hide Sum, Terminator;
    assert Pow2(64) == 2 * Pow2(63);
    DivAddMultiple(0, 1, Pow2(64));
    ModSmall(0, Pow2(64));
  }

  // ----- what is refused ------------------------------------------------------------

  /** bytes[from..end] starts with n continued bytes and one that is not. */
  predicate EndsAfter(bytes: seq<Byte>, from: nat, end: nat, n: nat)
    requires end <= |bytes|
  {
    from + n < end && bytes[from + n] < 0x80 && forall i :: from <= i < from + n ==> 0x80 <= bytes[i]
  }

  /** A text is refused only when it does not end, when a byte from the eleventh on
      carries bits, or, in the signed form, when there is an eleventh byte; and the
      reader stops behind the first byte that does not continue. */
  lemma RefusedExactly(bytes: seq<Byte>, from: nat, end: nat, n: nat)
    requires end <= |bytes|
    ensures DecodeUnsigned(bytes, from, end).Some? && DecodeUnsigned(bytes, from, end).value.1 == from + n + 1 <==>
              EndsAfter(bytes, from, end, n)
              && forall i :: from + 10 <= i <= from + n ==> bytes[i] == 0 || bytes[i] == 0x80
    ensures DecodeSigned(bytes, from, end).Some? && DecodeSigned(bytes, from, end).value.1 == from + n + 1 <==>
              EndsAfter(bytes, from, end, n) && n < 10
  {
    hide Sum, Wrap;
    var t := Terminator(bytes, from, end);
    if EndsAfter(bytes, from, end, n) {
      assert t == Some(from + n);
    }
  }
}
