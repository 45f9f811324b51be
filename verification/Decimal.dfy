/** Printing and parsing of integers in metadata fields. */
module Decimal {
  import opened Wrappers

  const MAX32 := 0xffff_ffff
  const MAX64 := 0xffff_ffff_ffff_ffff
  const MAX_SIGNED64 := 0x7fff_ffff_ffff_ffff

  type U32 = x: nat | x <= MAX32
  type U64 = x: nat | x <= MAX64
  type I64 = x: int | -MAX_SIGNED64 - 1 <= x <= MAX_SIGNED64

  /** std::to_string of an unsigned number. */
  function Print(n: nat): (s: string)
    ensures s != [] && forall i :: 0 <= i < |s| ==> '0' <= s[i] <= '9'
    ensures s[0] == '0' ==> n == 0 && |s| == 1
  {
    if n < 10 then [DigitChar(n)] else Print(n / 10) + [DigitChar(n % 10)]
  }

  function DigitChar(d: nat): (c: char)
    requires d < 10
    ensures '0' <= c <= '9'
  {
    '0' + d as char
  }

  function DigitOf(c: char): Option<nat> {
    if '0' <= c <= '9' then Some((c - '0') as nat)
    else if 'a' <= c <= 'z' then Some((c - 'a') as nat + 10)
    else if 'A' <= c <= 'Z' then Some((c - 'A') as nat + 10)
    else None
  }

  /** The number a non-empty string of digits means; None if it is not one. */
  function Digits(s: string, base: nat): Option<nat> {
    if s == [] then None
    else
      var last := DigitOf(s[|s| - 1]);
      if last.None? || last.value >= base then None
      else if |s| == 1 then last
      else
        var front := Digits(s[..|s| - 1], base);
        if front.None? then None else Some(base * front.value + last.value)
  }

  lemma {:induction false} DigitsOfPrint(n: nat)
    ensures Digits(Print(n), 10) == Some(n)
  {
    if 10 <= n {
      DigitsOfPrint(n / 10);
      var s := Print(n);
      assert s[..|s| - 1] == Print(n / 10);
    }
  }

  /** std::from_chars over the whole text: a minus sign is read for a signed type
      only, and a number outside lo .. hi is an error. */
  function FromChars(s: string, base: nat, lo: int, hi: int): Option<int> {
    var negative := lo < 0 && s != [] && s[0] == '-';
    var magnitude := Digits(if negative then s[1..] else s, base);
    if magnitude.None? then None
    else
      var v: int := if negative then -(magnitude.value as int) else magnitude.value;
      if lo <= v <= hi then Some(v) else None
  }

  /** parseIntegerOr, for a type with values lo .. hi; the negation of lo wraps. */
  function ParseIntegerOr(text: string, lo: int, hi: int, fallback: int): (v: int)
    requires lo <= fallback <= hi && (lo == 0 || lo == -hi - 1)
    ensures lo <= v <= hi
  {
    if text == [] then fallback
    else
      var negative := lo < 0 && text[0] == '-';
      var unsigned := if negative then text[1..] else text;
      var hex := |unsigned| > 2 && unsigned[0] == '0' && (unsigned[1] == 'x' || unsigned[1] == 'X');
      var value := if hex then FromChars(unsigned[2..], 16, lo, hi) else FromChars(unsigned, 10, lo, hi);
      if value.None? then fallback
      else if negative && value.value != lo then -value.value
      else value.value
  }

  /** A printed number is read back when the type holds it, and is otherwise
      replaced by the fallback. */
  lemma ParsePrinted(n: nat, lo: int, hi: int, fallback: int)
    requires lo <= fallback <= hi && (lo == 0 || lo == -hi - 1)
    ensures ParseIntegerOr(Print(n), lo, hi, fallback) == if n <= hi then n else fallback
  {
    DigitsOfPrint(n);
    var s := Print(n);
    assert s[0] != '-' && (1 < |s| ==> s[0] != '0');
  }

  /** A number in base 16, in small or capital letters. */
  function PrintHex(n: nat, capital: bool): (s: string)
    ensures s != [] && s[0] != '-'
  {
    if n < 16 then [HexChar(n, capital)] else PrintHex(n / 16, capital) + [HexChar(n % 16, capital)]
  }

  function HexChar(d: nat, capital: bool): (c: char)
    requires d < 16
    ensures c != '-' && DigitOf(c) == Some(d)
  {
    if d < 10 then DigitChar(d) else (if capital then 'A' else 'a') + (d - 10) as char
  }

  lemma {:induction false} DigitsOfHex(n: nat, capital: bool)
    ensures Digits(PrintHex(n, capital), 16) == Some(n)
  {
    if 16 <= n {
      DigitsOfHex(n / 16, capital);
      var s := PrintHex(n, capital);
      assert s[..|s| - 1] == PrintHex(n / 16, capital);
    }
  }

  /** The same for a number with a hexadecimal prefix, in either case. */
  lemma ParsePrintedHex(n: nat, capital: bool, x: char, lo: int, hi: int, fallback: int)
    requires lo <= fallback <= hi && (lo == 0 || lo == -hi - 1) && (x == 'x' || x == 'X')
    ensures ParseIntegerOr(['0', x] + PrintHex(n, capital), lo, hi, fallback) == if n <= hi then n else fallback
  {
    DigitsOfHex(n, capital);
    var s := ['0', x] + PrintHex(n, capital);
    assert s[2..] == PrintHex(n, capital);
  }

  /** A minus sign is read for signed types only.  The digits behind it are read as a
      number of the type, so its least number is not read back. */
  lemma ParseNegative(n: nat, lo: int, hi: int, fallback: int)
    requires lo <= fallback <= hi && (lo == 0 || lo == -hi - 1) && 0 <= hi
    ensures ParseIntegerOr(['-'] + Print(n), lo, hi, fallback) == if lo < 0 && n <= hi then -(n as int) else fallback
    ensures lo < 0 ==> ParseIntegerOr(['-'] + Print(-lo), lo, hi, 0) == 0
  {
    NegativeText(n, lo, hi, fallback);
    if lo < 0 { NegativeText(-lo, lo, hi, 0); }
  }

  lemma NegativeText(n: nat, lo: int, hi: int, fallback: int)
    requires lo <= fallback <= hi && (lo == 0 || lo == -hi - 1) && 0 <= hi
    ensures ParseIntegerOr(['-'] + Print(n), lo, hi, fallback) == if lo < 0 && n <= hi then -(n as int) else fallback
  {
    DigitsOfPrint(n);
    var s := ['-'] + Print(n);
    assert s[1..] == Print(n);
    assert Print(n)[0] != '-' && (1 < |Print(n)| ==> Print(n)[0] != '0');
    if lo == 0 { SignIsNoDigit(Print(n)); }
  }

  /** A text that starts with a minus sign is no string of digits. */
  lemma {:induction false} SignIsNoDigit(rest: string)
    ensures Digits(['-'] + rest, 10).None?
    decreases |rest|
  {
    if rest != [] {
      var s := ['-'] + rest;
      assert s[..|s| - 1] == ['-'] + rest[..|rest| - 1];
      SignIsNoDigit(rest[..|rest| - 1]);
    }
  }

  // ----- which texts are numbers ---------------------------------------------------------

  predicate IsDigit(c: char, base: nat) {
    '0' <= c <= '9' || (base == 16 && ('a' <= c <= 'f' || 'A' <= c <= 'F'))
  }

  /** The numbers are the non-empty texts of digits, and nothing else. */
  lemma {:induction false} DigitsExactly(s: string, base: nat)
    requires base == 10 || base == 16
    ensures Digits(s, base).Some? <==> s != [] && forall i :: 0 <= i < |s| ==> IsDigit(s[i], base)
    decreases |s|
  {
    if 1 < |s| {
      var front := s[..|s| - 1];
      DigitsExactly(front, base);
      assert forall i :: 0 <= i < |front| ==> front[i] == s[i];
    }
  }

  /** A text of decimal digits is a printed number behind any zeros. */
  lemma {:induction false} DigitsArePrinted(s: string) returns (n: nat, zeros: string)
    requires s != [] && forall i :: 0 <= i < |s| ==> IsDigit(s[i], 10)
    ensures Digits(s, 10) == Some(n) && s == zeros + Print(n) && forall c :: c in zeros ==> c == '0'
    decreases |s|
  {
    hide Print;
    var last := s[|s| - 1];
    var front := s[..|s| - 1];
    n, zeros := 0, [];
    if front == [] {
      assert s == [last];
    } else {
      n, zeros := DigitsArePrinted(front);
      if n == 0 {
        LastDigit(0, '0');
        zeros := front;
      } else {
        assert s == zeros + (Print(n) + [last]);
      }
    }
    LastDigit(n, last);
    n := 10 * n + (last - '0') as nat;
  }

  lemma LastDigit(n: nat, c: char)
    requires IsDigit(c, 10)
    ensures Print(10 * n + (c - '0') as nat) == if n == 0 then [c] else Print(n) + [c]
  {
    var d := (c - '0') as nat;
    assert (10 * n + d) / 10 == n && (10 * n + d) % 10 == d;
  }

  predicate HasHexPrefix(text: string) {
    |text| > 2 && text[0] == '0' && (text[1] == 'x' || text[1] == 'X')
  }

  /** Any other character in a text without the prefix makes it no number. */
  lemma OtherTextFallsBack(text: string, i: nat, lo: int, hi: int, fallback: int)
    requires lo <= fallback <= hi && (lo == 0 || lo == -hi - 1)
    requires i < |text| && !IsDigit(text[i], 10) && (text[i] == '-' ==> lo == 0)
    requires !HasHexPrefix(text) && !(text[0] == '-' && HasHexPrefix(text[1..]))
    ensures ParseIntegerOr(text, lo, hi, fallback) == fallback
  {
    var unsigned := if lo < 0 && text[0] == '-' then text[1..] else text;
    var digits := if lo < 0 && unsigned != [] && unsigned[0] == '-' then unsigned[1..] else unsigned;
    assert digits[i - (|text| - |digits|)] == text[i];
    DigitsExactly(digits, 10);
  }
}
