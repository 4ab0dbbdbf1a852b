/**
 The numeral printers of Logger.hpp, in place, proved against the canonical
 numeral of a number.
 */
module Numerals {
  import opened Arithmetic

  // ----- canonical numerals -----

  /** -1 for what is no digit. */
  function DigitValue(c: char): int {
    if '0' <= c <= '9' then c as int - '0' as int
    else if 'A' <= c <= 'F' then c as int - 'A' as int + 10
    else -1
  }

  function Digit(d: nat): (c: char)
    requires d < 16
    ensures DigitValue(c) == d
  {
    if d < 10 then ('0' as int + d) as char else ('A' as int + d - 10) as char
  }

  predicate Digits(s: string, base: nat) {
    forall i :: 0 <= i < |s| ==> 0 <= DigitValue(s[i]) < base
  }

  /** Digits, and no leading zero. */
  predicate Canonical(s: string, base: nat) {
    s != [] && Digits(s, base) && (|s| > 1 ==> s[0] != '0')
  }

  /** What a string of digits stands for. */
  function Value(s: string, base: nat): nat
    requires Digits(s, base)
  {
    if s == [] then 0 else Value(s[..|s| - 1], base) * base + DigitValue(s[|s| - 1])
  }

  function Numeral(m: nat, base: nat): (s: string)
    requires 2 <= base <= 16
    ensures s != []
  {
    if m < base then [Digit(m)] else
      QuotientSmaller(m, base);
      Numeral(m / base, base) + [Digit(m % base)]
  }

  lemma TimesBase(q: nat, base: nat)
    requires 2 <= base
    ensures q * base >= 2 * q && (q == 0 ==> q * base == 0) && (q > 0 ==> q * base >= base)
    ensures base >= 8 ==> q * base >= 8 * q
  {}

  lemma QuotientSmaller(m: nat, base: nat)
    requires 2 <= base <= m
    ensures 0 < m / base < m && m == (m / base) * base + m % base
  {
    TimesBase(m / base, base);
  }

  lemma {:induction false} ValueSnoc(s: string, c: char, base: nat)
    requires Digits(s, base) && 0 <= DigitValue(c) < base
    ensures Digits(s + [c], base) && Value(s + [c], base) == Value(s, base) * base + DigitValue(c)
  {
    assert (s + [c])[..|s|] == s;
  }

  lemma {:induction false} ReadBackSnoc(s: string, q: nat, d: nat, base: nat)
    requires 2 <= base <= 16 && 0 < q && d < base
    requires Canonical(s, base) && Value(s, base) == q && s[0] != '0'
    ensures var t := s + [Digit(d)];
      Canonical(t, base) && Value(t, base) == q * base + d && t[0] != '0'
  {
    ValueSnoc(s, Digit(d), base);
  }

  /** The numeral is canonical and reads back as the number. */
  lemma {:induction false} NumeralReadsBack(m: nat, base: nat)
    requires 2 <= base <= 16
    ensures Canonical(Numeral(m, base), base) && Value(Numeral(m, base), base) == m
    ensures Numeral(m, base)[0] == '0' ==> m == 0
    decreases m
  {
    if m < base {
      ValueSnoc([], Digit(m), base);
      assert [] + [Digit(m)] == [Digit(m)];
    } else {
      QuotientSmaller(m, base);
      NumeralReadsBack(m / base, base);
      ReadBackSnoc(Numeral(m / base, base), m / base, m % base, base);
    }
  }

  lemma {:induction false} ValuePositive(s: string, base: nat)
    requires 2 <= base && s != [] && Digits(s, base) && s[0] != '0'
    ensures Value(s, base) > 0
    decreases |s|
  {
    if |s| > 1 {
      ValuePositive(s[..|s| - 1], base);
      TimesBase(Value(s[..|s| - 1], base), base);
    } else {
      assert s[..0] == [];
    }
  }

  lemma NumeralSnoc(q: nat, d: nat, base: nat)
    requires 2 <= base <= 16 && 0 < q && d < base
    ensures Numeral(q * base + d, base) == Numeral(q, base) + [Digit(d)]
  {
    TimesBase(q, base);
    DivModUnique(q * base + d, q, d, base);
  }

  /** There is no other canonical numeral of a number. */
  lemma {:induction false} CanonicalIsNumeral(s: string, base: nat)
    requires 2 <= base <= 16 && Canonical(s, base)
    ensures s == Numeral(Value(s, base), base)
    decreases |s|
  {
    var t, d := s[..|s| - 1], DigitValue(s[|s| - 1]);
    assert s == t + [Digit(d)];
    if |s| > 1 {
      CanonicalIsNumeral(t, base);
      ValuePositive(t, base);
      NumeralSnoc(Value(t, base), d, base);
    } else {
      assert t == [] && Value(t, base) == 0;
      TimesBase(0, base);
    }
  }

  lemma QuotientBelow(m: nat, base: nat, p: nat)
    requires 8 <= base && m < 8 * p
    ensures m / base < p
  {
    var q := m / base;
    assert q * base <= m;
    TimesBase(q, base);
  }

  lemma {:induction false} NumeralLength(m: nat, base: nat, k: nat)
    requires 8 <= base <= 16 && 0 < k && m < Pow2(3 * k)
    ensures |Numeral(m, base)| <= k
    decreases k
  {
    var p := Pow2(3 * (k - 1));
    assert 3 * k == 3 + 3 * (k - 1);
    Pow2Sum(3, 3 * (k - 1));
    assert Pow2(3) == 8;
    QuotientBelow(m, base, p);
    if k == 1 {
      assert p == 1;
    } else if m >= base {
      NumeralLength(m / base, base, k - 1);
    }
  }

  /** What `stringFromNumeric` prints. */
  function Decimal(value: int): string {
    if value < 0 then "-" + Numeral(-value, 10) else Numeral(value, 10)
  }

  predicate CanonicalDecimal(s: string) {
    if s != [] && s[0] == '-' then Canonical(s[1..], 10) && s[1..] != "0" else Canonical(s, 10)
  }

  function DecimalValue(s: string): int
    requires CanonicalDecimal(s)
  {
    if s[0] == '-' then 0 - Value(s[1..], 10) else Value(s, 10)
  }

  /** A canonical decimal is what is printed for a value exactly when it reads
      back as that value. */
  lemma DecimalExactly(value: int, s: string)
    ensures s == Decimal(value) <==> CanonicalDecimal(s) && DecimalValue(s) == value
  {
    NumeralReadsBack(if value < 0 then -value else value, 10);
    if s == Decimal(value) {
      if value < 0 { assert s[1..] == Numeral(-value, 10); }
    } else if CanonicalDecimal(s) {
      if s[0] == '-' {
        CanonicalIsNumeral(s[1..], 10);
        assert s == "-" + s[1..];
        assert Numeral(0, 10) == "0";
      } else {
        CanonicalIsNumeral(s, 10);
      }
    }
  }

  lemma DecimalLength(value: int)
    requires -0x8000_0000_0000_0000 <= value < 0x1_0000_0000_0000_0000
    ensures |Numeral(Magnitude(value), 10)| <= 22
  {
    Pow2Values();
    Pow2Monotone(64, 3 * 22);
    NumeralLength(Magnitude(value), 10, 22);
  }

  // ----- in place -----

  const MAX_NUM_LEN: nat := 32
  const DIGITS: string := "9876543210123456789"
  const ZERO: nat := 9
  const DIGITS_HEX: string := "0123456789ABCDEF"

  /** Division and remainder that truncate towards zero. */
  function Quotient(i: int, n: nat): int
    requires n > 0
  {
    if i < 0 then -(-i / n) else i / n
  }

  function Remainder(i: int, n: nat): int
    requires n > 0
  {
    if i < 0 then -(-i % n) else i % n
  }

  function Magnitude(i: int): nat {
    if i < 0 then -i else i
  }

  function Reversed(s: string): (r: string)
    ensures |r| == |s| && forall i :: 0 <= i < |s| ==> r[i] == s[|s| - 1 - i]
  {
    seq(|s|, i requires 0 <= i < |s| => s[|s| - 1 - i])
  }

  lemma ReversedSnoc(s: string, c: char)
    ensures Reversed(s + [c]) == [c] + Reversed(s)
  {}

  /** `std::reverse` of the first `n` characters. */
  method Reverse(buf: array<char>, n: nat)
    requires n <= buf.Length
    modifies buf
    ensures buf[..n] == Reversed(old(buf[..n])) && buf[n..] == old(buf[n..])
  {
    var first, last := 0, n;
    while first < last
      invariant 0 <= first <= n && 0 <= last <= n && first + last == n
      invariant buf[n..] == old(buf[n..])
      invariant forall k :: first <= k < last ==> buf[k] == old(buf[k])
      invariant forall k :: 0 <= k < first ==> buf[k] == old(buf[n - 1 - k])
      invariant forall k :: last <= k < n ==> buf[k] == old(buf[n - 1 - k])
      decreases last - first
    {
      last := last - 1;
      buf[first], buf[last] := buf[last], buf[first];
      first := first + 1;
    }
  }

  /** The digits still to come and those written, last one first. */
  ghost predicate Printing(m: nat, i: nat, base: nat, written: string)
    requires 2 <= base <= 16
  {
    Numeral(m, base) == Numeral(i, base) + Reversed(written)
  }

  lemma PrintDigit(m: nat, i: nat, base: nat, written: string)
    requires 2 <= base <= 16 && Printing(m, i, base, written)
    ensures |written| < |Numeral(m, base)|
    ensures i / base == 0 <==> i < base
    ensures i < base ==> Numeral(m, base) == Reversed(written + [Digit(i % base)])
    ensures i >= base ==> Printing(m, i / base, base, written + [Digit(i % base)]) && i / base < i
  {
    ReversedSnoc(written, Digit(i % base));
    if i < base {
      DivModUnique(i, 0, i, base);
    } else {
      QuotientSmaller(i, base);
    }
  }

  /** The table is read from its middle: a digit of a negative number is to the left. */
  lemma DigitOfTable(d: int)
    requires -10 < d < 10
    ensures DIGITS[ZERO + d] == Digit(Magnitude(d))
  {}

  lemma Truncated(i: int)
    ensures -10 < Remainder(i, 10) < 10 && Magnitude(Remainder(i, 10)) == Magnitude(i) % 10
    ensures Magnitude(Quotient(i, 10)) == Magnitude(i) / 10
  {}

  /** The digit loop, last digit first. */
  method PrintDecimalDigits(buf: array<char>, value: int) returns (p: nat)
    requires |Numeral(Magnitude(value), 10)| <= 22 < buf.Length
    modifies buf
    ensures p <= 22 && Reversed(buf[..p]) == Numeral(Magnitude(value), 10)
  {
    ghost var m := Magnitude(value);
    var i := value;
    p := 0;
    assert Numeral(m, 10) + Reversed(buf[..0]) == Numeral(m, 10);
    while true
      invariant p <= 22 && Printing(m, Magnitude(i), 10, buf[..p])
      decreases Magnitude(i)
    {
      Truncated(i);
      PrintDigit(m, Magnitude(i), 10, buf[..p]);
      var lsd := Remainder(i, 10);
      DigitOfTable(lsd);
      i := Quotient(i, 10);
      buf[p] := DIGITS[ZERO + lsd];
      p := p + 1;
      if i == 0 {
        return;
      }
    }
  }

  /** `stringFromNumeric`: the canonical decimal of any 64-bit value, signed or not. */
  method StringFromNumeric(buf: array<char>, value: int) returns (len: nat)
    requires -0x8000_0000_0000_0000 <= value < 0x1_0000_0000_0000_0000
    requires buf.Length >= MAX_NUM_LEN
    modifies buf
    ensures len < 32 && buf[..len] == Decimal(value) && buf[len] == '\0'
  {
    DecimalLength(value);
    len := PrintDecimalDigits(buf, value);
    if value < 0 {
      ReversedSnoc(buf[..len], '-');
      buf[len] := '-';
      len := len + 1;
    }
    buf[len] := '\0';
    Reverse(buf, len);
  }

  /** The digit loop in base 16, last digit first. */
  method PrintHexDigits(buf: array<char>, value: nat) returns (p: nat)
    requires |Numeral(value, 16)| <= 22 < buf.Length
    modifies buf
    ensures p <= 22 && Reversed(buf[..p]) == Numeral(value, 16)
  {
    var i := value;
    p := 0;
    assert Numeral(value, 16) + Reversed(buf[..0]) == Numeral(value, 16);
    while true
      invariant p <= 22 && Printing(value, i, 16, buf[..p])
      decreases i
    {
      PrintDigit(value, i, 16, buf[..p]);
      var lsd := i % 16;
      DigitOfHexTable(lsd);
      i := i / 16;
      buf[p] := DIGITS_HEX[lsd];
      p := p + 1;
      if i == 0 {
        return;
      }
    }
  }

  /** `hexStringFromNumeric`: the canonical hexadecimal of any address. */
  method HexStringFromNumeric(buf: array<char>, value: nat) returns (len: nat)
    requires value < 0x1_0000_0000_0000_0000
    requires buf.Length >= MAX_NUM_LEN
    modifies buf
    ensures len < 32 && buf[..len] == Numeral(value, 16) && buf[len] == '\0'
  {
    HexLength(value);
    len := PrintHexDigits(buf, value);
    buf[len] := '\0';
    Reverse(buf, len);
  }

  lemma DigitOfHexTable(d: nat)
    requires d < 16
    ensures DIGITS_HEX[d] == Digit(d)
  {}

  lemma HexLength(value: nat)
    requires value < 0x1_0000_0000_0000_0000
    ensures |Numeral(value, 16)| <= 22
  {
    Pow2Values();
    Pow2Monotone(64, 3 * 22);
    NumeralLength(value, 16, 22);
  }
}
