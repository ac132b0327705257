/** The user library's itoa: decimal numerals of 32-bit integers, written backwards into a buffer. */
module Itoa {
  import opened Words
  import opened CStrings

  const TEXT_SIZE := 12

  predicate IsInt(i: int) {
    -0x8000_0000 <= i < 0x8000_0000
  }

  // ---- numerals ----

  function Digit(d: int): (c: char)
    requires 0 <= d < 10
    ensures '0' <= c <= '9'
  {
    '0' + d as char
  }

  function Digits(n: nat): string {
    if n == 0 then "" else Digits(n / 10) + [Digit(n % 10)]
  }

  /** The numeral itoa writes. */
  function Decimal(i: int): string {
    if i == 0 then "0" else if i < 0 then "-" + Digits(-i) else Digits(i)
  }

  predicate AllDigits(s: string) {
    forall k :: 0 <= k < |s| ==> '0' <= s[k] <= '9'
  }

  /** Reading digits from left to right. */
  function Number(s: string): nat
    requires AllDigits(s)
  {
    if s == "" then 0 else 10 * Number(s[..|s| - 1]) + (s[|s| - 1] as int - '0' as int)
  }

  /** A decimal numeral: an optional minus sign and digits, without leading zeros or a negative zero. */
  predicate Canonical(s: string) {
    || s == "0"
    || (s != "" && AllDigits(s) && s[0] != '0')
    || (|s| > 1 && s[0] == '-' && AllDigits(s[1..]) && s[1] != '0')
  }

  function Value(s: string): int
    requires Canonical(s)
  {
    if s[0] == '-' then 0 - Number(s[1..]) else Number(s)
  }

  lemma {:induction false} NumberOfDigits(n: nat)
    ensures AllDigits(Digits(n)) && Number(Digits(n)) == n
    ensures n > 0 ==> Digits(n) != "" && Digits(n)[0] != '0'
  {
    if n > 0 {
      NumberOfDigits(n / 10);
      var s := Digits(n);
      assert s[..|s| - 1] == Digits(n / 10);
    }
  }

  lemma {:induction false} DigitsOfNumber(s: string)
    requires AllDigits(s) && (s != "" ==> s[0] != '0')
    ensures Digits(Number(s)) == s && (s != "" ==> Number(s) > 0)
  {
    if s != "" {
      var front, last := s[..|s| - 1], s[|s| - 1];
      DigitsOfNumber(front);
      assert Number(s) / 10 == Number(front) && Digit(Number(s) % 10) == last;
      assert s == front + [last];
    }
  }

  /** The numeral is canonical and parses back to the same integer. */
  lemma ParsesBack(i: int)
    ensures Canonical(Decimal(i)) && Value(Decimal(i)) == i
  {
    if i < 0 {
      NumberOfDigits(-i);
      Negated(Digits(-i), -i);
    } else if i == 0 {
      assert Number("0"[..0]) == 0;
    } else {
      NumberOfDigits(i);
    }
  }

  lemma Negated(s: string, n: nat)
    requires s != "" && AllDigits(s) && s[0] != '0' && Number(s) == n
    ensures Canonical("-" + s) && Value("-" + s) + n == 0
  {
    assert ("-" + s)[1..] == s;
  }

  /** It is the only canonical numeral of that integer. */
  lemma OnlyNumeral(s: string)
    requires Canonical(s)
    ensures s == Decimal(Value(s))
  {
    if s[0] == '-' {
      DigitsOfNumber(s[1..]);
      assert s == "-" + s[1..];
    } else if s != "0" {
      DigitsOfNumber(s);
    } else {
      assert Number("0"[..0]) == 0;
    }
  }

  function Power10(k: nat): nat {
    if k == 0 then 1 else 10 * Power10(k - 1)
  }

  lemma {:induction false} DigitsFit(n: nat, k: nat)
    requires n < Power10(k)
    ensures |Digits(n)| <= k
  {
    if n > 0 {
      DigitsFit(n / 10, k - 1);
    }
  }

  /** Every numeral of a 32-bit integer fits the buffer with its terminator. */
  lemma FitsBuffer(i: int)
    requires IsInt(i)
    ensures |Decimal(i)| < TEXT_SIZE
  {
    FewDigits(i);
  }

  // ---- itoa ----

  /** The loop of itoa, on a value that is not positive; every intermediate value is a 32-bit integer. */
  method WriteDigits(text: array<char>, value: int) returns (loc: nat)
    requires text.Length == TEXT_SIZE && IsInt(value) && value <= 0 && |Digits(-value)| < 11
    modifies text
    ensures 0 < loc <= 11 && text[loc..11] == Digits(-value) && text[11] == old(text[11])
  {
    var i := value;
    loc := 11;
    while i != 0
      invariant value <= i <= 0 && loc <= 11 && text[11] == old(text[11])
      invariant Digits(-value) == Digits(-i) + text[loc..11]
      decreases -i
    {
      var digit := TruncMod(i, 10);
      assert IsInt(digit) && IsInt(48 - digit) && 48 <= 48 - digit < 58;
      loc := loc - 1;
      ghost var before := text[loc + 1..11];
      text[loc] := (48 - digit) as char;
      assert text[loc..11] == [Digit(-i % 10)] + before;
      i := TruncDiv(i, 10);
    }
  }

  /** itoa, with the static buffer as a parameter. Values are made non-positive first, so the minimum
      is no exception. */
  method Itoa(text: array<char>, value: int) returns (loc: nat)
    requires text.Length == TEXT_SIZE && IsInt(value)
    modifies text
    ensures loc + |Decimal(value)| == TEXT_SIZE - 1 && StringAt(text, loc, Decimal(value))
  {
    var i, neg := value, 1;
    text[11] := NUL;
    if i >= 0 {
      neg := 0;
      i := -i;
    }
    FewDigits(value);
    NoTerminator(value);
    loc := WriteDigits(text, i);
    ghost var digits := text[loc..11];
    if loc == 11 {
      loc := loc - 1;
      text[loc] := '0';
    }
    if neg != 0 {
      loc := loc - 1;
      text[loc] := '-';
      assert text[loc..11] == "-" + digits;
    }
    assert text[loc..11] == Decimal(value);
  }

  lemma FewDigits(i: int)
    requires IsInt(i)
    ensures |Digits(if i < 0 then -i else i)| < 11
  {
    assert Power10(5) == 100000;
    assert Power10(10) == 10000000000;
    DigitsFit(if i < 0 then -i else i, 10);
  }

  lemma NoTerminator(i: int)
    ensures NUL !in Decimal(i)
  {
    NumberOfDigits(if i < 0 then -i else i);
  }
}
