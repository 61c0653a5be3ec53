/** Decimal numerals and the C library conversions built on them. A conversion reads a text from a
    position, as the C functions read from a pointer into it. */
module Numbers {
  import opened Basics

  function DigitValue(c: char): nat {
    if IsDigit(c) then c as int - '0' as int else 0
  }

  /** The number written in s[i..j]. */
  function ValueIn(s: string, i: nat, j: nat): nat
    requires i <= j <= |s|
  {
    if i == j then 0 else 10 * ValueIn(s, i, j - 1) + DigitValue(s[j - 1])
  }

  function Value(digits: string): nat { ValueIn(digits, 0, |digits|) }

  /** Where the digits from position i end. */
  function DigitsEnd(s: string, i: nat): (j: nat)
    requires i <= |s|
    ensures i <= j <= |s|
    decreases |s| - i
  {
    if i == |s| || !IsDigit(s[i]) then i else DigitsEnd(s, i + 1)
  }

  /** Where the white space from position i ends. */
  function SpaceEnd(s: string, i: nat): (j: nat)
    requires i <= |s|
    ensures i <= j <= |s|
    decreases |s| - i
  {
    if i == |s| || !IsSpace(s[i]) then i else SpaceEnd(s, i + 1)
  }

  /** A non-empty text of digits only. */
  predicate IsNumeral(s: string) { s != "" && DigitsEnd(s, 0) == |s| }

  function Decimal(n: nat): string {
    if n < 10 then [('0' as int + n) as char]
    else Decimal(n / 10) + [('0' as int + n % 10) as char]
  }

  // ---------- Copies of a numeral inside other texts ----------

  lemma {:induction false} DigitsAreDigits(s: string, i: nat)
    requires i <= |s|
    ensures forall k :: i <= k < DigitsEnd(s, i) ==> IsDigit(s[k])
    ensures DigitsEnd(s, i) < |s| ==> !IsDigit(s[DigitsEnd(s, i)])
    decreases |s| - i
  {
    if i < |s| && IsDigit(s[i]) {
      DigitsAreDigits(s, i + 1);
    }
  }

  lemma {:induction false} DigitsEndAt(s: string, i: nat, j: nat)
    requires i <= j <= |s|
    requires forall k :: i <= k < j ==> IsDigit(s[k])
    requires j == |s| || !IsDigit(s[j])
    ensures DigitsEnd(s, i) == j
    decreases j - i
  {
    if i < j {
      DigitsEndAt(s, i + 1, j);
    }
  }

  lemma {:induction false} ValueOfCopy(s: string, i: nat, t: string, p: nat, n: nat)
    requires i + n <= |s| && p + n <= |t|
    requires forall k :: i <= k < i + n ==> s[k] == t[k - i + p]
    ensures ValueIn(s, i, i + n) == ValueIn(t, p, p + n)
    decreases n
  {
    if n > 0 {
      ValueOfCopy(s, i, t, p, n - 1);
      assert s[i + n - 1] == t[p + n - 1];
    }
  }

  /** Printing a number and reading it back is the identity. */
  lemma {:induction false} DecimalRoundTrip(n: nat)
    ensures IsNumeral(Decimal(n)) && Value(Decimal(n)) == n
    ensures forall k :: 0 <= k < |Decimal(n)| ==> IsDigit(Decimal(n)[k])
  {
    var d := Decimal(n);
    if n < 10 {
      assert ValueIn(d, 0, 0) == 0;
    } else {
      var e := Decimal(n / 10);
      DecimalRoundTrip(n / 10);
      ValueOfCopy(d, 0, e, 0, |e|);
      assert d[|e|] == ('0' as int + n % 10) as char;
    }
    DigitsEndAt(d, 0, |d|);
  }

  // ---------- The C library ----------

  /** What strtoul and strtol see from position i (section 7.22.1.4 of ISO/IEC 9899:2011, base 10):
      white space, one sign, then digits up to `end`. With no digits nothing is converted. */
  datatype Numeral = NotANumber | Numeral(negative: bool, magnitude: nat, end: nat)

  function ReadNumeral(s: string, i: nat): (r: Numeral)
    requires i <= |s|
    ensures r.Numeral? ==> i < r.end <= |s|
  {
    var p := SpaceEnd(s, i);
    var q := if p < |s| && (s[p] == '+' || s[p] == '-') then p + 1 else p;
    var end := DigitsEnd(s, q);
    if end == q then NotANumber else Numeral(p < q && s[p] == '-', ValueIn(s, q, end), end)
  }

  /** The value of strtoul and strtoull on a 64-bit system: zero when nothing converts, the largest
      value when the digits overflow, and otherwise the value, negated modulo 2^64 after a minus. */
  function UlongOf(n: Numeral): u64 {
    if n.NotANumber? then 0
    else if n.magnitude >= TWO_64 then TWO_64 - 1
    else if n.negative then (TWO_64 - n.magnitude) % TWO_64
    else n.magnitude
  }

  function Strtoul(s: string, i: nat): u64 {
    if i > |s| then 0 else UlongOf(ReadNumeral(s, i))
  }

  /** The value of strtol on a 64-bit system, saturating at both ends. */
  function LongOf(n: Numeral): int {
    if n.NotANumber? then 0
    else if n.negative then (if n.magnitude > TWO_63 then -TWO_63 else 0 - n.magnitude)
    else if n.magnitude >= TWO_63 then TWO_63 - 1
    else n.magnitude
  }

  function Strtol(s: string, i: nat): int {
    if i > |s| then 0 else LongOf(ReadNumeral(s, i))
  }

  /** A text that starts with a digit is read as exactly its leading digits. */
  lemma ReadPlainNumeral(s: string, i: nat)
    requires i < |s| && IsDigit(s[i])
    ensures ReadNumeral(s, i) == Numeral(false, ValueIn(s, i, DigitsEnd(s, i)), DigitsEnd(s, i))
    ensures DigitsEnd(s, i) > i
  {
    assert DigitsEnd(s, i) == DigitsEnd(s, i + 1);
  }

  // ---------- A number inside a longer text ----------

  /** The text f stands in s at position q, and no digit follows it. */
  ghost predicate StandsAt(s: string, q: nat, f: string) {
    && q + |f| <= |s|
    && (forall i :: 0 <= i < |f| ==> s[q + i] == f[i])
    && (q + |f| < |s| ==> !IsDigit(s[q + |f|]))
  }

  /** Not white space only. */
  predicate Visible(f: string) { SpaceEnd(f, 0) < |f| }

  lemma {:induction false} SpaceEndOfCopy(s: string, q: nat, f: string, i: nat)
    requires StandsAt(s, q, f) && i <= |f| && SpaceEnd(f, i) < |f|
    ensures SpaceEnd(s, q + i) == q + SpaceEnd(f, i)
    decreases |f| - i
  {
    if i < |f| && IsSpace(f[i]) {
      SpaceEndOfCopy(s, q, f, i + 1);
    }
  }

  lemma {:induction false} DigitsEndOfCopy(s: string, q: nat, f: string, i: nat)
    requires StandsAt(s, q, f) && i <= |f|
    ensures DigitsEnd(s, q + i) == q + DigitsEnd(f, i)
    decreases |f| - i
  {
    if i < |f| && IsDigit(f[i]) {
      DigitsEndOfCopy(s, q, f, i + 1);
    }
  }

  predicate SameNumber(m: Numeral, n: Numeral) {
    (m.NotANumber? && n.NotANumber?) ||
    (m.Numeral? && n.Numeral? && m.negative == n.negative && m.magnitude == n.magnitude)
  }

  lemma NumeralOfCopy(s: string, q: nat, f: string)
    requires StandsAt(s, q, f) && Visible(f)
    ensures SameNumber(ReadNumeral(s, q), ReadNumeral(f, 0))
  {
    SpaceEndOfCopy(s, q, f, 0);
    var p := SpaceEnd(f, 0);
    assert s[q + p] == f[p];
    var sign := if f[p] == '+' || f[p] == '-' then p + 1 else p;
    var n := DigitsEnd(f, sign);
    DigitsEndOfCopy(s, q, f, sign);
    CopiedValue(s, q, f, sign, n);
  }

  lemma CopiedValue(s: string, q: nat, f: string, i: nat, j: nat)
    requires StandsAt(s, q, f) && i <= j <= |f|
    ensures ValueIn(s, q + i, q + j) == ValueIn(f, i, j)
  {
    forall k | q + i <= k < q + i + (j - i)
      ensures s[k] == f[k - (q + i) + i]
    {
      assert s[q + (k - q)] == f[k - q];
    }
    ValueOfCopy(s, q + i, f, i, j - i);
  }

  /** A conversion that starts at f reads what it would read in f alone: it does not see what follows. */
  lemma ConversionOfCopy(s: string, q: nat, f: string)
    requires StandsAt(s, q, f) && Visible(f)
    ensures Strtoul(s, q) == Strtoul(f, 0) && Strtol(s, q) == Strtol(f, 0)
  {
    NumeralOfCopy(s, q, f);
  }

  /** A printed number converts to itself, if the type can hold it. */
  lemma PrintedNumberConverts(n: nat)
    ensures Visible(Decimal(n))
    ensures n < TWO_64 ==> Strtoul(Decimal(n), 0) == n
    ensures n < TWO_63 ==> Strtol(Decimal(n), 0) == n
  {
    DecimalRoundTrip(n);
    ReadPlainNumeral(Decimal(n), 0);
  }

  // ---------- What the conversions make of a text, in terms of its characters ----------

  /** White space is tab, newline, vertical tab, form feed, carriage return and blank; digits are ten. */
  lemma CharactersAre(c: char)
    ensures IsSpace(c) <==> c as int in {9, 10, 11, 12, 13, 32}
    ensures IsDigit(c) <==> c in "0123456789"
  {
    if IsDigit(c) {
      assert "0123456789"[c as int - '0' as int] == c;
    }
  }

  lemma MinusIsRead(digits: string)
    requires IsNumeral(digits)
    ensures ReadNumeral("-" + digits, 0) == Numeral(true, Value(digits), 1 + |digits|)
  {
    var text := "-" + digits;
    DigitsAreDigits(digits, 0);
    assert forall k :: 1 <= k < |text| ==> text[k] == digits[k - 1];
    DigitsEndAt(text, 1, |text|);
    ValueOfCopy(text, 1, digits, 0, |digits|);
    assert SpaceEnd(text, 0) == 0;
  }

  /** A number as printed by a signed type. */
  function Signed(n: int): string { if n < 0 then "-" + Decimal(-n) else Decimal(n) }

  /** A signed number converts to itself, and stops at the ends of the type. */
  lemma SignedNumberConverts(n: int)
    ensures Visible(Signed(n))
    ensures Strtol(Signed(n), 0) == if n < -0x8000_0000_0000_0000 then -0x8000_0000_0000_0000
                                    else if n > 0x7FFF_FFFF_FFFF_FFFF then 0x7FFF_FFFF_FFFF_FFFF
                                    else n
  {
    if n < 0 {
      DecimalRoundTrip(-n);
      MinusIsRead(Decimal(-n));
      assert SpaceEnd("-" + Decimal(-n), 0) == 0;
    } else {
      DecimalRoundTrip(n);
      ReadPlainNumeral(Decimal(n), 0);
    }
  }

  /** An unsigned conversion stops at the largest value, and takes a minus sign modulo 2^64. */
  lemma UnsignedNumberConverts(n: nat)
    ensures Strtoul(Decimal(n), 0) == if n > 0xFFFF_FFFF_FFFF_FFFF then 0xFFFF_FFFF_FFFF_FFFF else n
    ensures 0 < n <= 0xFFFF_FFFF_FFFF_FFFF ==> Strtoul("-" + Decimal(n), 0) == 0x1_0000_0000_0000_0000 - n
  {
    DecimalRoundTrip(n);
    ReadPlainNumeral(Decimal(n), 0);
    MinusIsRead(Decimal(n));
  }

  lemma {:induction false} SpaceEndAfter(w: string, text: string, i: nat)
    requires i <= |w| && forall k :: 0 <= k < |w| ==> IsSpace(w[k])
    ensures SpaceEnd(w + text, i) == |w| + SpaceEnd(text, 0)
    decreases |w| - i
  {
    if i < |w| {
      SpaceEndAfter(w, text, i + 1);
    } else {
      SpaceEndShifted(w, text, 0);
    }
  }

  lemma {:induction false} SpaceEndShifted(w: string, text: string, i: nat)
    requires i <= |text|
    ensures SpaceEnd(w + text, |w| + i) == |w| + SpaceEnd(text, i)
    decreases |text| - i
  {
    if i < |text| && IsSpace(text[i]) {
      SpaceEndShifted(w, text, i + 1);
    }
  }

  lemma {:induction false} DigitsEndShifted(w: string, text: string, i: nat)
    requires i <= |text|
    ensures DigitsEnd(w + text, |w| + i) == |w| + DigitsEnd(text, i)
    decreases |text| - i
  {
    if i < |text| && IsDigit(text[i]) {
      DigitsEndShifted(w, text, i + 1);
    }
  }

  lemma {:induction false} ValueShifted(w: string, text: string, i: nat, j: nat)
    requires i <= j <= |text|
    ensures ValueIn(w + text, |w| + i, |w| + j) == ValueIn(text, i, j)
  {
    if i < j {
      ValueShifted(w, text, i, j - 1);
      assert (w + text)[|w| + j - 1] == text[j - 1];
    }
  }

  /** White space before a number is skipped. */
  lemma SpaceIsSkipped(w: string, text: string)
    requires forall k :: 0 <= k < |w| ==> IsSpace(w[k])
    ensures var m, n := ReadNumeral(w + text, 0), ReadNumeral(text, 0);
            SameNumber(m, n) && (n.Numeral? ==> m.end == |w| + n.end)
  {
    var p := SpaceEnd(text, 0);
    SpaceEndAfter(w, text, 0);
    assert p < |text| ==> (w + text)[|w| + p] == text[p];
    var sign := if p < |text| && (text[p] == '+' || text[p] == '-') then p + 1 else p;
    DigitsEndShifted(w, text, sign);
    ValueShifted(w, text, sign, DigitsEnd(text, sign));
  }
}
