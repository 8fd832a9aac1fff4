/**
 * Positional numerals: the arithmetic that the source delegates to decimal.js
 * (reading a `0x…` or `0b…` literal as an exact integer, rendering an integer
 * in decimal) and to JavaScript's own number conversions (`parseInt`,
 * `'' + n`), stated over unbounded integers and strings of characters.
 */
module Numerals {

  /** base^k */
  function Pow(base: nat, k: nat): nat
  {
    if k == 0 then 1 else base * Pow(base, k - 1)
  }

  lemma {:induction false} PowPositive(base: nat, k: nat)
    requires base >= 1
    ensures Pow(base, k) >= 1
  {
    if k > 0 {
      PowPositive(base, k - 1);
      assert base * Pow(base, k - 1) >= Pow(base, k - 1);
    }
  }

  lemma {:induction false} PowMonotone(base: nat, i: nat, j: nat)
    requires base >= 1 && i <= j
    ensures Pow(base, i) <= Pow(base, j)
  {
    if i < j {
      PowMonotone(base, i, j - 1);
      PowPositive(base, j - 1);
      assert base * Pow(base, j - 1) >= Pow(base, j - 1);
    }
  }

  /** A character that can stand for a digit in some base up to sixteen. */
  predicate IsHexChar(c: char)
  {
    ('0' <= c <= '9') || ('a' <= c <= 'f') || ('A' <= c <= 'F')
  }

  /** The digit value of a character, either case for the letters. */
  function CharValue(c: char): (d: nat)
    requires IsHexChar(c)
    ensures d < 16
    ensures ('0' <= c <= '9') <==> d < 10
  {
    if '0' <= c <= '9' then c as int - '0' as int
    else if 'a' <= c <= 'f' then c as int - 'a' as int + 10
    else c as int - 'A' as int + 10
  }

  predicate IsDigitIn(c: char, base: nat)
  {
    IsHexChar(c) && CharValue(c) < base
  }

  predicate AllDigitsIn(s: string, base: nat)
  {
    forall i :: 0 <= i < |s| ==> IsDigitIn(s[i], base)
  }

  /** The value of a numeral in the given base, most significant digit first. */
  function NumeralValue(s: string, base: nat): nat
    requires AllDigitsIn(s, base)
  {
    if s == [] then 0
    else NumeralValue(s[..|s| - 1], base) * base + CharValue(s[|s| - 1])
  }

  /** Reading a concatenation: the left part is shifted by the length of the right. */
  lemma {:induction false} NumeralValueConcat(a: string, b: string, base: nat)
    requires AllDigitsIn(a, base) && AllDigitsIn(b, base)
    ensures AllDigitsIn(a + b, base)
    ensures NumeralValue(a + b, base) == NumeralValue(a, base) * Pow(base, |b|) + NumeralValue(b, base)
    decreases |b|
  {
    if b == [] {
      assert a + b == a;
    } else {
      var b' := b[..|b| - 1];
      var c := b[|b| - 1];
      assert (a + b)[..|a + b| - 1] == a + b';
      assert (a + b)[|a + b| - 1] == c;
      NumeralValueConcat(a, b', base);
      ShiftStep(NumeralValue(a, base), NumeralValue(b', base), Pow(base, |b'|), base, CharValue(c));
    }
  }

  lemma ShiftStep(x: nat, y: nat, p: nat, base: nat, d: nat)
    ensures (x * p + y) * base + d == x * (base * p) + (y * base + d)
  {
    assert (x * p) * base == x * (base * p);
  }

  /** A numeral of k digits denotes less than base^k. */
  lemma {:induction false} NumeralValueBound(s: string, base: nat)
    requires AllDigitsIn(s, base)
    ensures NumeralValue(s, base) < Pow(base, |s|)
  {
    if s != [] {
      var t := s[..|s| - 1];
      NumeralValueBound(t, base);
      BoundStep(NumeralValue(t, base), CharValue(s[|s| - 1]), Pow(base, |t|), base);
    }
  }

  lemma BoundStep(x: nat, d: nat, p: nat, base: nat)
    requires x < p && d < base
    ensures x * base + d < base * p
  {
    assert (x + 1) * base <= p * base;
  }

  /** The value of a numeral split after its leading digit. */
  lemma NumeralValueLeading(s: string, base: nat)
    requires |s| >= 1 && AllDigitsIn(s, base)
    ensures NumeralValue(s, base) == CharValue(s[0]) * Pow(base, |s| - 1) + NumeralValue(s[1..], base)
  {
    assert s == [s[0]] + s[1..];
    NumeralValueConcat([s[0]], s[1..], base);
    assert [s[0]][..0] == [];
  }

  /** The value of a four-digit numeral, written out. */
  lemma NumeralValueFour(b: string, base: nat)
    requires |b| == 4 && AllDigitsIn(b, base)
    ensures NumeralValue(b, base) == ((CharValue(b[0]) * base + CharValue(b[1])) * base + CharValue(b[2])) * base + CharValue(b[3])
  {
    var b3, b2, b1 := b[..3], b[..2], b[..1];
    assert b3[..2] == b2 && b2[..1] == b1 && b1[..0] == [];
    assert NumeralValue(b1, base) == CharValue(b[0]);
    assert NumeralValue(b2, base) == CharValue(b[0]) * base + CharValue(b[1]);
    assert NumeralValue(b3, base) == NumeralValue(b2, base) * base + CharValue(b[2]);
  }

  // ---------------------------------------------------------------------------
  // Decimal rendering (decimal.js `toString` of an integer, JavaScript `'' + n`)
  // ---------------------------------------------------------------------------

  predicate AllDecimal(s: string)
  {
    AllDigitsIn(s, 10)
  }

  function DigitChar(d: nat): (c: char)
    requires d < 10
    ensures IsDigitIn(c, 10) && CharValue(c) == d
  {
    ('0' as int + d) as char
  }

  /** The shortest decimal numeral of n, without a sign and without leading zeros. */
  function DecimalString(n: nat): (s: string)
    ensures |s| >= 1 && AllDecimal(s)
  {
    if n < 10 then [DigitChar(n)] else DecimalString(n / 10) + [DigitChar(n % 10)]
  }

  /** Reading back a rendered natural gives it back. */
  lemma {:induction false} DecimalStringRoundTrip(n: nat)
    ensures NumeralValue(DecimalString(n), 10) == n
  {
    var s := DecimalString(n);
    if n < 10 {
      assert s[..0] == [];
    } else {
      assert s[..|s| - 1] == DecimalString(n / 10);
      DecimalStringRoundTrip(n / 10);
    }
  }

  /** The rendering has no leading zero: its length pins n between two powers of ten. */
  lemma {:induction false} DecimalStringLength(n: nat)
    ensures n < Pow(10, |DecimalString(n)|)
    ensures |DecimalString(n)| > 1 ==> Pow(10, |DecimalString(n)| - 1) <= n
  {
    if n >= 10 {
      var s' := DecimalString(n / 10);
      DecimalStringLength(n / 10);
      assert |DecimalString(n)| == |s'| + 1;
      if |s'| > 1 {
        assert Pow(10, |s'|) == 10 * Pow(10, |s'| - 1);
      }
    }
  }

  /** For k >= 1, the rendering of n is longer than k exactly when n >= 10^k. */
  lemma DecimalStringLonger(n: nat, k: nat)
    requires k >= 1
    ensures |DecimalString(n)| > k <==> n >= Pow(10, k)
  {
    var len := |DecimalString(n)|;
    DecimalStringLength(n);
    if len > k {
      PowMonotone(10, k, len - 1);
    } else {
      PowMonotone(10, len, k);
    }
  }

  // ---------------------------------------------------------------------------
  // Signed decimal keys
  // ---------------------------------------------------------------------------

  /** An optional minus sign followed by at least one decimal digit. */
  predicate IsNumeral(s: string)
  {
    |s| >= 1 &&
    if s[0] == '-' then |s| >= 2 && AllDecimal(s[1..]) else AllDecimal(s)
  }

  /** The integer a numeral denotes (`parseInt(s)` on such a string): negative only with a `-`. */
  function ParseSigned(s: string): (r: int)
    requires IsNumeral(s)
    ensures r < 0 ==> s[0] == '-'
    ensures s[0] == '-' ==> r <= 0
  {
    if s[0] == '-' then -(NumeralValue(s[1..], 10) as int) else NumeralValue(s, 10)
  }

  /** The decimal rendering of an integer, with a leading `-` when it is negative. */
  function Render(i: int): (s: string)
    ensures IsNumeral(s)
    ensures s[0] == '-' <==> i < 0
  {
    if i < 0 then
      assert ("-" + DecimalString(-i))[1..] == DecimalString(-i);
      "-" + DecimalString(-i)
    else
      DecimalString(i)
  }

  /** Parsing undoes rendering, so rendering is injective. */
  lemma RenderRoundTrip(i: int)
    ensures ParseSigned(Render(i)) == i
  {
    if i < 0 {
      assert Render(i)[1..] == DecimalString(-i);
      DecimalStringRoundTrip(-i);
    } else {
      DecimalStringRoundTrip(i);
    }
  }

  lemma RenderInjective(i: int, j: int)
    ensures Render(i) == Render(j) <==> i == j
  {
    RenderRoundTrip(i);
    RenderRoundTrip(j);
  }
}
