/**
 * SignedHash64: the `hash` function of the ring. The 64-bit murmur primitive
 * yields sixteen hex digits; `hash` renders them as the decimal text of the
 * signed 64-bit integer that a Java `long` holding the same bits would have,
 * complementing the nibbles through `hexBinMap` when the top bit is set.
 */
module SignedHash {
  import opened Numerals

  /** The seed `hash` passes to the murmur primitive. */
  const Seed: nat := 0x1234ABCD

  const TwoTo63: nat := 0x8000_0000_0000_0000
  const TwoTo64: nat := 0x1_0000_0000_0000_0000

  /** What the murmur primitive returns: exactly sixteen hex digits. */
  type Hex64 = s: string | |s| == 16 && AllDigitsIn(s, 16) witness "0000000000000000"

  /** The nibble-complement table, keyed by either case of the hex digits. */
  const HexBinMap: map<char, string> := map[
    '0' := "1111", '1' := "1110", '2' := "1101", '3' := "1100",
    '4' := "1011", '5' := "1010", '6' := "1001", '7' := "1000",
    '8' := "0111", '9' := "0110",
    'a' := "0101", 'b' := "0100", 'c' := "0011", 'd' := "0010", 'e' := "0001", 'f' := "0000",
    'A' := "0101", 'B' := "0100", 'C' := "0011", 'D' := "0010", 'E' := "0001", 'F' := "0000"
  ]

  /** The table is keyed by exactly the hex digits and maps each to the four bits of 15 - d. */
  lemma HexBinMapComplements(c: char)
    ensures c in HexBinMap <==> IsHexChar(c)
    ensures c in HexBinMap ==>
      |HexBinMap[c]| == 4 && AllDigitsIn(HexBinMap[c], 2) &&
      NumeralValue(HexBinMap[c], 2) == 15 - CharValue(c)
  {
    if '0' <= c <= '4' {
      DigitNibble(c);
    } else if '5' <= c <= '9' {
      HighDigitNibble(c);
    } else if 'a' <= c <= 'f' {
      LowerNibble(c);
    } else if 'A' <= c <= 'F' {
      UpperNibble(c);
    }
  }

  // The four lemmas below state one fact for four ranges of characters. The split
  // keeps each proof small: a proof about the whole range would unfold all 22
  // entries of the table at once.
  lemma DigitNibble(c: char)
    requires '0' <= c <= '4'
    ensures c in HexBinMap && |HexBinMap[c]| == 4 && AllDigitsIn(HexBinMap[c], 2)
    ensures NumeralValue(HexBinMap[c], 2) == 15 - CharValue(c)
  {
    NumeralValueFour(HexBinMap[c], 2);
  }

  lemma HighDigitNibble(c: char)
    requires '5' <= c <= '9'
    ensures c in HexBinMap && |HexBinMap[c]| == 4 && AllDigitsIn(HexBinMap[c], 2)
    ensures NumeralValue(HexBinMap[c], 2) == 15 - CharValue(c)
  {
    NumeralValueFour(HexBinMap[c], 2);
  }

  lemma LowerNibble(c: char)
    requires 'a' <= c <= 'f'
    ensures c in HexBinMap && |HexBinMap[c]| == 4 && AllDigitsIn(HexBinMap[c], 2)
    ensures NumeralValue(HexBinMap[c], 2) == 15 - CharValue(c)
  {
    NumeralValueFour(HexBinMap[c], 2);
  }

  lemma UpperNibble(c: char)
    requires 'A' <= c <= 'F'
    ensures c in HexBinMap && |HexBinMap[c]| == 4 && AllDigitsIn(HexBinMap[c], 2)
    ensures NumeralValue(HexBinMap[c], 2) == 15 - CharValue(c)
  {
    NumeralValueFour(HexBinMap[c], 2);
  }

  /** Java's reinterpretation of an unsigned 64-bit pattern as a signed `long`. */
  function ToSigned64(u: nat): (r: int)
    requires u < TwoTo64
    ensures -(TwoTo63 as int) <= r < TwoTo63
    ensures (u - r) % TwoTo64 == 0
    ensures r < 0 <==> u >= TwoTo63
  {
    if u < TwoTo63 then u else u - TwoTo64
  }

  /** The bits produced by looking every digit of s up in the complement table. */
  function Complement(s: string): string
    requires AllDigitsIn(s, 16)
  {
    if s == [] then []
    else
      HexBinMapComplements(s[|s| - 1]);
      Complement(s[..|s| - 1]) + HexBinMap[s[|s| - 1]]
  }

  /** Complementing every nibble gives the binary numeral of 16^|s| - 1 - value(s). */
  lemma {:induction false} ComplementValue(s: string)
    requires AllDigitsIn(s, 16)
    ensures AllDigitsIn(Complement(s), 2)
    ensures NumeralValue(Complement(s), 2) + NumeralValue(s, 16) == Pow(16, |s|) - 1
  {
    if s != [] {
      var p, c := s[..|s| - 1], s[|s| - 1];
      ComplementValue(p);
      HexBinMapComplements(c);
      NumeralValueConcat(Complement(p), HexBinMap[c], 2);
      assert Pow(2, 4) == 16;
      assert Pow(16, |s|) == 16 * Pow(16, |p|);
      ComplementStep(NumeralValue(Complement(p), 2), NumeralValue(p, 16), Pow(16, |p|), NumeralValue(HexBinMap[c], 2), CharValue(c));
    }
  }

  lemma ComplementStep(a: nat, b: nat, p: nat, bits: nat, d: nat)
    requires a + b == p - 1 && bits + d == 15
    ensures (a * 16 + bits) + (b * 16 + d) == 16 * p - 1
  {
  }

  /** The leading hex digit exceeds 7 exactly when the top bit of the 64-bit pattern is set. */
  lemma LeadingDigitTopBit(h: Hex64)
    ensures NumeralValue(h, 16) < TwoTo64
    ensures CharValue(h[0]) > 7 <==> NumeralValue(h, 16) >= TwoTo63
    ensures Pow(16, |h|) == TwoTo64
  {
    NumeralValueLeading(h, 16);
    NumeralValueBound(h[1..], 16);
    assert Pow(16, 5) == 0x10_0000;
    assert Pow(16, 10) == 0x100_0000_0000;
    assert Pow(16, 15) == 0x1000_0000_0000_0000;
    assert Pow(16, 16) == TwoTo64;
  }

  /** The concatenation of the pieces `hash` pushes into `bins`. */
  function Join(pieces: seq<string>): string
  {
    if pieces == [] then [] else Join(pieces[..|pieces| - 1]) + pieces[|pieces| - 1]
  }

  lemma JoinPush(pieces: seq<string>, x: string)
    ensures Join(pieces + [x]) == Join(pieces) + x
  {
    assert (pieces + [x])[..|pieces|] == pieces;
  }

  lemma ComplementPush(s: string, i: nat)
    requires AllDigitsIn(s, 16) && i < |s|
    ensures AllDigitsIn(s[..i], 16) && s[i] in HexBinMap
    ensures Complement(s[..i + 1]) == Complement(s[..i]) + HexBinMap[s[i]]
  {
    HexBinMapComplements(s[i]);
    assert s[..i + 1][..i] == s[..i];
  }

  /** One turn of the push loop extends the literal by the complement of the next digit. */
  lemma LiteralStep(bins: seq<string>, s: string, i: nat)
    requires AllDigitsIn(s, 16) && i < |s|
    requires Join(bins) == "0b" + Complement(s[..i])
    ensures s[i] in HexBinMap
    ensures Join(bins + [HexBinMap[s[i]]]) == "0b" + Complement(s[..i + 1])
  {
    ComplementPush(s, i);
    JoinPush(bins, HexBinMap[s[i]]);
  }

  /** The decimal text `hash` returns for an input: the signed value of the murmur bits. */
  function HashKey(murmur: (string, nat) -> Hex64, str: string): (key: string)
    ensures IsNumeral(key)
  {
    var h := murmur(str, Seed);
    LeadingDigitTopBit(h);
    Render(ToSigned64(NumeralValue(h, 16)))
  }

  /** The signed value that `hash` denotes, with the sign fixed by the leading digit. */
  lemma HashKeyValue(murmur: (string, nat) -> Hex64, str: string)
    ensures var h := murmur(str, Seed);
      var v := ParseSigned(HashKey(murmur, str));
      -(TwoTo63 as int) <= v < TwoTo63 &&
      (v < 0 <==> CharValue(h[0]) > 7) &&
      v == (if CharValue(h[0]) > 7 then NumeralValue(h, 16) - TwoTo64 else NumeralValue(h, 16))
  {
    var h := murmur(str, Seed);
    LeadingDigitTopBit(h);
    RenderRoundTrip(ToSigned64(NumeralValue(h, 16)));
  }

  /** The negative branch of `hash`: complement plus one, with a `-`, is the signed value. */
  lemma NegativeHashKey(h: Hex64)
    requires CharValue(h[0]) > 7
    ensures AllDigitsIn(Complement(h), 2) && NumeralValue(h, 16) < TwoTo64
    ensures "-" + DecimalString(NumeralValue(Complement(h), 2) + 1) == Render(ToSigned64(NumeralValue(h, 16)))
  {
    LeadingDigitTopBit(h);
    ComplementValue(h);
  }

  /** The non-negative branch of `hash`: the hex value rendered directly is the signed value. */
  lemma PositiveHashKey(h: Hex64)
    requires CharValue(h[0]) <= 7
    ensures NumeralValue(h, 16) < TwoTo64
    ensures DecimalString(NumeralValue(h, 16)) == Render(ToSigned64(NumeralValue(h, 16)))
  {
    LeadingDigitTopBit(h);
  }

  /** The push loop of `hash`: the literal `0b` followed by the complement of every digit. */
  method ComplementLiteral(hexStr: Hex64) returns (literal: string)
    ensures literal == "0b" + Complement(hexStr)
  {
    var bins := ["0b"];
    for i := 0 to |hexStr|
      invariant Join(bins) == "0b" + Complement(hexStr[..i])
    {
      LiteralStep(bins, hexStr, i);
      bins := bins + [HexBinMap[hexStr[i]]];
    }
    assert hexStr[..|hexStr|] == hexStr;
    literal := Join(bins);
  }

  /** `hash`: nibble complement plus one for a negative pattern, direct conversion otherwise. */
  method Hash(murmur: (string, nat) -> Hex64, str: string) returns (key: string)
    ensures key == HashKey(murmur, str)
  {
    var hexStr := murmur(str, Seed);
    if CharValue(hexStr[0]) > 7 {
      var literal := ComplementLiteral(hexStr);
      NegativeHashKey(hexStr);
      assert literal[2..] == Complement(hexStr);
      var dec := DecimalString(NumeralValue(literal[2..], 2) + 1);
      key := "-" + dec;
    } else {
      PositiveHashKey(hexStr);
      key := DecimalString(NumeralValue(hexStr, 16));
    }
  }
}
