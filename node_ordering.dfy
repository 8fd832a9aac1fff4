/**
 * NodeOrdering: the ring's node representation and its comparator.
 * `generateNode` splits a signed decimal key into a sign flag and two
 * non-negative parts, `high` (all digits but the last eight) and `low` (the
 * last eight), so that the parts stay exact in a JavaScript double; `compare`
 * orders nodes by sign, then `high`, then `low`. The ring is sorted with it.
 */
module NodeOrdering {
  import opened Numerals

  /** Ten to the eighth: `low` holds the last eight decimal digits. */
  const LowBase: nat := 100_000_000

  /** A node's key: sign, high part, low part and the decimal text it came from. */
  datatype HashValue = HashValue(isPositive: bool, high: nat, low: nat, hashKey: string)

  /** A virtual node on the ring: its key and the index of the shard it stands for. */
  datatype Node = Node(key: HashValue, shardIndex: nat)

  function Abs(i: int): nat
  {
    if i < 0 then -i else i
  }

  lemma SplitIsNumeral(s: string)
    requires IsNumeral(s) && |s| >= 10
    ensures IsNumeral(s[..|s| - 8]) && AllDecimal(s[|s| - 8..])
  {
    var p := s[..|s| - 8];
    if s[0] == '-' {
      assert p[1..] == s[1..][..|s| - 9];
      assert s[|s| - 8..] == s[1..][|s| - 9..];
    }
  }

  /**
   * `generateNode` without its shard index: keys of ten or more characters (the
   * `-` included) are split before their last eight characters; shorter keys get
   * `high = 0` and the whole magnitude as `low`.
   */
  function GenerateNode(hashKey: string): (v: HashValue)
    requires IsNumeral(hashKey)
    ensures v.hashKey == hashKey
  {
    if |hashKey| >= 10 then
      SplitIsNumeral(hashKey);
      var high := ParseSigned(hashKey[..|hashKey| - 8]);
      var low := NumeralValue(hashKey[|hashKey| - 8..], 10);
      HashValue(high > 0, Abs(high), low, hashKey)
    else
      var x := ParseSigned(hashKey);
      HashValue(x > 0, 0, Abs(x), hashKey)
  }

  /** The signed integer a key's three parts stand for. */
  function Value(v: HashValue): int
  {
    if v.isPositive then v.high * LowBase + v.low else -(v.high * LowBase + v.low)
  }

  /** The node key of the decimal rendering of i, as `hash` produces it. */
  function KeyOf(i: int): HashValue
  {
    GenerateNode(Render(i))
  }

  /** A key in the form `hash` produces: the key of its own value. */
  predicate IsKey(v: HashValue)
  {
    v == KeyOf(Value(v))
  }

  /** The high part of a rendered integer: zero for the positive keys of at most nine digits. */
  function HighPart(i: int): nat
  {
    if 0 < i < 1_000_000_000 then 0 else Abs(i) / LowBase
  }

  /** The low part of a rendered integer: its last eight digits, or all of a short positive key. */
  function LowPart(i: int): nat
  {
    if 0 < i < 1_000_000_000 then i else Abs(i) % LowBase
  }

  lemma LastEightDigits(d: string)
    requires AllDecimal(d) && |d| >= 8
    ensures AllDecimal(d[..|d| - 8]) && AllDecimal(d[|d| - 8..])
    ensures NumeralValue(d[..|d| - 8], 10) == NumeralValue(d, 10) / LowBase
    ensures NumeralValue(d[|d| - 8..], 10) == NumeralValue(d, 10) % LowBase
  {
    var p, q := d[..|d| - 8], d[|d| - 8..];
    assert d == p + q;
    assert AllDecimal(p) && AllDecimal(q);
    NumeralValueConcat(p, q, 10);
    NumeralValueBound(q, 10);
    assert Pow(10, 8) == LowBase;
    DivModUnique(NumeralValue(d, 10), NumeralValue(p, 10), NumeralValue(q, 10));
  }

  lemma DivModUnique(n: nat, q: nat, r: nat)
    requires n == q * LowBase + r && r < LowBase
    ensures q == n / LowBase && r == n % LowBase
  {
  }

  /** The exact parts `generateNode` gives the rendering of any integer. */
  lemma KeyOfParts(i: int)
    ensures KeyOf(i) == HashValue(i > 0, HighPart(i), LowPart(i), Render(i))
  {
    if i >= 0 {
      KeyOfPartsNonNegative(i);
    } else {
      KeyOfPartsNegative(i);
    }
  }

  lemma KeyOfPartsNonNegative(i: nat)
    ensures KeyOf(i) == HashValue(i > 0, HighPart(i), LowPart(i), Render(i))
  {
    var s := Render(i);
    RenderRoundTrip(i);
    assert Pow(10, 9) == 1_000_000_000;
    DecimalStringLonger(i, 9);
    if |s| >= 10 {
      LastEightDigits(s);
      assert ParseSigned(s[..|s| - 8]) == i / LowBase;
    }
  }

  lemma KeyOfPartsNegative(i: int)
    requires i < 0
    ensures KeyOf(i) == HashValue(false, HighPart(i), LowPart(i), Render(i))
  {
    var s := Render(i);
    RenderRoundTrip(i);
    var d := DecimalString(-i);
    assert s == "-" + d;
    assert Pow(10, 8) == LowBase;
    DecimalStringLonger(-i, 8);
    if |s| >= 10 {
      NegativeSplit(d, -i);
    }
  }

  /** The split of a long negative key: the part before the last eight digits parses as -(n div 10^8). */
  lemma NegativeSplit(d: string, n: nat)
    requires AllDecimal(d) && |d| >= 9 && NumeralValue(d, 10) == n
    ensures var s := "-" + d;
      ParseSigned(s[..|s| - 8]) == -(n / LowBase) &&
      NumeralValue(s[|s| - 8..], 10) == n % LowBase
  {
    var s := "-" + d;
    LastEightDigits(d);
    var p := s[..|s| - 8];
    assert p == "-" + d[..|d| - 8];
    assert p[1..] == d[..|d| - 8];
    assert s[|s| - 8..] == d[|d| - 8..];
  }

  /**
   * `generateNode` reconstructs every rendered integer exactly: its parts give
   * back the integer, `low` is under 10^8 except for a positive key of at most
   * nine digits (where it is the whole value), and the result is a key.
   */
  lemma KeyOfValue(i: int)
    ensures Value(KeyOf(i)) == i
    ensures IsKey(KeyOf(i))
    ensures KeyOf(i).isPositive <==> i > 0
    ensures KeyOf(i).low < (if 0 < i < 1_000_000_000 then 1_000_000_000 else LowBase)
    ensures KeyOf(i).hashKey == Render(i)
  {
    KeyOfParts(i);
  }

  /**
   * `compare`: a number that is negative, zero or positive as a sorts before,
   * with or after b. It is zero exactly when the two keys have the same parts.
   */
  function Compare(a: HashValue, b: HashValue): (r: int)
    ensures r == 0 <==> a.isPositive == b.isPositive && a.high == b.high && a.low == b.low
  {
    if !a.isPositive && b.isPositive then -1
    else if a.isPositive && !b.isPositive then 1
    else
      var sign := if a.isPositive then 1 else -1;
      if a.high < b.high then -sign
      else if a.high > b.high then sign
      else sign * (a.low - b.low)
  }

  /** The comparator is reflexive and antisymmetric on every pair of keys. */
  lemma CompareAntisymmetric(a: HashValue, b: HashValue)
    ensures Compare(a, a) == 0
    ensures Compare(a, b) == -Compare(b, a)
  {
  }

  /** The comparator is transitive on every triple of keys. */
  lemma CompareTransitive(a: HashValue, b: HashValue, c: HashValue)
    ensures Compare(a, b) <= 0 && Compare(b, c) <= 0 ==> Compare(a, c) <= 0
    ensures Compare(a, b) < 0 && Compare(b, c) <= 0 ==> Compare(a, c) < 0
  {
  }

  /** On keys produced from integers, the comparator's sign is the sign of the difference. */
  lemma CompareMatchesValue(a: HashValue, b: HashValue)
    requires IsKey(a) && IsKey(b)
    ensures Compare(a, b) < 0 <==> Value(a) < Value(b)
    ensures Compare(a, b) == 0 <==> Value(a) == Value(b)
    ensures Compare(a, b) > 0 <==> Value(a) > Value(b)
  {
    var x, y := Value(a), Value(b);
    KeyOfParts(x);
    KeyOfParts(y);
    assert x == HighPart(x) * LowBase + LowPart(x) || x == -(HighPart(x) * LowBase + LowPart(x));
  }

  /** Two keys have the same text exactly when they have the same value. */
  lemma KeyTextMatchesValue(a: HashValue, b: HashValue)
    requires IsKey(a) && IsKey(b)
    ensures a.hashKey == b.hashKey <==> Value(a) == Value(b)
  {
    RenderInjective(Value(a), Value(b));
  }

  /** What the search needs of a pair of keys: `compare` and text equality follow the values. */
  predicate Agree(a: HashValue, b: HashValue)
  {
    (Compare(a, b) < 0 <==> Value(a) < Value(b)) &&
    (Compare(a, b) == 0 <==> Value(a) == Value(b)) &&
    (Compare(a, b) > 0 <==> Value(a) > Value(b)) &&
    (a.hashKey == b.hashKey <==> Value(a) == Value(b))
  }

  lemma KeysAgree(a: HashValue, b: HashValue)
    requires IsKey(a) && IsKey(b)
    ensures Agree(a, b) && Agree(b, a)
  {
    CompareMatchesValue(a, b);
    CompareMatchesValue(b, a);
    KeyTextMatchesValue(a, b);
  }

  // ---------------------------------------------------------------------------
  // Sorting the ring
  // ---------------------------------------------------------------------------

  /** Ascending by `compare`. */
  predicate Sorted(ring: seq<Node>)
  {
    forall i, j :: 0 <= i < j < |ring| ==> Compare(ring[i].key, ring[j].key) <= 0
  }

  /** Insert x after every node that does not compare greater than it. */
  function Insert(x: Node, s: seq<Node>): (r: seq<Node>)
    ensures multiset(r) == multiset(s) + multiset{x}
  {
    if s == [] then [x]
    else if Compare(x.key, s[0].key) < 0 then [x] + s
    else
      assert s == [s[0]] + s[1..];
      [s[0]] + Insert(x, s[1..])
  }

  lemma {:induction false} InsertSorted(x: Node, s: seq<Node>)
    requires Sorted(s)
    ensures Sorted(Insert(x, s))
  {
    var r := Insert(x, s);
    if s == [] {
    } else if Compare(x.key, s[0].key) < 0 {
      forall j | 0 < j < |r| ensures Compare(r[0].key, r[j].key) <= 0 {
        CompareTransitive(x.key, s[0].key, s[j - 1].key);
      }
    } else {
      var t := s[1..];
      assert Sorted(t);
      InsertSorted(x, t);
      var rt := Insert(x, t);
      assert r == [s[0]] + rt;
      forall j | 0 <= j < |rt| ensures Compare(s[0].key, rt[j].key) <= 0 {
        assert rt[j] in multiset(rt);
        assert rt[j] == x || rt[j] in multiset(t);
        if rt[j] == x {
          CompareAntisymmetric(x.key, s[0].key);
        } else {
          var k :| 0 <= k < |t| && t[k] == rt[j];
          assert s[k + 1] == t[k];
        }
      }
    }
  }

  /** The sorted ring: a stable insertion sort by `compare`. */
  function SortNodes(s: seq<Node>): (r: seq<Node>)
    ensures multiset(r) == multiset(s)
  {
    if s == [] then []
    else
      assert s == s[..|s| - 1] + [s[|s| - 1]];
      Insert(s[|s| - 1], SortNodes(s[..|s| - 1]))
  }

  /** The outcome of the sort is sorted by `compare`. */
  lemma {:induction false} SortNodesSorted(s: seq<Node>)
    ensures Sorted(SortNodes(s))
  {
    if s != [] {
      SortNodesSorted(s[..|s| - 1]);
      InsertSorted(s[|s| - 1], SortNodes(s[..|s| - 1]));
    }
  }

  /** Ascending by value. */
  predicate SortedByValue(ring: seq<Node>)
  {
    forall i, j :: 0 <= i < j < |ring| ==> Value(ring[i].key) <= Value(ring[j].key)
  }

  /** A ring of keys sorted by `compare` is sorted by value. */
  lemma SortedKeysByValue(ring: seq<Node>)
    requires Sorted(ring)
    requires forall k :: 0 <= k < |ring| ==> IsKey(ring[k].key)
    ensures SortedByValue(ring)
  {
    forall i, j | 0 <= i < j < |ring| ensures Value(ring[i].key) <= Value(ring[j].key) {
      CompareMatchesValue(ring[i].key, ring[j].key);
    }
  }
}
