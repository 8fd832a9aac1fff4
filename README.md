# node-shard, modelled in Dafny

node-shard picks a Redis shard for a session identifier by consistent hashing.
`init` places 160·weight virtual nodes per configured shard on a ring: each node
is the 64-bit murmur hash of a name derived from the shard, rendered by `hash` as
the decimal text of the signed 64-bit integer a Java `long` would hold. The
nodes are split into sign, high and low parts by `generateNode` and sorted with
`compare`. `getShard` hashes the identifier the same way, binary-searches the
sorted ring with `findRecentKey`, and returns the configuration record of the
shard of the node it finds.

The project has five modules, one per piece of the program:

- `Numerals` (numerals.dfy): positional numerals in bases 2, 10 and 16, decimal
  rendering and parsing. It stands for decimal.js and for JavaScript's
  `parseInt` and `'' + n`, over unbounded integers.
- `SignedHash` (signed_hash.dfy): the complement table `hexBinMap`, the signed
  reinterpretation of a 64-bit pattern, and `hash` as a method with the source's
  push loop over `bins`, proved equal to the specification function `HashKey`.
- `NodeOrdering` (node_ordering.dfy): `generateNode`, `compare` and the sorted
  ring. The sort is specified by its outcome: a permutation sorted by `compare`.
- `RingLookup` (ring_lookup.dfy): `findRecentKey`, modelled as written. Its
  outcome is `Hit(node)`, `Miss` (the function returns `undefined`) or `Fault`
  (the TypeError JavaScript throws when `compare` reads a field of the missing
  element `hashKeyArr[hashKeyArr.length]`).
- `ShardRing` (shard_ring.dfy): the module state (`shards`, `hashKeyArr`) as the
  class `ShardSelector`, with `InsertNode`, `Init` and `GetShard`.

What the lookup does, as the code is written:

- The size-one window tests the node at `end`, so index 0 is never returned. A
  query below the first node resolves to the node at index 1.
- A query above the last node, and every query on a one-node ring, reaches the
  out-of-range read and throws.
- `findRecentKey` returns `undefined` only for an empty ring. The fallback
  `shards[hashKeyArr[0].shardIndex]` then reads a missing element and throws as
  well, so that fallback never yields a shard.
- On a ring of at least two nodes, a query no greater than the last node yields
  the shard of either a probed node equal to the query or the first node after
  index 0 whose value exceeds the query.

`generateNode` keeps `low` under 10^8 for keys of ten or more characters. A
positive key of at most nine digits keeps its whole value in `low`, which is
then under 10^9. The comparator still orders every key by its value.

## Model

| member | source | states |
|---|---|---|
| Numerals.Render | src/index.js:53-56 | The decimal text of an integer is a numeral, and it starts with `-` exactly when the integer is negative |
| Numerals.RenderRoundTrip | src/index.js:94-95 | Parsing the rendering of any integer gives the integer back |
| Numerals.RenderInjective | src/index.js:171 | Two integers have the same decimal text exactly when they are equal |
| Numerals.DecimalStringRoundTrip | src/index.js:56 | Rendering a natural number in decimal and reading it back gives the number |
| Numerals.DecimalStringLonger | src/index.js:93 | For k >= 1, the decimal text of n has more than k digits exactly when n >= 10^k |
| Numerals.ParseSigned | src/index.js:94-96 | `parseInt` of a numeral: negative only with a leading `-`, never positive with one; with RenderRoundTrip it gives back the integer a key renders, so `high > 0` and `Math.abs` act on exact values |
| Numerals.NumeralValueConcat | src/index.js:94-95 | Splitting a numeral: the value of a + b is value(a)·base^|b| + value(b) |
| SignedHash.HexBinMapComplements | src/index.js:5-28 | The table's keys are exactly the hex digits of either case, and each maps to a 4-bit binary string of value 15 − d |
| SignedHash.ToSigned64 | src/index.js:43-58 | The reinterpretation lies in [−2^63, 2^63), agrees with the pattern modulo 2^64, and is negative exactly when the top bit is set |
| SignedHash.ComplementValue | src/index.js:47-53 | The complemented bits read as binary add up with the hex value to 16^len − 1, so complement plus one is 2^64 − v |
| SignedHash.LeadingDigitTopBit | src/index.js:46 | For sixteen hex digits, the value is below 2^64 and the leading digit exceeds 7 exactly when the value is at least 2^63 |
| SignedHash.HashKey | src/index.js:43-58 | The text `hash` returns is a signed decimal numeral: the rendering of the Java `long` with the murmur bits |
| SignedHash.HashKeyValue | src/index.js:45-57 | The value of the hash is v for a leading digit 0–7 and v − 2^64 for 8–f; it lies in [−2^63, 2^63) and is negative exactly when the leading digit exceeds 7 |
| SignedHash.NegativeHashKey | src/index.js:46-54 | For a leading digit above 7, `-` followed by the decimal text of the complemented bits plus one is the rendering of the signed value |
| SignedHash.PositiveHashKey | src/index.js:55-57 | For a leading digit of at most 7, the decimal text of the hex value is the rendering of the signed value |
| SignedHash.ComplementLiteral | lib/index.js:62-73 | The push loop over the digits leaves `bins` joined as `0b` followed by the complement of every digit |
| SignedHash.Hash | lib/index.js:58-95 | Complement plus one with a `-` prefix, or direct conversion, returns exactly `HashKey` |
| NodeOrdering.GenerateNode | src/index.js:90-116 | The node keeps the key text it was built from |
| NodeOrdering.KeyOfParts | src/index.js:93-113 | The rendering of i splits into sign i > 0, high part |i| div 10^8 (0 for short positive keys) and low part |i| mod 10^8 (the whole of a short positive key) |
| NodeOrdering.KeyOfValue | lib/index.js:127-153 | The sign and the two parts give back the integer exactly; `isPositive` holds exactly for i > 0, so key "0" is not positive; `low` is under 10^8, or under 10^9 for a short positive key |
| NodeOrdering.Compare | src/index.js:133-150 | `compare` is zero exactly when sign, high and low parts agree; CompareAntisymmetric, CompareTransitive and CompareMatchesValue give its order |
| NodeOrdering.CompareMatchesValue | src/index.js:133-150 | On keys `hash` produces, `compare` is negative, zero or positive exactly as the first value is below, equal to or above the second |
| NodeOrdering.CompareAntisymmetric | lib/index.js:170-187 | compare(x, x) = 0 and compare(a, b) = −compare(b, a) for all nodes |
| NodeOrdering.CompareTransitive | src/index.js:141-149 | `compare` is transitive, for both the non-strict and the strict order |
| NodeOrdering.KeyTextMatchesValue | src/index.js:171 | Two keys have the same text exactly when they have the same value |
| NodeOrdering.KeysAgree | src/index.js:171-175 | On keys `hash` produces, `compare` and text equality both follow the values, in both directions |
| NodeOrdering.Insert | src/index.js:82 | Inserting a node adds exactly that node to the multiset of the ring |
| NodeOrdering.InsertSorted | src/index.js:82 | Inserting into a ring sorted by `compare` keeps it sorted |
| NodeOrdering.SortNodes | lib/index.js:119 | The sort is a permutation of its input |
| NodeOrdering.SortNodesSorted | src/index.js:82 | The outcome of the sort is sorted by `compare` |
| NodeOrdering.SortedKeysByValue | src/index.js:82 | A ring of keys sorted by `compare` is sorted by value |
| RingLookup.FindRecentKey | src/index.js:155-180 | A node the search returns lies strictly after `start` and at or before `end`, so index 0 is never returned; it throws only when `end` is the ring's length |
| RingLookup.FindRecentKeyMissesOnlyEmpty | src/index.js:156-166 | When the nodes past the window exceed the query, the search returns `undefined` exactly for an empty window, and a one-slot window inside the ring returns the node at `end` |
| RingLookup.FindRecentKeyNoSmaller | lib/index.js:192-217 | A node the search returns is never smaller than the query |
| RingLookup.FindRecentKeySuccessor | src/index.js:160-179 | On a sorted ring with a query at most the last node, the search returns a node at an index in (start, end] whose value equals the query, or the first node after index 0 that exceeds it |
| RingLookup.FindRecentKeyPastLast | src/index.js:161 | A query above the last node ends in the out-of-range read and throws |
| RingLookup.FindRecentKeyBelowFirst | lib/index.js:197-203 | On a ring of at least two nodes, a query below the first node returns the node at index 1 |
| ShardRing.Unnamed | src/index.js:69 | `!cfg.name` holds for a missing or empty name, so a named shard has a non-empty name |
| ShardRing.VirtualNodeName | src/index.js:71-76 | The hashed name ends with the decimal digits of the node counter n |
| ShardRing.VirtualNodeNamesDistinct | src/index.js:70-78 | Within one shard, two counters give the same name exactly when they are equal, so each shard hashes 160·weight distinct names |
| ShardRing.ShardSlots | src/index.js:70-78 | A shard's loop visits exactly `count` node names |
| ShardRing.ShardSlotsAt | src/index.js:70-78 | Name n of a shard's loop is `SHARD-i-NODE-n`, or name*weight followed by n for a named shard, with shard index i |
| ShardRing.RingSlotsAt | src/index.js:68-80 | The names of shard i follow the 160·weight names of each shard before it |
| ShardRing.KeyNodesAt | src/index.js:123-126 | The node pushed at position k is the node generated from the hash of name k |
| ShardRing.RingNodesLength | src/index.js:68-80 | The ring gets Σ 160·weight nodes |
| ShardRing.RingNodesAt | src/index.js:69-78 | Node n of shard i sits right after the nodes of the shards before i; it carries shard index i and the key of `SHARD-i-NODE-n`, or of name*weight followed by n for a named shard |
| ShardRing.RingNodesWellFormed | lib/index.js:105-117 | Every pushed node names a configured shard and carries a key in the form `hash` produces |
| ShardRing.SortedRingWellFormed | src/index.js:63-83 | After the sort the ring is sorted by `compare`, has Σ 160·weight nodes, and every node names a configured shard with a key in the form `hash` produces |
| ShardRing.ShardAt | src/index.js:189 | `shards[index]` is the record at that index when it exists and `undefined` past the end; it never throws |
| ShardRing.Lookup | src/index.js:187-189 | The body of `getShard` after hashing: an empty ring throws, and a shard it returns is the record of some ring node's shard index; LookupResolves says which node |
| ShardRing.LookupResolves | src/index.js:187-189 | On a ring sorted by value whose nodes name configured shards: an empty or one-node ring, or a query above the last node, throws; otherwise the result is the shard of a node at index >= 1 equal to the query or its successor, so the fallback to node 0 never yields a shard |
| ShardRing.ShardRingResolves | src/index.js:185-190 | On a ring sorted by `compare` whose nodes are keys of configured shards, the lookup of any identifier keeps that promise |
| ShardRing.QueryIsKey | src/index.js:186-187 | The node built from an identifier's hash is a key in the form `hash` produces |
| ShardRing.ShardSelector.constructor | src/index.js:31-33 | The module starts with no shards and an empty ring |
| ShardRing.ShardSelector.InsertNode | src/index.js:123-126 | The node of the key is appended to the ring, and nothing else changes |
| ShardRing.ShardSelector.Init | src/index.js:63-83 | Once shards are configured, nothing changes; otherwise the ring becomes the sorted permutation of the Σ 160·weight generated nodes, and `shards` the configuration; the ring stays sorted |
| ShardRing.ShardSelector.GetShard | src/index.js:185-190 | The result is the lookup of the identifier's query node: an empty or one-node ring, or a query above the last node, throws; otherwise the result is the shard of a node at index >= 1 that equals the query or is its successor |

## Left out

- The murmur primitive `murmurHash64x64` is a native addon. It is a parameter of `Hash`, `HashKey`, `Init` and `GetShard`, assumed to return exactly sixteen hex digits; with fewer digits the leading-digit sign test would be wrong.
- decimal.js is not modelled; exact integer arithmetic and decimal rendering replace it.
- JavaScript number semantics (`parseInt`, `Math.abs`, `hashKey > 0` on a string) are modelled on unbounded integers; every value involved fits a double exactly.
- Weights are natural numbers; fractional or non-numeric weights are not modelled.
- The configuration is taken by value. In the source, `shards = shardConfig` keeps a reference to the caller's array, and `getShard` returns the caller's own record objects. A caller that alters or empties that array after `init` changes the module state: with an emptied array the guard lets `init` run again, and it pushes onto the ring it never cleared. The model assumes the configuration is not changed after `init`, which `Valid()` reflects (no shards means an empty ring), and returns records as values rather than references.
- A shard's configuration record is modelled as a name and a weight; its other fields are passed through untouched by the source and are not represented.
- `Array.prototype.sort` is modelled by one stable insertion sort. Any sorted permutation orders the nodes identically except for ties between nodes of equal value, which the model places in push order.
- `shards[i]` past the end of `shards` is `undefined` in JavaScript; `ShardAt` returns `Undefined` there. After `init` every node names a configured shard, so that outcome does not arise.
- The query node of `getShard` is a bare key: its `shardIndex` is `undefined` in the source and is never read.
- The lemmas about keys cover canonical numerals, the only ones `hash` produces; keys with leading zeros are outside them.
- Babel's runtime iterator and `try`/`finally` wrapper in lib/index.js:64-88 are modelled by the plain loop of src/index.js:49-51; the module export wiring is left out.
- The test script test/test.js (file I/O, logging, config loading) is not part of this model.
- Statistical claims about load balance or remapping depend on the hash function and are not modelled.
