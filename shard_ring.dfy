/**
 * The shard selector's module state and its two public operations: `init`,
 * which builds the ring of virtual nodes once, and `getShard`, which resolves
 * an identifier to the configuration record of its shard.
 */
module ShardRing {
  import opened Numerals
  import opened SignedHash
  import opened NodeOrdering
  import opened RingLookup

  datatype Option<T> = None | Some(value: T)

  /** A shard's configuration record: an optional name and a weight. */
  datatype ShardConfig = ShardConfig(name: Option<string>, weight: nat)

  /**
   * What `getShard` yields: a shard's record, `undefined` (an index past the end
   * of `shards`), or the TypeError the source throws.
   */
  datatype ShardResult = Ok(shard: ShardConfig) | Undefined | TypeError

  /** Virtual nodes per unit of weight. */
  const NodesPerWeight: nat := 160

  /** The number of virtual nodes of a shard: 160·weight. */
  function NodeCount(cfg: ShardConfig): nat
  {
    NodesPerWeight * cfg.weight
  }

  /** `!cfg.name`: the name is missing or empty, so a named shard has a non-empty name. */
  predicate Unnamed(cfg: ShardConfig): (r: bool)
    ensures !r ==> cfg.name.Some? && |cfg.name.value| > 0
  {
    cfg.name.None? || cfg.name.value == ""
  }

  /** The string hashed for virtual node n of shard i: it ends with the digits of n. */
  function VirtualNodeName(cfg: ShardConfig, i: nat, n: nat): (r: string)
    ensures |DecimalString(n)| < |r| && r[|r| - |DecimalString(n)|..] == DecimalString(n)
  {
    if Unnamed(cfg) then "SHARD-" + DecimalString(i) + "-NODE-" + DecimalString(n)
    else cfg.name.value + "*" + DecimalString(cfg.weight) + DecimalString(n)
  }

  /** The part of a virtual node's name before its counter. */
  function NamePrefix(cfg: ShardConfig, i: nat): string
  {
    if Unnamed(cfg) then "SHARD-" + DecimalString(i) + "-NODE-"
    else cfg.name.value + "*" + DecimalString(cfg.weight)
  }

  /** Within one shard, the virtual nodes get pairwise distinct names. */
  lemma VirtualNodeNamesDistinct(cfg: ShardConfig, i: nat, n: nat, m: nat)
    ensures VirtualNodeName(cfg, i, n) == VirtualNodeName(cfg, i, m) <==> n == m
  {
    var p := NamePrefix(cfg, i);
    assert VirtualNodeName(cfg, i, n) == p + DecimalString(n);
    assert VirtualNodeName(cfg, i, m) == p + DecimalString(m);
    if VirtualNodeName(cfg, i, n) == VirtualNodeName(cfg, i, m) {
      assert (p + DecimalString(n))[|p|..] == DecimalString(n);
      assert (p + DecimalString(m))[|p|..] == DecimalString(m);
      DecimalStringRoundTrip(n);
      DecimalStringRoundTrip(m);
    }
  }

  /** A virtual node before hashing: the string to hash and the shard it stands for. */
  datatype Slot = Slot(name: string, shardIndex: nat)

  /** The first `count` slots of shard i, in the order `init` visits them. */
  function ShardSlots(cfg: ShardConfig, i: nat, count: nat): (r: seq<Slot>)
    ensures |r| == count
  {
    if count == 0 then [] else ShardSlots(cfg, i, count - 1) + [Slot(VirtualNodeName(cfg, i, count - 1), i)]
  }

  /** The slots of all the given shards, in the order `init` visits them. */
  function RingSlots(cfgs: seq<ShardConfig>): seq<Slot>
  {
    if cfgs == [] then []
    else
      var i := |cfgs| - 1;
      RingSlots(cfgs[..i]) + ShardSlots(cfgs[i], i, NodeCount(cfgs[i]))
  }

  /** Σ 160·weight over the shards. */
  function TotalNodes(cfgs: seq<ShardConfig>): nat
  {
    if cfgs == [] then 0 else TotalNodes(cfgs[..|cfgs| - 1]) + NodeCount(cfgs[|cfgs| - 1])
  }

  /** The node `insertNode` pushes for a slot. */
  function SlotNode(murmur: (string, nat) -> Hex64, slot: Slot): Node
  {
    Node(GenerateNode(HashKey(murmur, slot.name)), slot.shardIndex)
  }

  /** The nodes pushed for a sequence of slots. */
  function KeyNodes(murmur: (string, nat) -> Hex64, slots: seq<Slot>): (r: seq<Node>)
    ensures |r| == |slots|
  {
    if slots == [] then [] else KeyNodes(murmur, slots[..|slots| - 1]) + [SlotNode(murmur, slots[|slots| - 1])]
  }

  /** The nodes `init` pushes for the given shards, before sorting. */
  function RingNodes(murmur: (string, nat) -> Hex64, cfgs: seq<ShardConfig>): seq<Node>
  {
    KeyNodes(murmur, RingSlots(cfgs))
  }

  lemma {:induction false} ShardSlotsAt(cfg: ShardConfig, i: nat, count: nat, n: nat)
    requires n < count
    ensures ShardSlots(cfg, i, count)[n] == Slot(VirtualNodeName(cfg, i, n), i)
  {
    if n < count - 1 {
      ShardSlotsAt(cfg, i, count - 1, n);
    }
  }

  lemma {:induction false} RingSlotsLength(cfgs: seq<ShardConfig>)
    ensures |RingSlots(cfgs)| == TotalNodes(cfgs)
  {
    if cfgs != [] {
      RingSlotsLength(cfgs[..|cfgs| - 1]);
    }
  }

  /** Appending the slots of shard i. */
  lemma RingSlotsPush(cfgs: seq<ShardConfig>, i: nat)
    requires i < |cfgs|
    ensures RingSlots(cfgs[..i + 1]) == RingSlots(cfgs[..i]) + ShardSlots(cfgs[i], i, NodeCount(cfgs[i]))
  {
    assert cfgs[..i + 1][..i] == cfgs[..i];
  }

  /** The slots of shard i follow the slots of the shards before it. */
  lemma {:induction false} RingSlotsAt(cfgs: seq<ShardConfig>, i: nat, n: nat)
    requires i < |cfgs| && n < NodeCount(cfgs[i])
    ensures TotalNodes(cfgs[..i]) + n < |RingSlots(cfgs)|
    ensures RingSlots(cfgs)[TotalNodes(cfgs[..i]) + n] == Slot(VirtualNodeName(cfgs[i], i, n), i)
  {
    var last := |cfgs| - 1;
    var front := cfgs[..last];
    var head := RingSlots(front);
    var tail := ShardSlots(cfgs[last], last, NodeCount(cfgs[last]));
    assert RingSlots(cfgs) == head + tail;
    RingSlotsLength(front);
    if i < last {
      assert front[..i] == cfgs[..i] && front[i] == cfgs[i];
      RingSlotsAt(front, i, n);
      assert (head + tail)[TotalNodes(cfgs[..i]) + n] == head[TotalNodes(cfgs[..i]) + n];
    } else {
      assert cfgs[..i] == front;
      ShardSlotsAt(cfgs[i], i, NodeCount(cfgs[i]), n);
      assert (head + tail)[|head| + n] == tail[n];
    }
  }

  /** Every slot names one of the given shards. */
  lemma {:induction false} RingSlotsShards(cfgs: seq<ShardConfig>)
    ensures forall k :: 0 <= k < |RingSlots(cfgs)| ==> RingSlots(cfgs)[k].shardIndex < |cfgs|
  {
    if cfgs != [] {
      var last := |cfgs| - 1;
      RingSlotsShards(cfgs[..last]);
      var head: seq<Slot> := RingSlots(cfgs[..last]);
      var tail: seq<Slot> := ShardSlots(cfgs[last], last, NodeCount(cfgs[last]));
      assert RingSlots(cfgs) == head + tail;
      forall k | 0 <= k < |head + tail| ensures (head + tail)[k].shardIndex < |cfgs| {
        if k >= |head| {
          ShardSlotsAt(cfgs[last], last, NodeCount(cfgs[last]), k - |head|);
          assert (head + tail)[k] == tail[k - |head|];
        } else {
          assert (head + tail)[k] == head[k];
        }
      }
    }
  }

  /** Pushing the node of one more slot. */
  lemma KeyNodesPush(murmur: (string, nat) -> Hex64, slots: seq<Slot>, x: Slot)
    ensures KeyNodes(murmur, slots + [x]) == KeyNodes(murmur, slots) + [SlotNode(murmur, x)]
  {
    assert (slots + [x])[..|slots|] == slots;
  }

  /** The node pushed at position k is the node of slot k. */
  lemma {:induction false} KeyNodesAt(murmur: (string, nat) -> Hex64, slots: seq<Slot>, k: nat)
    requires k < |slots|
    ensures KeyNodes(murmur, slots)[k] == SlotNode(murmur, slots[k])
  {
    var front := slots[..|slots| - 1];
    if k < |front| {
      KeyNodesAt(murmur, front, k);
      assert KeyNodes(murmur, slots)[k] == KeyNodes(murmur, front)[k];
    }
  }

  /** Init pushes Σ 160·weight nodes. */
  lemma RingNodesLength(murmur: (string, nat) -> Hex64, cfgs: seq<ShardConfig>)
    ensures |RingNodes(murmur, cfgs)| == TotalNodes(cfgs)
  {
    RingSlotsLength(cfgs);
  }

  /**
   * Where each virtual node lands among the pushed nodes: node n of shard i sits
   * right after the 160·weight nodes of each shard before i, carries shard index
   * i and the key of the hash of its name.
   */
  lemma RingNodesAt(murmur: (string, nat) -> Hex64, cfgs: seq<ShardConfig>, i: nat, n: nat)
    requires i < |cfgs| && n < NodeCount(cfgs[i])
    ensures TotalNodes(cfgs[..i]) + n < |RingNodes(murmur, cfgs)|
    ensures RingNodes(murmur, cfgs)[TotalNodes(cfgs[..i]) + n] ==
      Node(GenerateNode(HashKey(murmur, VirtualNodeName(cfgs[i], i, n))), i)
  {
    RingSlotsAt(cfgs, i, n);
    KeyNodesAt(murmur, RingSlots(cfgs), TotalNodes(cfgs[..i]) + n);
  }

  /** Every pushed node names a configured shard and carries a key in the form `hash` produces. */
  lemma RingNodesWellFormed(murmur: (string, nat) -> Hex64, cfgs: seq<ShardConfig>)
    ensures forall k :: 0 <= k < |RingNodes(murmur, cfgs)| ==>
      RingNodes(murmur, cfgs)[k].shardIndex < |cfgs| && IsKey(RingNodes(murmur, cfgs)[k].key)
  {
    var slots := RingSlots(cfgs);
    RingSlotsShards(cfgs);
    forall k | 0 <= k < |KeyNodes(murmur, slots)|
      ensures KeyNodes(murmur, slots)[k].shardIndex < |cfgs| && IsKey(KeyNodes(murmur, slots)[k].key)
    {
      KeyNodesAt(murmur, slots, k);
      QueryIsKey(murmur, slots[k].name);
    }
  }

  /** The sorted ring `init` leaves: sorted, Σ 160·weight nodes, each a key of a configured shard. */
  lemma SortedRingWellFormed(murmur: (string, nat) -> Hex64, cfgs: seq<ShardConfig>)
    ensures Sorted(SortNodes(RingNodes(murmur, cfgs)))
    ensures |SortNodes(RingNodes(murmur, cfgs))| == TotalNodes(cfgs)
    ensures forall k :: 0 <= k < |SortNodes(RingNodes(murmur, cfgs))| ==>
      SortNodes(RingNodes(murmur, cfgs))[k].shardIndex < |cfgs| && IsKey(SortNodes(RingNodes(murmur, cfgs))[k].key)
  {
    var pushed := RingNodes(murmur, cfgs);
    var ring := SortNodes(pushed);
    SortNodesSorted(pushed);
    RingNodesLength(murmur, cfgs);
    RingNodesWellFormed(murmur, cfgs);
    assert |ring| == |multiset(ring)| == |multiset(pushed)| == |pushed|;
    forall k | 0 <= k < |ring|
      ensures ring[k].shardIndex < |cfgs| && IsKey(ring[k].key)
    {
      PermutationKeepsNodes(ring, pushed, k);
    }
  }

  /** The node `getShard` builds from an identifier's hash is a key. */
  lemma QueryIsKey(murmur: (string, nat) -> Hex64, str: string)
    ensures IsKey(GenerateNode(HashKey(murmur, str)))
  {
    var h := murmur(str, Seed);
    LeadingDigitTopBit(h);
    KeyOfValue(ToSigned64(NumeralValue(h, 16)));
  }

  /** One step of `init`'s inner loop: the node of the next slot is pushed. */
  lemma PushSlot(murmur: (string, nat) -> Hex64, done: seq<Slot>, cfg: ShardConfig, i: nat, n: nat)
    ensures KeyNodes(murmur, done + ShardSlots(cfg, i, n + 1)) ==
      KeyNodes(murmur, done + ShardSlots(cfg, i, n)) + [Node(GenerateNode(HashKey(murmur, VirtualNodeName(cfg, i, n))), i)]
  {
    var x := Slot(VirtualNodeName(cfg, i, n), i);
    assert done + ShardSlots(cfg, i, n + 1) == (done + ShardSlots(cfg, i, n)) + [x];
    KeyNodesPush(murmur, done + ShardSlots(cfg, i, n), x);
  }

  /** Membership in a sequence survives a permutation. */
  lemma PermutationKeepsNodes(r: seq<Node>, s: seq<Node>, k: nat)
    requires multiset(r) == multiset(s) && k < |r|
    ensures exists j :: 0 <= j < |s| && s[j] == r[k]
  {
    assert r[k] in multiset(r);
    assert r[k] in s;
  }

  /** `shards[index]` in JavaScript: `undefined` past the end. */
  function ShardAt(shards: seq<ShardConfig>, index: nat): (r: ShardResult)
    ensures r != TypeError
    ensures r.Ok? <==> index < |shards|
    ensures r.Ok? ==> r.shard == shards[index]
  {
    if index < |shards| then Ok(shards[index]) else Undefined
  }

  /**
   * What `getShard` returns for a query node: the shard of the node found, or on
   * `undefined` the shard of node 0, which throws on an empty ring.
   */
  function Lookup(shards: seq<ShardConfig>, ring: seq<Node>, q: HashValue): (r: ShardResult)
    ensures ring == [] ==> r == TypeError
    ensures r.Ok? ==> exists k :: 0 <= k < |ring| && ring[k].shardIndex < |shards| && r.shard == shards[ring[k].shardIndex]
  {
    match FindRecentKey(q, ring, 0, |ring|)
    case Hit(node) => ShardAt(shards, node.shardIndex)
    case Miss => if ring == [] then TypeError else ShardAt(shards, ring[0].shardIndex)
    case Fault => TypeError
  }

  /**
   * What `getShard` promises on a ring: an empty or one-node ring, or a query
   * above the last node, throws; otherwise the result is the shard of a node at
   * index 1 or later that equals the query or is its successor.
   */
  predicate Resolved(shards: seq<ShardConfig>, ring: seq<Node>, q: HashValue, r: ShardResult)
  {
    (|ring| <= 1 ==> r == TypeError) &&
    (|ring| >= 1 && Value(q) > Value(ring[|ring| - 1].key) ==> r == TypeError) &&
    (|ring| >= 2 && Value(q) <= Value(ring[|ring| - 1].key) ==>
      r.Ok? &&
      exists k :: 1 <= k < |ring| && ring[k].shardIndex < |shards| && r.shard == shards[ring[k].shardIndex] &&
        Resolves(ring, Value(q), 0, |ring|, ring[k]))
  }

  /**
   * On a sorted ring of shard nodes, the lookup keeps that promise, so its
   * fallback to node 0 never yields a shard.
   */
  lemma LookupResolves(shards: seq<ShardConfig>, ring: seq<Node>, q: HashValue)
    requires QueryAgrees(q, ring) && SortedByValue(ring)
    requires forall k :: 0 <= k < |ring| ==> ring[k].shardIndex < |shards|
    ensures Resolved(shards, ring, q, Lookup(shards, ring, q))
  {
    FindRecentKeyMissesOnlyEmpty(q, ring, 0, |ring|);
    if |ring| >= 2 && Value(q) <= Value(ring[|ring| - 1].key) {
      FindRecentKeySuccessor(q, ring, 0, |ring|);
    } else if |ring| >= 1 && Value(q) > Value(ring[|ring| - 1].key) {
      FindRecentKeyPastLast(q, ring, 0);
    }
  }

  /**
   * On a ring sorted by `compare` whose nodes are keys of configured shards, the
   * lookup of any identifier keeps the promise of `getShard`.
   */
  lemma ShardRingResolves(murmur: (string, nat) -> Hex64, str: string, shards: seq<ShardConfig>, ring: seq<Node>)
    requires Sorted(ring)
    requires forall k :: 0 <= k < |ring| ==> ring[k].shardIndex < |shards| && IsKey(ring[k].key)
    ensures Resolved(shards, ring, GenerateNode(HashKey(murmur, str)), Lookup(shards, ring, GenerateNode(HashKey(murmur, str))))
  {
    var q := GenerateNode(HashKey(murmur, str));
    QueryIsKey(murmur, str);
    forall k | 0 <= k < |ring| ensures Agree(q, ring[k].key) {
      KeysAgree(q, ring[k].key);
    }
    SortedKeysByValue(ring);
    LookupResolves(shards, ring, q);
  }

  /** The module-level state: the configured shards and the ring `hashKeyArr`. */
  class ShardSelector {
    var shards: seq<ShardConfig>
    var hashKeyArr: seq<Node>

    /** Until shards are configured the ring is empty; it is sorted, and its nodes are keys of configured shards. */
    ghost predicate Valid()
      reads this
    {
      (|shards| == 0 ==> hashKeyArr == []) &&
      Sorted(hashKeyArr) &&
      forall k :: 0 <= k < |hashKeyArr| ==> hashKeyArr[k].shardIndex < |shards| && IsKey(hashKeyArr[k].key)
    }

    constructor ()
      ensures Valid() && shards == [] && hashKeyArr == []
    {
      shards := [];
      hashKeyArr := [];
    }

    /**
     * `insertNode`: push the node of a key onto the ring. It is a step of `Init`
     * only (the module does not export it). On its own it may leave the ring
     * unsorted, so it neither needs nor keeps `Valid()`.
     */
    method InsertNode(hashKey: string, shardIndex: nat)
      requires IsNumeral(hashKey)
      modifies this
      ensures shards == old(shards)
      ensures hashKeyArr == old(hashKeyArr) + [Node(GenerateNode(hashKey), shardIndex)]
    {
      hashKeyArr := hashKeyArr + [Node(GenerateNode(hashKey), shardIndex)];
    }

    /**
     * `init`: a no-op once shards are configured; otherwise adopt the
     * configuration, push 160·weight virtual nodes per shard and sort the ring.
     */
    method Init(murmur: (string, nat) -> Hex64, shardConfig: seq<ShardConfig>)
      requires Valid()
      modifies this
      ensures Valid()
      ensures old(|shards|) > 0 ==> shards == old(shards) && hashKeyArr == old(hashKeyArr)
      ensures old(|shards|) == 0 ==>
        shards == shardConfig &&
        hashKeyArr == SortNodes(RingNodes(murmur, shardConfig)) &&
        multiset(hashKeyArr) == multiset(RingNodes(murmur, shardConfig)) &&
        |hashKeyArr| == TotalNodes(shardConfig)
    {
      if |shards| > 0 {
        return;
      }
      shards := shardConfig;
      for i := 0 to |shardConfig|
        invariant shards == shardConfig
        invariant hashKeyArr == KeyNodes(murmur, RingSlots(shardConfig[..i]))
      {
        var cfg := shardConfig[i];
        ghost var done := RingSlots(shardConfig[..i]);
        assert done + ShardSlots(cfg, i, 0) == done;
        if Unnamed(cfg) {
          for n := 0 to NodeCount(cfg)
            invariant shards == shardConfig
            invariant hashKeyArr == KeyNodes(murmur, done + ShardSlots(cfg, i, n))
          {
            var name := "SHARD-" + DecimalString(i) + "-NODE-" + DecimalString(n);
            var hashKey := Hash(murmur, name);
            assert name == VirtualNodeName(cfg, i, n);
            PushSlot(murmur, done, cfg, i, n);
            InsertNode(hashKey, i);
          }
        } else {
          for n := 0 to NodeCount(cfg)
            invariant shards == shardConfig
            invariant hashKeyArr == KeyNodes(murmur, done + ShardSlots(cfg, i, n))
          {
            var name := cfg.name.value + "*" + DecimalString(cfg.weight) + DecimalString(n);
            var hashKey := Hash(murmur, name);
            assert name == VirtualNodeName(cfg, i, n);
            PushSlot(murmur, done, cfg, i, n);
            InsertNode(hashKey, i);
          }
        }
        RingSlotsPush(shardConfig, i);
      }
      assert shardConfig[..|shardConfig|] == shardConfig;
      hashKeyArr := SortNodes(hashKeyArr);
      SortedRingWellFormed(murmur, shardConfig);
    }

    /**
     * `getShard`: hash the identifier, search the whole ring and map the node
     * found, or node 0 when the search finds none, to its shard.
     */
    method GetShard(murmur: (string, nat) -> Hex64, sessionIdentifier: string) returns (r: ShardResult)
      requires Valid()
      ensures r == Lookup(shards, hashKeyArr, GenerateNode(HashKey(murmur, sessionIdentifier)))
      ensures Resolved(shards, hashKeyArr, GenerateNode(HashKey(murmur, sessionIdentifier)), r)
    {
      var hashKey := Hash(murmur, sessionIdentifier);
      var query := GenerateNode(hashKey);
      r := Lookup(shards, hashKeyArr, query);
      ShardRingResolves(murmur, sessionIdentifier, shards, hashKeyArr);
    }
  }
}
