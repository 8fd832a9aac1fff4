/**
 * RingLookup: `findRecentKey`, the recursive binary search of the sorted ring
 * over a half-open index window. It is modelled as written: a window of one
 * slot tests the node at `end` rather than at `start`, and an exact match of
 * the probed midpoint's key text returns that node at once.
 */
module RingLookup {
  import opened NodeOrdering

  /**
   * The outcome of a search: a node; `undefined` (Miss); or the TypeError that
   * JavaScript throws when `compare` reads a field of `hashKeyArr[end]` past the
   * end of the array (Fault).
   */
  datatype Search = Hit(node: Node) | Miss | Fault

  /** `compare` and key-text equality between the query and every node follow their values. */
  predicate QueryAgrees(q: HashValue, ring: seq<Node>)
  {
    forall k :: 0 <= k < |ring| ==> Agree(q, ring[k].key)
  }

  /** Node k is the first node after index 0 whose value exceeds v. */
  predicate SuccessorAt(ring: seq<Node>, v: int, k: nat)
  {
    1 <= k < |ring| && Value(ring[k].key) > v &&
    forall j :: 1 <= j < k ==> Value(ring[j].key) <= v
  }

  /**
   * `findRecentKey`. Whatever the ring holds, a node it returns lies strictly
   * after `start` and no later than `end`, and it faults only when `end` is the
   * length of the ring.
   */
  function FindRecentKey(q: HashValue, ring: seq<Node>, start: nat, end: nat): (r: Search)
    requires start <= end <= |ring|
    ensures r.Hit? ==> exists k :: start < k <= end && k < |ring| && ring[k] == r.node
    ensures r.Fault? ==> end == |ring|
    decreases end - start
  {
    if start == end then Miss
    else if end - start == 1 then
      if end == |ring| then Fault
      else if Compare(ring[end].key, q) > 0 then Hit(ring[end])
      else Miss
    else
      var mid := (start + end) / 2;
      var midNode := ring[mid];
      if q.hashKey == midNode.key.hashKey then Hit(midNode)
      else if Compare(q, midNode.key) > 0 then FindRecentKey(q, ring, mid, end)
      else FindRecentKey(q, ring, start, mid)
  }

  /**
   * Along the calls `getShard` makes, every node past the window is greater
   * than the query. There the search returns `undefined` only for an empty
   * window, and a one-slot window that ends inside the ring returns its node.
   */
  lemma {:induction false} FindRecentKeyMissesOnlyEmpty(q: HashValue, ring: seq<Node>, start: nat, end: nat)
    requires start <= end <= |ring|
    requires QueryAgrees(q, ring)
    requires end < |ring| ==> Value(q) < Value(ring[end].key)
    ensures FindRecentKey(q, ring, start, end).Miss? <==> start == end
    ensures end - start == 1 && end < |ring| ==> FindRecentKey(q, ring, start, end) == Hit(ring[end])
    decreases end - start
  {
    if end - start == 1 && end < |ring| {
      assert Agree(q, ring[end].key);
      CompareAntisymmetric(q, ring[end].key);
    } else if end - start >= 2 {
      var mid := (start + end) / 2;
      assert Agree(q, ring[mid].key);
      if q.hashKey != ring[mid].key.hashKey {
        if Compare(q, ring[mid].key) > 0 {
          FindRecentKeyMissesOnlyEmpty(q, ring, mid, end);
        } else {
          FindRecentKeyMissesOnlyEmpty(q, ring, start, mid);
        }
      }
    }
  }

  /** On any ring, a node the search returns is no smaller than the query. */
  lemma {:induction false} FindRecentKeyNoSmaller(q: HashValue, ring: seq<Node>, start: nat, end: nat)
    requires start <= end <= |ring|
    requires QueryAgrees(q, ring)
    ensures FindRecentKey(q, ring, start, end).Hit? ==> Value(FindRecentKey(q, ring, start, end).node.key) >= Value(q)
    decreases end - start
  {
    if end - start == 1 && end < |ring| {
      assert Agree(q, ring[end].key);
      CompareAntisymmetric(q, ring[end].key);
    } else if end - start >= 2 {
      var mid := (start + end) / 2;
      assert Agree(q, ring[mid].key);
      if q.hashKey != ring[mid].key.hashKey {
        if Compare(q, ring[mid].key) > 0 {
          FindRecentKeyNoSmaller(q, ring, mid, end);
        } else {
          FindRecentKeyNoSmaller(q, ring, start, mid);
        }
      }
    }
  }

  /** The node is a probed exact match of v, or the successor of v, at an index in (start, end]. */
  predicate Resolves(ring: seq<Node>, v: int, start: nat, end: nat, node: Node)
  {
    exists k :: start < k <= end && k < |ring| && node == ring[k] &&
      (Value(ring[k].key) == v || SuccessorAt(ring, v, k))
  }

  /**
   * On a sorted ring, the search returns either a probed node whose value equals
   * the query, or the first node after index 0 whose value exceeds the query.
   */
  lemma {:induction false} FindRecentKeySuccessor(q: HashValue, ring: seq<Node>, start: nat, end: nat)
    requires start < end <= |ring|
    requires QueryAgrees(q, ring) && SortedByValue(ring)
    requires start == 0 || Value(ring[start].key) < Value(q)
    requires end < |ring| ==> Value(q) < Value(ring[end].key)
    requires end == |ring| ==> end - start >= 2 && Value(q) <= Value(ring[end - 1].key)
    ensures FindRecentKey(q, ring, start, end).Hit?
    ensures Resolves(ring, Value(q), start, end, FindRecentKey(q, ring, start, end).node)
    decreases end - start
  {
    if end - start == 1 {
      assert Agree(q, ring[end].key);
      CompareAntisymmetric(q, ring[end].key);
      assert FindRecentKey(q, ring, start, end) == Hit(ring[end]);
      forall j | 1 <= j < end ensures Value(ring[j].key) <= Value(q) {
        assert Value(ring[j].key) <= Value(ring[start].key);
      }
      assert SuccessorAt(ring, Value(q), end);
    } else {
      var mid := (start + end) / 2;
      assert start < mid < end;
      assert Agree(q, ring[mid].key);
      if q.hashKey == ring[mid].key.hashKey {
        assert FindRecentKey(q, ring, start, end) == Hit(ring[mid]);
        assert Resolves(ring, Value(q), start, end, ring[mid]);
      } else if Compare(q, ring[mid].key) > 0 {
        assert FindRecentKey(q, ring, start, end) == FindRecentKey(q, ring, mid, end);
        if end == |ring| {
          assert mid != end - 1;
        }
        FindRecentKeySuccessor(q, ring, mid, end);
        ResolvesWiden(ring, Value(q), mid, end, start, end, FindRecentKey(q, ring, mid, end).node);
      } else {
        assert FindRecentKey(q, ring, start, end) == FindRecentKey(q, ring, start, mid);
        FindRecentKeySuccessor(q, ring, start, mid);
        ResolvesWiden(ring, Value(q), start, mid, start, end, FindRecentKey(q, ring, start, mid).node);
      }
    }
  }

  lemma ResolvesWiden(ring: seq<Node>, v: int, s: nat, e: nat, s': nat, e': nat, node: Node)
    requires Resolves(ring, v, s, e, node) && s' <= s && e <= e'
    ensures Resolves(ring, v, s', e', node)
  {
  }

  /** A query greater than every node runs off the end of the ring. */
  lemma {:induction false} FindRecentKeyPastLast(q: HashValue, ring: seq<Node>, start: nat)
    requires start < |ring|
    requires QueryAgrees(q, ring) && SortedByValue(ring)
    requires Value(q) > Value(ring[|ring| - 1].key)
    ensures FindRecentKey(q, ring, start, |ring|) == Fault
    decreases |ring| - start
  {
    if |ring| - start >= 2 {
      var mid := (start + |ring|) / 2;
      assert Value(ring[mid].key) <= Value(ring[|ring| - 1].key);
      assert Agree(q, ring[mid].key);
      FindRecentKeyPastLast(q, ring, mid);
    }
  }

  /** A query below the first node resolves to the second node: index 0 is never chosen. */
  lemma FindRecentKeyBelowFirst(q: HashValue, ring: seq<Node>)
    requires |ring| >= 2
    requires QueryAgrees(q, ring) && SortedByValue(ring)
    requires Value(q) < Value(ring[0].key)
    ensures FindRecentKey(q, ring, 0, |ring|) == Hit(ring[1])
  {
    assert Value(ring[0].key) <= Value(ring[|ring| - 1].key);
    assert Value(ring[0].key) <= Value(ring[1].key);
    FindRecentKeySuccessor(q, ring, 0, |ring|);
    var k :| 0 < k <= |ring| && k < |ring| && FindRecentKey(q, ring, 0, |ring|).node == ring[k] &&
      (Value(ring[k].key) == Value(q) || SuccessorAt(ring, Value(q), k));
    assert Value(ring[0].key) <= Value(ring[k].key);
    assert k == 1;
  }
}
