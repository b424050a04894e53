/** The causal sparse Merkle sum trie of src/merkle.rs: its key space, its
    hashes, and the recursive root of a key set that the cached trie must equal.

    A 32-byte array is its 256 bits, most significant first.  SHA-256 with its
    domain tags is a free constructor, so distinct inputs have distinct digests;
    Foreign stands for every digest that is not one of the trie's own. */
module CausalTrie {

  const CAUSAL_DEPTH: nat := 256
  const MAX_U64: nat := 0xffff_ffff_ffff_ffff

  type u64 = c: nat | c <= MAX_U64

  type Key = k: seq<bool> | |k| == CAUSAL_DEPTH witness seq(CAUSAL_DEPTH, _ => false)

  datatype Hash =
    | Leaf(key: Key)
    | EmptyLeaf
    | Node(depth: nat, left: Hash, leftCount: u64, right: Hash, rightCount: u64)
    | Foreign(id: nat)

  function CountSum(a: u64, b: u64): u64 {
    if a + b <= MAX_U64 then a + b else MAX_U64
  }

  /** The canonical empty-subtree hash at depth d. */
  function EmptyHash(d: nat): Hash
    requires d <= CAUSAL_DEPTH
    decreases CAUSAL_DEPTH - d
  {
    if d == CAUSAL_DEPTH then EmptyLeaf
    else Node(d, EmptyHash(d + 1), 0, EmptyHash(d + 1), 0)
  }

  // ---- the reference: recursion over the key set ----

  ghost function WithBit(keys: set<Key>, d: nat, bit: bool): set<Key>
    requires d < CAUSAL_DEPTH
  {
    set k | k in keys && k[d] == bit
  }

  /** Root hash and count of the subtree at depth d that holds keys. */
  ghost function Subtree(keys: set<Key>, d: nat): (r: (Hash, u64))
    requires d <= CAUSAL_DEPTH
    ensures keys != {} ==> r.1 > 0
    decreases CAUSAL_DEPTH - d
  {
    if keys == {} then (EmptyHash(d), 0)
    else if d == CAUSAL_DEPTH then
      var k :| k in keys;
      (Leaf(k), 1)
    else
      var l, r := Subtree(WithBit(keys, d, false), d + 1), Subtree(WithBit(keys, d, true), d + 1);
      assert keys == WithBit(keys, d, false) + WithBit(keys, d, true);
      (Node(d, l.0, l.1, r.0, r.1), CountSum(l.1, r.1))
  }

  // ---- prefixes ----

  /** The first d bits of k, padded with zeros. */
  function Prefix(k: Key, d: nat): (p: Key)
    requires d <= CAUSAL_DEPTH
    ensures p[..d] == k[..d] && forall i :: d <= i < CAUSAL_DEPTH ==> !p[i]
  {
    k[..d] + seq(CAUSAL_DEPTH - d, _ => false)
  }

  predicate SharesPrefix(k: Key, p: Key, d: nat)
    requires d <= CAUSAL_DEPTH
  {
    forall i :: 0 <= i < d ==> k[i] == p[i]
  }

  /** The keys that share the first d bits of p. */
  ghost function Under(keys: set<Key>, d: nat, p: Key): set<Key>
    requires d <= CAUSAL_DEPTH
  {
    set k | k in keys && SharesPrefix(k, p, d)
  }

  lemma UnderSplits(keys: set<Key>, d: nat, p: Key, bit: bool)
    requires d < CAUSAL_DEPTH
    ensures WithBit(Under(keys, d, p), d, bit) == Under(keys, d + 1, p[d := bit])
  {
    var q: Key := p[d := bit];
    forall k: Key ensures SharesPrefix(k, p, d) && k[d] == bit <==> SharesPrefix(k, q, d + 1) {
      if SharesPrefix(k, q, d + 1) {
        assert forall i :: 0 <= i < d ==> k[i] == q[i] == p[i];
        assert k[d] == q[d];
      }
    }
  }

  /** The subtree above p at depth d, from its two children. */
  lemma SubtreeUnder(keys: set<Key>, d: nat, p: Key)
    requires d < CAUSAL_DEPTH && Under(keys, d, p) != {}
    ensures var l := Subtree(Under(keys, d + 1, p[d := false]), d + 1);
      var r := Subtree(Under(keys, d + 1, p[d := true]), d + 1);
      Subtree(Under(keys, d, p), d) == (Node(d, l.0, l.1, r.0, r.1), CountSum(l.1, r.1))
  {
    UnderSplits(keys, d, p, false);
    UnderSplits(keys, d, p, true);
  }

  lemma UnderLeaf(keys: set<Key>, p: Key)
    ensures Under(keys, CAUSAL_DEPTH, p) == if p in keys then {p} else {}
  {
    forall k: Key | SharesPrefix(k, p, CAUSAL_DEPTH) ensures k == p { }
  }

  lemma UnderRoot(keys: set<Key>, p: Key)
    ensures Under(keys, 0, p) == keys
  {
  }

  lemma UnderAdd(keys: set<Key>, key: Key, d: nat, p: Key)
    requires d <= CAUSAL_DEPTH
    ensures Under(keys + {key}, d, p) == Under(keys, d, p) + if SharesPrefix(key, p, d) then {key} else {}
  {
  }

  // ---- the recursive oracle over a list of keys ----

  function PartitionByBit(keys: seq<Key>, d: nat, bit: bool): (r: seq<Key>)
    requires d < CAUSAL_DEPTH
    ensures forall k :: k in r <==> k in keys && k[d] == bit
  {
    if keys == [] then []
    else
      var rest := PartitionByBit(keys[1..], d, bit);
      assert keys == [keys[0]] + keys[1..];
      if keys[0][d] == bit then [keys[0]] + rest else rest
  }

  ghost function Listed(keys: seq<Key>): set<Key> {
    set k | k in keys
  }

  function SubtreeRootOrEmpty(keys: seq<Key>, d: nat): (Hash, u64)
    requires d <= CAUSAL_DEPTH
    decreases CAUSAL_DEPTH - d
  {
    if keys == [] then (EmptyHash(d), 0)
    else if d == CAUSAL_DEPTH then (Leaf(keys[0]), 1)
    else
      var l := SubtreeRootOrEmpty(PartitionByBit(keys, d, false), d + 1);
      var r := SubtreeRootOrEmpty(PartitionByBit(keys, d, true), d + 1);
      (Node(d, l.0, l.1, r.0, r.1), CountSum(l.1, r.1))
  }

  /** The oracle does not depend on the order of the list, nor on repetitions in it. */
  lemma {:induction false} OracleAgrees(keys: seq<Key>, d: nat, p: Key)
    requires d <= CAUSAL_DEPTH && forall k :: k in keys ==> SharesPrefix(k, p, d)
    ensures SubtreeRootOrEmpty(keys, d) == Subtree(Listed(keys), d)
    decreases CAUSAL_DEPTH - d
  {
    if keys == [] {
      assert Listed(keys) == {};
    } else {
      assert keys[0] in Listed(keys);
      if d == CAUSAL_DEPTH {
        assert forall k :: k in keys ==> k == keys[0];
        assert Listed(keys) == {keys[0]};
      } else {
        OracleAgreesBelow(keys, d, p, false);
        OracleAgreesBelow(keys, d, p, true);
      }
    }
  }

  lemma {:induction false} OracleAgreesBelow(keys: seq<Key>, d: nat, p: Key, bit: bool)
    requires d < CAUSAL_DEPTH && forall k :: k in keys ==> SharesPrefix(k, p, d)
    ensures SubtreeRootOrEmpty(PartitionByBit(keys, d, bit), d + 1) == Subtree(WithBit(Listed(keys), d, bit), d + 1)
    decreases CAUSAL_DEPTH - d, 0
  {
    PartitionFacts(keys, d, p, bit);
    OracleAgrees(PartitionByBit(keys, d, bit), d + 1, p[d := bit]);
  }

  lemma PartitionFacts(keys: seq<Key>, d: nat, p: Key, bit: bool)
    requires d < CAUSAL_DEPTH && forall k :: k in keys ==> SharesPrefix(k, p, d)
    ensures Listed(PartitionByBit(keys, d, bit)) == WithBit(Listed(keys), d, bit)
    ensures forall k :: k in PartitionByBit(keys, d, bit) ==> SharesPrefix(k, p[d := bit], d + 1)
  {
    forall k | k in PartitionByBit(keys, d, bit) ensures SharesPrefix(k, p[d := bit], d + 1) {
      assert k in keys && k[d] == bit;
    }
  }

  /** The oracle on any listing of a key set gives the same root and count. */
  lemma OracleRoot(keys: seq<Key>)
    ensures SubtreeRootOrEmpty(keys, 0) == Subtree(Listed(keys), 0)
  {
    OracleAgrees(keys, 0, seq(CAUSAL_DEPTH, _ => false));
  }
}
