/** CausalSet of src/merkle.rs: a key set with a cache of every non-empty trie
    node, updated along one path per insert. */
module CausalSets {
  import opened CausalProofs
  import opened CausalTrie
  import opened Wrappers

  type NodeId = (nat, Key)

  type Cache = map<NodeId, (Hash, u64)>

  // ---- what the cache holds ----

  /** Some key of keys lies under the padded d-bit prefix p. */
  ghost predicate InTrie(keys: set<Key>, d: nat, p: Key) {
    d <= CAUSAL_DEPTH && p == Prefix(p, d) && Under(keys, d, p) != {}
  }

  ghost predicate Correct(nodes: Cache, keys: set<Key>, d: nat, p: Key)
    requires d <= CAUSAL_DEPTH && (d, p) in nodes
  {
    nodes[(d, p)] == Subtree(Under(keys, d, p), d)
  }

  /** The cache has exactly the prefixes of the keys, each with the recursive root and count of the keys under it. */
  ghost predicate Cached(nodes: Cache, keys: set<Key>) {
    && (forall d: nat, p: Key :: (d, p) in nodes <==> InTrie(keys, d, p))
    && (forall d: nat, p: Key :: (d, p) in nodes ==> Correct(nodes, keys, d, p))
  }

  /** As Cached, except that the nodes on the path of key above depth d are not yet recomputed. */
  ghost predicate CachedBelow(nodes: Cache, keys: set<Key>, key: Key, d: nat) {
    && (forall e: nat, p: Key :: (e, p) in nodes <==> InTrie(keys, e, p))
    && (forall e: nat, p: Key :: (e, p) in nodes && (e >= d || p != Prefix(key, e)) ==> Correct(nodes, keys, e, p))
  }

  /** nodes is was with the padded prefixes of key shorter than d added. */
  ghost predicate PathAdded(was: Cache, nodes: Cache, key: Key, d: nat)
    requires d <= CAUSAL_DEPTH + 1
  {
    && (forall e: nat, p: Key :: (e, p) in nodes <==> (e, p) in was || (e < d && p == Prefix(key, e)))
    && (forall x :: x in was ==> x in nodes && nodes[x] == was[x])
  }

  lemma PrefixShares(k: Key, p: Key, d: nat)
    requires d <= CAUSAL_DEPTH && p == Prefix(p, d)
    ensures SharesPrefix(k, p, d) <==> p == Prefix(k, d)
  {
    if SharesPrefix(k, p, d) {
      assert Prefix(k, d)[..d] == p[..d];
    } else {
      assert Prefix(k, d)[..d] == k[..d];
    }
  }

  lemma PrefixTwice(k: Key, d: nat)
    requires d <= CAUSAL_DEPTH
    ensures Prefix(Prefix(k, d), d) == Prefix(k, d) && SharesPrefix(k, Prefix(k, d), d)
  {
    assert Prefix(k, d)[..d] == k[..d];
  }

  lemma InTrieAdd(keys: set<Key>, key: Key, d: nat, p: Key)
    ensures InTrie(keys + {key}, d, p) <==> InTrie(keys, d, p) || (d <= CAUSAL_DEPTH && p == Prefix(key, d))
  {
    if d <= CAUSAL_DEPTH {
      UnderAdd(keys, key, d, p);
      PrefixTwice(key, d);
      if p == Prefix(p, d) { PrefixShares(key, p, d); }
    }
  }

  /** After the way down, everything off the path of key and the leaf itself are correct. */
  lemma DescentDone(was: Cache, nodes: Cache, keys: set<Key>, key: Key)
    requires Cached(was, keys) && key !in keys
    requires PathAdded(was, nodes, key, CAUSAL_DEPTH + 1)
    requires nodes[(CAUSAL_DEPTH, key)] == (Leaf(key), 1)
    ensures CachedBelow(nodes, keys + {key}, key, CAUSAL_DEPTH)
  {
    var keys' := keys + {key};
    forall d: nat, p: Key ensures (d, p) in nodes <==> InTrie(keys', d, p) {
      InTrieAdd(keys, key, d, p);
    }
    forall d: nat, p: Key | (d, p) in nodes && (d >= CAUSAL_DEPTH || p != Prefix(key, d))
      ensures Correct(nodes, keys', d, p)
    {
      UnderAdd(keys, key, d, p);
      if p == Prefix(key, d) {
        assert Prefix(key, CAUSAL_DEPTH) == key;
        UnderLeaf(keys', key);
        assert Subtree({key}, CAUSAL_DEPTH) == (Leaf(key), 1);
      } else {
        assert (d, p) in was && Correct(was, keys, d, p);
        PrefixShares(key, p, d);
        assert Under(keys', d, p) == Under(keys, d, p);
      }
    }
  }

  ghost function Lookup(nodes: Cache, d: nat, p: Key): (Hash, u64)
    requires d <= CAUSAL_DEPTH
  {
    if (d, p) in nodes then nodes[(d, p)] else (EmptyHash(d), 0)
  }

  /** A missing node is an empty subtree. */
  lemma LookupCorrect(nodes: Cache, keys: set<Key>, key: Key, d: nat, e: nat, p: Key)
    requires CachedBelow(nodes, keys, key, d) && e <= CAUSAL_DEPTH && p == Prefix(p, e)
    requires e >= d || p != Prefix(key, e)
    ensures Lookup(nodes, e, p) == Subtree(Under(keys, e, p), e)
  {
    if (e, p) in nodes { assert Correct(nodes, keys, e, p); } else { assert !InTrie(keys, e, p); }
  }

  /** One step of the way up. */
  lemma AscentStep(nodes: Cache, keys: set<Key>, key: Key, d: nat)
    requires d < CAUSAL_DEPTH && key in keys && CachedBelow(nodes, keys, key, d + 1)
    ensures var p := Prefix(key, d);
      var l, r := Lookup(nodes, d + 1, p), Lookup(nodes, d + 1, p[d := true]);
      CachedBelow(nodes[(d, p) := (Node(d, l.0, l.1, r.0, r.1), CountSum(l.1, r.1))], keys, key, d)
  {
    var p := Prefix(key, d);
    var right: Key := p[d := true];
    var l, r := Lookup(nodes, d + 1, p), Lookup(nodes, d + 1, right);
    var nodes' := nodes[(d, p) := (Node(d, l.0, l.1, r.0, r.1), CountSum(l.1, r.1))];
    PrefixTwice(key, d);
    assert key in Under(keys, d, p);
    assert InTrie(keys, d, p);
    assert Prefix(p, d + 1) == p && p[d := false] == p;
    assert Prefix(right, d + 1) == right;
    LookupCorrect(nodes, keys, key, d + 1, d + 1, p);
    LookupCorrect(nodes, keys, key, d + 1, d + 1, right);
    SubtreeUnder(keys, d, p);
    assert Correct(nodes', keys, d, p);
    forall e: nat, q: Key | (e, q) in nodes' && (e >= d || q != Prefix(key, e)) ensures Correct(nodes', keys, e, q) {
      if (e, q) != (d, p) { assert Correct(nodes, keys, e, q); }
    }
  }

  // ---- the table of empty hashes ----

  ghost predicate IsEmptyTable(table: seq<Hash>) {
    |table| == CAUSAL_DEPTH + 1 && forall d :: 0 <= d <= CAUSAL_DEPTH ==> table[d] == EmptyHash(d)
  }

  /** The empty leaf, and above it each depth's node over two empty children. */
  ghost predicate EmptyAbove(table: seq<Hash>, depth: nat) {
    && |table| == CAUSAL_DEPTH + 1 && table[CAUSAL_DEPTH] == EmptyLeaf
    && forall d: nat :: depth <= d < CAUSAL_DEPTH ==> table[d] == Node(d, table[d + 1], 0, table[d + 1], 0)
  }

  lemma {:induction false} EmptyAboveHash(table: seq<Hash>, d: nat)
    requires EmptyAbove(table, 0) && d <= CAUSAL_DEPTH
    ensures table[d] == EmptyHash(d)
    decreases CAUSAL_DEPTH - d
  {
    if d < CAUSAL_DEPTH { EmptyAboveHash(table, d + 1); }
  }

  lemma EmptyAboveTable(table: seq<Hash>)
    requires EmptyAbove(table, 0)
    ensures IsEmptyTable(table)
  {
    forall d: nat | d <= CAUSAL_DEPTH ensures table[d] == EmptyHash(d) { EmptyAboveHash(table, d); }
  }

  /** Bottom up. */
  method BuildEmptyTable() returns (table: seq<Hash>)
    ensures IsEmptyTable(table) && EmptyAbove(table, 0)
  {
    table := seq(CAUSAL_DEPTH + 1, _ => EmptyLeaf);
    var depth: nat := CAUSAL_DEPTH;
    while depth > 0
      invariant depth <= CAUSAL_DEPTH && EmptyAbove(table, depth)
    {
      depth := depth - 1;
      var child := table[depth + 1];
      table := table[depth := Node(depth, child, 0, child, 0)];
    }
    EmptyAboveTable(table);
  }

  // ---- the set ----

  class CausalSet {
    var keys: set<Key>
    var nodes: Cache

    ghost predicate Valid()
      reads this
    {
      Cached(nodes, keys)
    }

    constructor Empty()
      ensures Valid() && keys == {}
    {
      keys := {};
      nodes := map[];
    }

    /** Inserts key in place: a walk down that adds the missing nodes of its path,
        then a walk up that recomputes them from their cached children. */
    method InsertMut(key: Key) returns (added: bool)
      requires Valid()
      modifies this
      ensures Valid()
      ensures keys == old(keys) + {key} && (added <==> key !in old(keys))
    {
      if key in keys {
        assert keys + {key} == keys;
        return false;
      }
      keys := keys + {key};
      var empty := BuildEmptyTable();
      UnderLeaf(old(keys), key);
      assert !InTrie(old(keys), CAUSAL_DEPTH, key);
      WalkDown(key, empty);
      DescentDone(old(nodes), nodes, old(keys), key);
      WalkUp(key, empty);
      added := true;
    }

    method WalkDown(key: Key, empty: seq<Hash>)
      requires IsEmptyTable(empty) && (CAUSAL_DEPTH, key) !in nodes
      modifies this`nodes
      ensures PathAdded(old(nodes), nodes, key, CAUSAL_DEPTH + 1)
      ensures (CAUSAL_DEPTH, key) in nodes && nodes[(CAUSAL_DEPTH, key)] == (Leaf(key), 1)
    {
      var prefix: Key := seq(CAUSAL_DEPTH, _ => false);
      for d := 0 to CAUSAL_DEPTH
        invariant prefix == Prefix(key, d) && PathAdded(old(nodes), nodes, key, d)
      {
        if (d, prefix) !in nodes {
          nodes := nodes[(d, prefix) := (empty[d], 0)];
        }
        prefix := prefix[d := key[d]];
      }
      assert Prefix(key, CAUSAL_DEPTH) == key;
      nodes := nodes[(CAUSAL_DEPTH, prefix) := (Leaf(key), 1)];
    }

    method WalkUp(key: Key, empty: seq<Hash>)
      requires IsEmptyTable(empty) && key in keys && CachedBelow(nodes, keys, key, CAUSAL_DEPTH)
      modifies this`nodes
      ensures Valid()
    {
      var childPrefix := key;
      for d := CAUSAL_DEPTH downto 0
        invariant SharesPrefix(childPrefix, key, d)
        invariant CachedBelow(nodes, keys, key, d)
      {
        childPrefix := Prefix(childPrefix, d + 1);
        var leftPrefix: Key, rightPrefix: Key := childPrefix[d := false], childPrefix[d := true];
        var left := if (d + 1, leftPrefix) in nodes then nodes[(d + 1, leftPrefix)] else (empty[d + 1], 0);
        var right := if (d + 1, rightPrefix) in nodes then nodes[(d + 1, rightPrefix)] else (empty[d + 1], 0);
        assert leftPrefix == Prefix(key, d) && rightPrefix == Prefix(key, d)[d := true];
        AscentStep(nodes, keys, key, d);
        nodes := nodes[(d, leftPrefix) := (Node(d, left.0, left.1, right.0, right.1), CountSum(left.1, right.1))];
      }
    }

    constructor Clone(other: CausalSet)
      requires other.Valid()
      ensures Valid() && keys == other.keys
    {
      keys := other.keys;
      nodes := other.nodes;
    }

    method Extend(more: seq<Key>)
      requires Valid()
      modifies this
      ensures Valid() && keys == old(keys) + (set k | k in more)
    {
      for i := 0 to |more|
        invariant Valid() && keys == old(keys) + (set k | k in more[..i])
      {
        var added := InsertMut(more[i]);
      }
      assert more[..|more|] == more;
    }

    /** A new set with the keys of both; the order in which the other's keys are visited does not matter. */
    method Union(other: CausalSet) returns (next: CausalSet)
      requires Valid() && other.Valid()
      ensures fresh(next) && next.Valid() && next.keys == keys + other.keys
    {
      next := new CausalSet.Clone(this);
      var rest := other.keys;
      while rest != {}
        invariant next.Valid() && fresh(next)
        invariant rest <= other.keys && next.keys == keys + (other.keys - rest)
        decreases rest
      {
        var k :| k in rest;
        var added := next.InsertMut(k);
        rest := rest - {k};
      }
    }

    function Contains(key: Key): (r: bool)
      requires Valid()
      reads this
      ensures r <==> (CAUSAL_DEPTH, key) in nodes
    {
      assert (CAUSAL_DEPTH, key) in nodes <==> key in keys by { LeafCached(nodes, keys, key); }
      key in keys
    }

    method Root() returns (root: Hash)
      requires Valid()
      ensures root == RootOf(keys)
    {
      var empty := BuildEmptyTable();
      var top: Key := seq(CAUSAL_DEPTH, _ => false);
      if keys == {} {
        return empty[0];
      }
      root := if (0, top) in nodes then nodes[(0, top)].0 else empty[0];
      TopCached(nodes, keys, top);
    }

    /** The sibling path that proves membership, exactly for members. */
    method InclusionProof(key: Key) returns (r: Option<(seq<ProofStep>, Hash, nat)>)
      requires Valid()
      ensures r.Some? <==> key in keys
      ensures r.Some? ==> r.value == (PathOf(keys, key, CAUSAL_DEPTH), RootOf(keys), |keys|)
    {
      if key !in keys {
        return None;
      }
      var path: seq<ProofStep> := [];
      var prefix: Key := seq(CAUSAL_DEPTH, _ => false);
      for d := 0 to CAUSAL_DEPTH
        invariant prefix == Prefix(key, d)
        invariant |path| == d && forall i :: 0 <= i < d ==> path[i] == Sibling(keys, key, i)
      {
        var step := SiblingStep(key, prefix, d);
        path := path + [step];
        prefix := prefix[d := key[d]];
      }
      var root := Root();
      r := Some((Reverse(path), root, |keys|));
      ReversedPath(keys, key, path);
    }

    /** The sibling at depth d + 1 beside key's own child, from the cache. */
    method SiblingStep(key: Key, prefix: Key, d: nat) returns (s: ProofStep)
      requires Valid() && d < CAUSAL_DEPTH && prefix == Prefix(key, d)
      ensures s == Sibling(keys, key, d)
    {
      var beside: Key := prefix[d := !key[d]];
      SiblingCached(nodes, keys, key, d);
      if (d + 1, beside) in nodes {
        s := ProofStep(nodes[(d + 1, beside)].0, nodes[(d + 1, beside)].1);
      } else {
        s := ProofStep(EmptyHash(d + 1), 0);
      }
    }

    /** The terminal depth and sibling path that prove absence, exactly for non-members. */
    method NonInclusionProof(key: Key) returns (r: Option<(seq<ProofStep>, nat, Hash, nat)>)
      requires Valid()
      ensures r.Some? <==> key !in keys
      ensures r.Some? ==>
                && TerminatesAt(keys, key, r.value.1)
                && r.value == (PathOf(keys, key, r.value.1), r.value.1, RootOf(keys), |keys|)
    {
      var empty := BuildEmptyTable();
      if keys == {} {
        EmptySetProof(keys, key, empty);
        return Some(([], 0, empty[0], 0));
      }
      UnderRoot(keys, key);
      var absent, path := WalkToEmpty(key);
      if !absent {
        UnderLeaf(keys, key);
        return None;
      }
      ReversedPath(keys, key, path);
      Terminates(keys, key, |path|);
      var root := Root();
      r := Some((Reverse(path), |path|, root, |keys|));
    }

    /** Collects key's siblings from the root down to the first empty subtree on its descent, if any. */
    method WalkToEmpty(key: Key) returns (absent: bool, path: seq<ProofStep>)
      requires Valid() && Under(keys, 0, key) != {}
      ensures |path| <= CAUSAL_DEPTH && forall i :: 0 <= i < |path| ==> path[i] == Sibling(keys, key, i)
      ensures absent ==> 0 < |path| && Under(keys, |path| - 1, key) != {} && Under(keys, |path|, key) == {}
      ensures !absent ==> Under(keys, CAUSAL_DEPTH, key) != {}
    {
      path := [];
      var prefix: Key := seq(CAUSAL_DEPTH, _ => false);
      for d := 0 to CAUSAL_DEPTH
        invariant prefix == Prefix(key, d) && Under(keys, d, key) != {}
        invariant |path| == d && forall i :: 0 <= i < d ==> path[i] == Sibling(keys, key, i)
      {
        var step, childIsEmpty;
        step, prefix, childIsEmpty := StepDown(key, prefix, d);
        path := path + [step];
        if childIsEmpty {
          return true, path;
        }
      }
      absent := false;
    }

    /** The sibling beside key's child at depth d + 1, that child's prefix, and whether it is empty. */
    method StepDown(key: Key, prefix: Key, d: nat) returns (step: ProofStep, child: Key, childIsEmpty: bool)
      requires Valid() && d < CAUSAL_DEPTH && prefix == Prefix(key, d)
      ensures step == Sibling(keys, key, d) && child == Prefix(key, d + 1)
      ensures childIsEmpty <==> Under(keys, d + 1, key) == {}
    {
      step := SiblingStep(key, prefix, d);
      child := prefix[d := key[d]];
      assert child == Prefix(key, d + 1);
      OwnCached(nodes, keys, key, d + 1);
      childIsEmpty := (d + 1, child) !in nodes || nodes[(d + 1, child)].1 == 0;
    }
  }

  function Reverse(s: seq<ProofStep>): (r: seq<ProofStep>)
    ensures |r| == |s| && forall i :: 0 <= i < |s| ==> r[i] == s[|s| - 1 - i]
  {
    seq(|s|, i requires 0 <= i < |s| => s[|s| - 1 - i])
  }

  lemma ReversedPath(keys: set<Key>, key: Key, path: seq<ProofStep>)
    requires |path| <= CAUSAL_DEPTH && forall i :: 0 <= i < |path| ==> path[i] == Sibling(keys, key, i)
    ensures Reverse(path) == PathOf(keys, key, |path|)
  {
    var back, own := Reverse(path), PathOf(keys, key, |path|);
    forall i | 0 <= i < |path| ensures back[i] == own[i] {
      assert own[i] == Sibling(keys, key, |path| - 1 - i);
    }
  }

  lemma EmptySetProof(keys: set<Key>, key: Key, empty: seq<Hash>)
    requires keys == {} && IsEmptyTable(empty)
    ensures TerminatesAt(keys, key, 0) && PathOf(keys, key, 0) == [] && RootOf(keys) == empty[0]
  {
  }

  lemma Terminates(keys: set<Key>, key: Key, t: nat)
    requires 0 < t <= CAUSAL_DEPTH && Under(keys, t - 1, key) != {} && Under(keys, t, key) == {}
    ensures TerminatesAt(keys, key, t) && key !in keys
  {
    assert key in Under(keys, t, key) <==> key in keys;
  }

  lemma LeafCached(nodes: Cache, keys: set<Key>, key: Key)
    requires Cached(nodes, keys)
    ensures (CAUSAL_DEPTH, key) in nodes <==> key in keys
  {
    UnderLeaf(keys, key);
    assert Prefix(key, CAUSAL_DEPTH) == key;
    assert InTrie(keys, CAUSAL_DEPTH, key) <==> key in keys;
  }

  lemma TopCached(nodes: Cache, keys: set<Key>, top: Key)
    requires Cached(nodes, keys) && top == seq(CAUSAL_DEPTH, _ => false)
    ensures keys != {} ==> (0, top) in nodes && nodes[(0, top)].0 == RootOf(keys)
  {
    UnderRoot(keys, top);
    if keys != {} {
      assert top == Prefix(top, 0) && InTrie(keys, 0, top);
      assert Correct(nodes, keys, 0, top);
    }
  }

  lemma OwnCached(nodes: Cache, keys: set<Key>, key: Key, d: nat)
    requires Cached(nodes, keys) && d <= CAUSAL_DEPTH
    ensures (d, Prefix(key, d)) in nodes <==> Under(keys, d, key) != {}
    ensures (d, Prefix(key, d)) in nodes ==> nodes[(d, Prefix(key, d))].1 > 0
    ensures Lookup(nodes, d, Prefix(key, d)) == Subtree(Under(keys, d, key), d)
  {
    var p := Prefix(key, d);
    PrefixTwice(key, d);
    UnderSame(keys, key, p, d);
    assert (d, p) in nodes <==> InTrie(keys, d, p);
    if (d, p) in nodes { assert Correct(nodes, keys, d, p); }
  }

  lemma UnderSame(keys: set<Key>, k: Key, p: Key, d: nat)
    requires d <= CAUSAL_DEPTH && SharesPrefix(k, p, d)
    ensures Under(keys, d, k) == Under(keys, d, p)
  {
  }

  lemma SiblingCached(nodes: Cache, keys: set<Key>, key: Key, d: nat)
    requires Cached(nodes, keys) && d < CAUSAL_DEPTH
    ensures var s := Lookup(nodes, d + 1, Prefix(key, d)[d := !key[d]]);
      Sibling(keys, key, d) == ProofStep(s.0, s.1)
  {
    OwnCached(nodes, keys, Flip(key, d), d + 1);
    assert Prefix(key, d)[..d] == key[..d];
    assert Prefix(Flip(key, d), d + 1) == Prefix(key, d)[d := !key[d]];
  }

  /** The whole cache is determined by the key set, so insertion order and the way a set was
      put together (inserts, extends, unions in any order) leave no trace. */
  lemma CacheDetermined(nodes: Cache, nodes': Cache, keys: set<Key>)
    requires Cached(nodes, keys) && Cached(nodes', keys)
    ensures nodes == nodes'
  {
    forall x ensures x in nodes <==> x in nodes' {
      assert x == (x.0, x.1);
      assert x in nodes <==> InTrie(keys, x.0, x.1);
    }
    forall x | x in nodes ensures nodes[x] == nodes'[x] {
      assert x == (x.0, x.1);
      assert Correct(nodes, keys, x.0, x.1) && Correct(nodes', keys, x.0, x.1);
    }
  }

  // ---- union, on whole caches ----

  lemma UnionCommutes(a: set<Key>, b: set<Key>, ab: Cache, ba: Cache)
    requires Cached(ab, a + b) && Cached(ba, b + a)
    ensures ab == ba
  {
    assert a + b == b + a;
    CacheDetermined(ab, ba, a + b);
  }

  lemma UnionAssociates(a: set<Key>, b: set<Key>, c: set<Key>, left: Cache, right: Cache)
    requires Cached(left, (a + b) + c) && Cached(right, a + (b + c))
    ensures left == right
  {
    assert (a + b) + c == a + (b + c);
    CacheDetermined(left, right, a + (b + c));
  }

  /** Uniting with a part, or with itself, changes nothing. */
  lemma UnionAbsorbs(a: set<Key>, b: set<Key>, own: Cache, united: Cache)
    requires Cached(own, a) && Cached(united, a + b) && b <= a
    ensures own == united
  {
    assert a + b == a;
    CacheDetermined(own, united, a);
  }
}
