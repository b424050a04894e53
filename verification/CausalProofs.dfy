/** Inclusion and non-inclusion proofs of the causal trie (src/merkle.rs): the
    verifiers accept exactly the paths that the key set itself determines. */
module CausalProofs {
  import opened CausalTrie
  import opened Wrappers

  /** One sibling on a path, leaf to root. */
  datatype ProofStep = ProofStep(hash: Hash, count: u64)

  ghost function RootOf(keys: set<Key>): Hash {
    Subtree(keys, 0).0
  }

  // ---- the path that a key set determines ----

  function Flip(key: Key, d: nat): (r: Key)
    requires d < CAUSAL_DEPTH
  {
    key[d := !key[d]]
  }

  /** The subtree beside key's own at depth d + 1. */
  ghost function Sibling(keys: set<Key>, key: Key, d: nat): ProofStep
    requires d < CAUSAL_DEPTH
  {
    var s := Subtree(Under(keys, d + 1, Flip(key, d)), d + 1);
    ProofStep(s.0, s.1)
  }

  /** The siblings of key's descent to depth t, deepest first. */
  ghost function PathOf(keys: set<Key>, key: Key, t: nat): (path: seq<ProofStep>)
    requires t <= CAUSAL_DEPTH
    ensures |path| == t
  {
    seq(t, i requires 0 <= i < t => Sibling(keys, key, t - 1 - i))
  }

  /** The first depth at which no key of keys lies on key's descent. */
  ghost predicate TerminatesAt(keys: set<Key>, key: Key, t: nat) {
    && t <= CAUSAL_DEPTH
    && Under(keys, t, key) == {}
    && (t > 0 ==> Under(keys, t - 1, key) != {})
  }

  // ---- the verifiers ----

  /** The parent of a running node on key's path and its sibling. */
  function Parent(d: nat, key: Key, hash: Hash, count: u64, s: ProofStep): Hash
    requires d < CAUSAL_DEPTH
  {
    if key[d] then Node(d, s.hash, s.count, hash, count) else Node(d, hash, count, s.hash, s.count)
  }

  /** Recomputes root and count from a node at the given depth; None when a count overflows. */
  function Climb(hash: Hash, count: u64, depth: nat, key: Key, path: seq<ProofStep>): Option<(Hash, u64)>
    requires depth <= CAUSAL_DEPTH && |path| == depth
    decreases depth
  {
    if depth == 0 then Some((hash, count))
    else if count + path[0].count > MAX_U64 then None
    else Climb(Parent(depth - 1, key, hash, count, path[0]), count + path[0].count, depth - 1, key, path[1..])
  }

  /** The nodes met on the way up, with their counts: each is hashed with its sibling, on the side that
      the key's bit tells, under the depth of the parent; no sum exceeds the largest count. */
  ghost predicate Trail(depth: nat, key: Key, path: seq<ProofStep>, trail: seq<(Hash, u64)>) {
    && depth <= CAUSAL_DEPTH && |path| == depth && |trail| == depth + 1
    && forall i :: 0 <= i < depth ==> Rises(depth - 1 - i, key, trail[i], path[i], trail[i + 1])
  }

  ghost predicate Rises(d: nat, key: Key, own: (Hash, u64), s: ProofStep, up: (Hash, u64)) {
    && d < CAUSAL_DEPTH && up.1 == own.1 + s.count
    && (key[d] ==> up.0 == Node(d, s.hash, s.count, own.0, own.1))
    && (!key[d] ==> up.0 == Node(d, own.0, own.1, s.hash, s.count))
  }

  /** A climb succeeds exactly when there is such a trail, and ends where the trail ends. */
  lemma {:induction false} ClimbTrails(hash: Hash, count: u64, depth: nat, key: Key, path: seq<ProofStep>,
                                       root: Hash, total: u64)
    requires depth <= CAUSAL_DEPTH && |path| == depth
    ensures Climb(hash, count, depth, key, path) == Some((root, total)) <==>
            exists trail :: Trail(depth, key, path, trail) && trail[0] == (hash, count) && trail[depth] == (root, total)
    decreases depth
  {
    if depth == 0 {
      assert Trail(depth, key, path, [(hash, count)]);
    } else {
      forall t: seq<(Hash, u64)> | Trail(depth, key, path, t) ensures t[0].1 + path[0].count == t[1].1 {
        TrailTail(depth, key, path, t);
      }
      if count + path[0].count <= MAX_U64 {
        var up := (Parent(depth - 1, key, hash, count, path[0]), count + path[0].count);
        ClimbTrails(up.0, up.1, depth - 1, key, path[1..], root, total);
        TrailsMeet(depth, key, path, (hash, count), up, (root, total));
      }
    }
  }

  /** The trails from a node are those from its parent, one node longer. */
  lemma TrailsMeet(depth: nat, key: Key, path: seq<ProofStep>, own: (Hash, u64), up: (Hash, u64), top: (Hash, u64))
    requires 0 < depth == |path| <= CAUSAL_DEPTH && Rises(depth - 1, key, own, path[0], up)
    ensures (exists t: seq<(Hash, u64)> :: Trail(depth, key, path, t) && t[0] == own && t[depth] == top) <==>
            (exists t: seq<(Hash, u64)> :: Trail(depth - 1, key, path[1..], t) && t[0] == up && t[depth - 1] == top)
  {
    if t: seq<(Hash, u64)> :| Trail(depth - 1, key, path[1..], t) && t[0] == up && t[depth - 1] == top {
      TrailGrows(depth, key, path, own, t);
      assert ([own] + t)[depth] == t[depth - 1];
    }
    if t: seq<(Hash, u64)> :| Trail(depth, key, path, t) && t[0] == own && t[depth] == top {
      TrailTail(depth, key, path, t);
      assert t[1..][0] == up && t[1..][depth - 1] == t[depth];
    }
  }

  lemma TrailGrows(depth: nat, key: Key, path: seq<ProofStep>, own: (Hash, u64), t: seq<(Hash, u64)>)
    requires 0 < depth == |path| && Trail(depth - 1, key, path[1..], t) && depth <= CAUSAL_DEPTH
    requires Rises(depth - 1, key, own, path[0], t[0])
    ensures Trail(depth, key, path, [own] + t)
  {
    var more := [own] + t;
    forall i | 0 <= i < depth ensures Rises(depth - 1 - i, key, more[i], path[i], more[i + 1]) {
      if i > 0 { assert Rises(depth - 1 - 1 - (i - 1), key, t[i - 1], path[1..][i - 1], t[i]); }
    }
  }

  lemma TrailTail(depth: nat, key: Key, path: seq<ProofStep>, t: seq<(Hash, u64)>)
    requires 0 < depth && Trail(depth, key, path, t)
    ensures Rises(depth - 1, key, t[0], path[0], t[1]) && Trail(depth - 1, key, path[1..], t[1..])
  {
    forall i | 0 <= i < depth - 1 ensures Rises(depth - 1 - 1 - i, key, t[1..][i], path[1..][i], t[1..][i + 1]) {
      assert Rises(depth - 1 - (i + 1), key, t[i + 1], path[i + 1], t[i + 2]);
    }
  }

  method VerifyCausalPath(hash: Hash, count: u64, depth: nat, key: Key, path: seq<ProofStep>, root: Hash, total: u64)
    returns (ok: bool)
    requires depth <= CAUSAL_DEPTH
    ensures ok <==> |path| == depth && Climb(hash, count, depth, key, path) == Some((root, total))
  {
    if |path| != depth {
      return false;
    }
    var curHash, curCount: u64, d := hash, count, depth;
    for i := 0 to |path|
      invariant d == depth - i
      invariant Climb(curHash, curCount, d, key, path[i..]) == Climb(hash, count, depth, key, path)
    {
      d := d - 1;
      var step := path[i];
      assert path[i..][1..] == path[i + 1..];
      curHash := Parent(d, key, curHash, curCount, step);
      if curCount + step.count > MAX_U64 {
        return false;
      }
      curCount := curCount + step.count;
    }
    ok := curHash == root && curCount == total;
  }

  predicate AcceptsInclusion(key: Key, path: seq<ProofStep>, root: Hash, count: u64) {
    |path| == CAUSAL_DEPTH && Climb(Leaf(key), 1, CAUSAL_DEPTH, key, path) == Some((root, count))
  }

  method VerifyCausalInclusion(key: Key, path: seq<ProofStep>, root: Hash, count: u64) returns (ok: bool)
    ensures ok <==> AcceptsInclusion(key, path, root, count)
  {
    ok := VerifyCausalPath(Leaf(key), 1, CAUSAL_DEPTH, key, path, root, count);
  }

  predicate AcceptsNonInclusion(key: Key, t: nat, path: seq<ProofStep>, root: Hash, count: u64) {
    && t <= CAUSAL_DEPTH && |path| == t
    && (t > 0 ==> path[0] != ProofStep(EmptyHash(t), 0))
    && Climb(EmptyHash(t), 0, t, key, path) == Some((root, count))
  }

  method VerifyCausalNonInclusion(key: Key, t: nat, path: seq<ProofStep>, root: Hash, count: u64) returns (ok: bool)
    ensures ok <==> AcceptsNonInclusion(key, t, path, root, count)
  {
    if t > CAUSAL_DEPTH || |path| != t {
      return false;
    }
    if |path| > 0 && path[0].count == 0 && path[0].hash == EmptyHash(t) {
      return false;
    }
    ok := VerifyCausalPath(EmptyHash(t), 0, t, key, path, root, count);
  }

  // ---- soundness: an accepted climb retraces the key set's own path ----

  /** The children of key's subtree at depth d are its own child and the sibling. */
  lemma SubtreeParent(keys: set<Key>, key: Key, d: nat)
    requires d < CAUSAL_DEPTH
    ensures var own := Subtree(Under(keys, d + 1, key), d + 1);
      Subtree(Under(keys, d, key), d).0 == Parent(d, key, own.0, own.1, Sibling(keys, key, d))
    ensures Under(keys, d, key) != {} ==>
              Subtree(Under(keys, d, key), d).1 ==
              CountSum(Subtree(Under(keys, d + 1, key), d + 1).1, Sibling(keys, key, d).count)
  {
    UnderSplits(keys, d, key, false);
    UnderSplits(keys, d, key, true);
    assert key[d := key[d]] == key;
  }

  lemma PathTail(keys: set<Key>, key: Key, t: nat)
    requires 0 < t <= CAUSAL_DEPTH
    ensures PathOf(keys, key, t)[1..] == PathOf(keys, key, t - 1)
  {
  }

  lemma PathHead(keys: set<Key>, key: Key, path: seq<ProofStep>)
    requires 0 < |path| <= CAUSAL_DEPTH
    requires path[0] == Sibling(keys, key, |path| - 1) && path[1..] == PathOf(keys, key, |path| - 1)
    ensures path == PathOf(keys, key, |path|)
  {
    PathTail(keys, key, |path|);
    assert path == [path[0]] + path[1..];
    var full := PathOf(keys, key, |path|);
    assert full == [full[0]] + full[1..];
  }

  /** Hashing is injective, so a parent on key's path fixes the running node and its sibling. */
  lemma ParentFixes(keys: set<Key>, key: Key, d: nat, hash: Hash, count: u64, s: ProofStep)
    requires d < CAUSAL_DEPTH
    requires Parent(d, key, hash, count, s) == Subtree(Under(keys, d, key), d).0
    ensures (hash, count) == Subtree(Under(keys, d + 1, key), d + 1) && s == Sibling(keys, key, d)
  {
    SubtreeParent(keys, key, d);
  }

  lemma RootUnder(keys: set<Key>, key: Key, d: nat)
    requires d == 0
    ensures Subtree(Under(keys, d, key), d).0 == RootOf(keys)
  {
    UnderRoot(keys, key);
  }

  lemma ClimbSound(keys: set<Key>, key: Key, hash: Hash, count: u64, d: nat, path: seq<ProofStep>,
                   root: Hash, total: u64)
    requires d <= CAUSAL_DEPTH && |path| == d
    requires Climb(hash, count, d, key, path) == Some((root, total)) && root == RootOf(keys)
    ensures hash == Subtree(Under(keys, d, key), d).0
    ensures d > 0 ==> count == Subtree(Under(keys, d, key), d).1
    ensures path == PathOf(keys, key, d)
  {
    RootUnder(keys, key, 0);
    ClimbRetraces(keys, key, hash, count, d, path, root, total, 0);
  }

  lemma {:induction false} ClimbRetraces(keys: set<Key>, key: Key, hash: Hash, count: u64, d: nat,
                                         path: seq<ProofStep>, root: Hash, total: u64, top: nat)
    requires d <= CAUSAL_DEPTH && |path| == d && top == 0 && root == Subtree(Under(keys, top, key), top).0
    requires Climb(hash, count, d, key, path) == Some((root, total))
    ensures hash == Subtree(Under(keys, d, key), d).0
    ensures d > 0 ==> count == Subtree(Under(keys, d, key), d).1
    ensures path == PathOf(keys, key, d)
    decreases d
  {
    if d > 0 {
      ClimbRetraces(keys, key, Parent(d - 1, key, hash, count, path[0]), count + path[0].count, d - 1,
                    path[1..], root, total, top);
      ParentFixes(keys, key, d - 1, hash, count, path[0]);
      PathHead(keys, key, path);
    }
  }

  // ---- completeness ----

  /** The recursive count is the number of keys, up to the largest count there is. */
  lemma {:induction false} SubtreeCount(keys: set<Key>, d: nat, p: Key)
    requires d <= CAUSAL_DEPTH
    ensures var n := |Under(keys, d, p)|; Subtree(Under(keys, d, p), d).1 == if n <= MAX_U64 then n else MAX_U64
    decreases CAUSAL_DEPTH - d
  {
    var here := Under(keys, d, p);
    if d == CAUSAL_DEPTH {
      UnderLeaf(keys, p);
    } else if here != {} {
      var l, r: Key := p[d := false], p[d := true];
      UnderSplits(keys, d, p, false);
      UnderSplits(keys, d, p, true);
      assert here == Under(keys, d + 1, l) + Under(keys, d + 1, r);
      assert Under(keys, d + 1, l) !! Under(keys, d + 1, r);
      SubtreeCount(keys, d + 1, l);
      SubtreeCount(keys, d + 1, r);
    }
  }

  lemma UnderParentSize(keys: set<Key>, key: Key, d: nat)
    requires d < CAUSAL_DEPTH
    ensures |Under(keys, d, key)| == |Under(keys, d + 1, key)| + |Under(keys, d + 1, Flip(key, d))|
  {
    UnderSplits(keys, d, key, key[d]);
    UnderSplits(keys, d, key, !key[d]);
    assert key[d := key[d]] == key;
    var own, other := Under(keys, d + 1, key), Under(keys, d + 1, Flip(key, d));
    assert Under(keys, d, key) == own + other && own !! other;
  }

  lemma UnderSize(keys: set<Key>, d: nat, p: Key)
    requires d <= CAUSAL_DEPTH
    ensures |Under(keys, d, p)| <= |keys|
  {
    assert keys == Under(keys, d, p) + (keys - Under(keys, d, p));
  }

  /** The counts of key's own child and of the sibling add up, without overflow, to the parent's. */
  lemma CountsAdd(keys: set<Key>, key: Key, d: nat)
    requires d < CAUSAL_DEPTH && |keys| <= MAX_U64
    ensures Subtree(Under(keys, d + 1, key), d + 1).1 + Sibling(keys, key, d).count ==
            Subtree(Under(keys, d, key), d).1 <= MAX_U64
  {
    UnderParentSize(keys, key, d);
    UnderSize(keys, d, key);
    SubtreeCount(keys, d, key);
    SubtreeCount(keys, d + 1, key);
    SubtreeCount(keys, d + 1, Flip(key, d));
  }

  lemma TopOf(keys: set<Key>, key: Key, d: nat)
    requires d == 0 && |keys| <= MAX_U64
    ensures Subtree(Under(keys, d, key), d) == (RootOf(keys), |keys|)
  {
    RootUnder(keys, key, d);
    UnderRoot(keys, key);
    SubtreeCount(keys, d, key);
  }

  /** Key's own subtree at depth d. */
  ghost function Own(keys: set<Key>, key: Key, d: nat): ProofStep
    requires d <= CAUSAL_DEPTH
  {
    var s := Subtree(Under(keys, d, key), d);
    ProofStep(s.0, s.1)
  }

  lemma OwnParent(keys: set<Key>, key: Key, d: nat)
    requires d < CAUSAL_DEPTH && |keys| <= MAX_U64
    ensures var own, s, up := Own(keys, key, d + 1), Sibling(keys, key, d), Own(keys, key, d);
      up.hash == Parent(d, key, own.hash, own.count, s) && up.count == own.count + s.count
  {
    SubtreeParent(keys, key, d);
    CountsAdd(keys, key, d);
  }

  /** Climbing from key's own subtree along its path reaches the root and the full count. */
  lemma {:induction false} ClimbComplete(keys: set<Key>, key: Key, d: nat)
    requires d <= CAUSAL_DEPTH && |keys| <= MAX_U64
    ensures Climb(Own(keys, key, d).hash, Own(keys, key, d).count, d, key, PathOf(keys, key, d)) ==
            Some((RootOf(keys), |keys|))
    decreases d
  {
    if d == 0 {
      TopOf(keys, key, d);
    } else {
      ClimbComplete(keys, key, d - 1);
      OwnParent(keys, key, d - 1);
      PathTail(keys, key, d);
      ClimbStep(Own(keys, key, d), Own(keys, key, d - 1), d, key, PathOf(keys, key, d));
    }
  }

  lemma ClimbStep(own: ProofStep, up: ProofStep, d: nat, key: Key, path: seq<ProofStep>)
    requires 0 < d <= CAUSAL_DEPTH && |path| == d
    requires up.hash == Parent(d - 1, key, own.hash, own.count, path[0]) && up.count == own.count + path[0].count
    ensures Climb(own.hash, own.count, d, key, path) == Climb(up.hash, up.count, d - 1, key, path[1..])
  {
  }

  // ---- the two exact acceptance theorems ----

  /** Whatever the path and the count: acceptance against the root of keys implies membership. */
  lemma InclusionSound(keys: set<Key>, key: Key, path: seq<ProofStep>, count: u64)
    requires AcceptsInclusion(key, path, RootOf(keys), count)
    ensures key in keys && path == PathOf(keys, key, CAUSAL_DEPTH)
  {
    ClimbSound(keys, key, Leaf(key), 1, CAUSAL_DEPTH, path, RootOf(keys), count);
    UnderLeaf(keys, key);
  }

  lemma InclusionExact(keys: set<Key>, key: Key, path: seq<ProofStep>, count: u64)
    requires |keys| <= MAX_U64
    ensures AcceptsInclusion(key, path, RootOf(keys), count) <==>
            key in keys && path == PathOf(keys, key, CAUSAL_DEPTH) && count == |keys|
  {
    if AcceptsInclusion(key, path, RootOf(keys), count) {
      InclusionSound(keys, key, path, count);
    }
    if key in keys { MemberClimbs(keys, key, CAUSAL_DEPTH); }
  }

  lemma MemberClimbs(keys: set<Key>, key: Key, d: nat)
    requires key in keys && d == CAUSAL_DEPTH && |keys| <= MAX_U64
    ensures Climb(Leaf(key), 1, d, key, PathOf(keys, key, d)) == Some((RootOf(keys), |keys|))
  {
    UnderLeaf(keys, key);
    assert Own(keys, key, d) == ProofStep(Leaf(key), 1);
    ClimbComplete(keys, key, d);
  }

  /** Whatever the depth, the path and the count: acceptance against the root of keys implies
      absence, at the first empty depth and along the path that keys determines. */
  lemma NonInclusionSound(keys: set<Key>, key: Key, t: nat, path: seq<ProofStep>, count: u64)
    requires AcceptsNonInclusion(key, t, path, RootOf(keys), count)
    ensures key !in keys && TerminatesAt(keys, key, t) && path == PathOf(keys, key, t)
  {
    ClimbSound(keys, key, EmptyHash(t), 0, t, path, RootOf(keys), count);
    EmptyHashMeansEmpty(Under(keys, t, key), t);
    if t > 0 {
      assert path[0] == Sibling(keys, key, t - 1);
      SiblingOccupied(keys, key, t - 1);
    }
    assert key in Under(keys, t, key) <==> key in keys;
  }

  /** Only the empty set has the empty hash. */
  lemma EmptyHashMeansEmpty(keys: set<Key>, d: nat)
    requires d <= CAUSAL_DEPTH && Subtree(keys, d).0 == EmptyHash(d)
    ensures keys == {}
  {
    if d < CAUSAL_DEPTH {
      assert keys == WithBit(keys, d, false) + WithBit(keys, d, true);
    }
  }

  lemma SiblingOccupied(keys: set<Key>, key: Key, d: nat)
    requires d < CAUSAL_DEPTH && Under(keys, d + 1, key) == {}
    ensures Sibling(keys, key, d) != ProofStep(EmptyHash(d + 1), 0) <==> Under(keys, d, key) != {}
  {
    UnderParentSize(keys, key, d);
  }

  lemma NonInclusionExact(keys: set<Key>, key: Key, t: nat, path: seq<ProofStep>, count: u64)
    requires |keys| <= MAX_U64
    ensures AcceptsNonInclusion(key, t, path, RootOf(keys), count) <==>
            key !in keys && TerminatesAt(keys, key, t) && path == PathOf(keys, key, t) && count == |keys|
  {
    if t <= CAUSAL_DEPTH {
      ClimbComplete(keys, key, t);
    }
    if AcceptsNonInclusion(key, t, path, RootOf(keys), count) {
      NonInclusionSound(keys, key, t, path, count);
    }
    if TerminatesAt(keys, key, t) && t > 0 {
      SiblingOccupied(keys, key, t - 1);
    }
  }

  /** No root admits both kinds of proof for one key. */
  lemma NeverBoth(keys: set<Key>, key: Key, path: seq<ProofStep>, count: u64,
                  t: nat, path': seq<ProofStep>, count': u64)
    ensures !(AcceptsInclusion(key, path, RootOf(keys), count) &&
              AcceptsNonInclusion(key, t, path', RootOf(keys), count'))
  {
    if AcceptsInclusion(key, path, RootOf(keys), count) {
      InclusionSound(keys, key, path, count);
    }
    if AcceptsNonInclusion(key, t, path', RootOf(keys), count') {
      NonInclusionSound(keys, key, t, path', count');
    }
  }

  /** Every absent key has exactly one terminal depth. */
  lemma TerminalExists(keys: set<Key>, key: Key) returns (t: nat)
    requires key !in keys
    ensures TerminatesAt(keys, key, t)
  {
    UnderLeaf(keys, key);
    t := CAUSAL_DEPTH;
    while t > 0 && Under(keys, t - 1, key) == {}
      invariant t <= CAUSAL_DEPTH && Under(keys, t, key) == {}
    {
      t := t - 1;
    }
  }
}
