/** Whole histories of mutations: every published root of a chain is the
    canonical trie of the map at that step, and is fully stored when its step's
    nodes are (persist_mutation and persist_chain of src/hamt/mod.rs). */
module HamtHistory {
  import opened HamtCanonical
  import opened HamtLoading
  import opened HamtMutation
  import opened HamtNodes
  import opened HamtStore
  import opened MapHistory
  import opened Wrappers

  /** Sets a key, or removes it. */
  type Mutation = Change<Key, Value>

  /** One mutation with the nodes to write before its root is published; a root that did not change
      needs none. */
  method PersistMutation(route: Route, resolve: Resolver, root: Node, u: Mutation,
                         ghost m: map<Key, Value>, ghost store: set<Hash>)
    returns (r: Result<Mutated>)
    requires Represents(route, root, m, 0) && Sound(resolve) && Published(store, [], root)
    ensures r.Done? ==> Represents(route, r.value.node, Changed(m, u), 0) && r.value.displaced == Lookup(m, u.key)
    ensures r.Done? ==> Published(store, r.value.sink, r.value.node) && Emitted(HashOf(r.value.node), [], r.value.sink)
    ensures r.Done? && HashOf(r.value.node) == HashOf(root) ==> r.value.sink == []
    ensures Obstacle(route, resolve, root, u.key, 0) == if r.Unresolved? then Some(r.hash) else None
    ensures r.Collision? ==> !Separable(route, Changed(m, u), 0)
    ensures !r.MaxDepthExceeded?
    ensures r.Done? && Loadable(resolve, root) ==> Loadable(resolve, r.value.node)
  {
    match u {
      case Put(k, v) => r := InsertNode(route, resolve, root, k, v, 0, [], m, store);
      case Remove(k) => r := RemoveSpine(route, resolve, root, k, m, store);
    }
    if r.Done? && HashOf(r.value.node) == HashOf(root) {
      r := Done(r.value.(sink := []));
    }
  }

  datatype ChainStep = ChainStep(root: Node, displaced: Option<Value>, created: seq<Node>)

  /** The store once the nodes of the first steps are written. */
  ghost function Written(store: set<Hash>, steps: seq<ChainStep>): set<Hash> {
    if steps == [] then store else Written(store, steps[..|steps| - 1]) + Hashes(steps[|steps| - 1].created)
  }

  /** After the given steps, s publishes the map of one more mutation, and writes only nodes of its
      own trie. */
  ghost predicate StepRight(route: Route, m: map<Key, Value>, us: seq<Mutation>, steps: seq<ChainStep>, s: ChainStep,
                            store: set<Hash>)
  {
    && |steps| < |us|
    && Represents(route, s.root, Changed(After(m, us[..|steps|]), us[|steps|]), 0)
    && s.displaced == Lookup(After(m, us[..|steps|]), us[|steps|].key)
    && Published(Written(store, steps), s.created, s.root)
    && Emitted(HashOf(s.root), [], s.created)
  }

  /** Every step is right after those before it. */
  ghost predicate ChainRight(route: Route, m: map<Key, Value>, us: seq<Mutation>, steps: seq<ChainStep>,
                             store: set<Hash>)
  {
    steps == [] ||
    (var before := steps[..|steps| - 1];
     ChainRight(route, m, us, before, store) && StepRight(route, m, us, before, steps[|steps| - 1], store))
  }

  lemma ChainGrows(route: Route, m: map<Key, Value>, us: seq<Mutation>, steps: seq<ChainStep>, s: ChainStep,
                   store: set<Hash>)
    requires ChainRight(route, m, us, steps, store) && StepRight(route, m, us, steps, s, store)
    ensures ChainRight(route, m, us, steps + [s], store)
  {
    var more := steps + [s];
    assert more[..|more| - 1] == steps && more[|more| - 1] == s;
  }

  /** A correct mutation of the last root is the next correct step. */
  lemma NextStep(route: Route, m: map<Key, Value>, us: seq<Mutation>, steps: seq<ChainStep>, s: ChainStep,
                 store: set<Hash>)
    requires ChainRight(route, m, us, steps, store) && StepRight(route, m, us, steps, s, store)
    ensures ChainRight(route, m, us, steps + [s], store)
    ensures Represents(route, s.root, After(m, us[..|steps| + 1]), 0)
    ensures Published(Written(store, steps + [s]), [], s.root)
  {
    AfterNext(m, us, |steps|);
    WrittenNext(store, steps, s);
    ChainGrows(route, m, us, steps, s, store);
  }

  lemma WrittenNext(store: set<Hash>, steps: seq<ChainStep>, s: ChainStep)
    ensures Written(store, steps + [s]) == Written(store, steps) + Hashes(s.created)
    ensures Written(store, steps + [s]) + Hashes([]) == Written(store, steps + [s])
  {
    assert (steps + [s])[..|steps|] == steps;
  }

  /** Some map of the history fits no trie. */
  ghost predicate Collides(route: Route, m: map<Key, Value>, us: seq<Mutation>) {
    exists i :: 0 <= i <= |us| && !Separable(route, After(m, us[..i]), 0)
  }

  /** The next step of a history that went right so far. */
  method PersistStep(route: Route, resolve: Resolver, current: Node, u: Mutation,
                     ghost m: map<Key, Value>, ghost us: seq<Mutation>, ghost steps: seq<ChainStep>,
                     ghost store: set<Hash>)
    returns (r: Result<ChainStep>)
    requires ChainRight(route, m, us, steps, store) && |steps| < |us| && u == us[|steps|]
    requires Represents(route, current, After(m, us[..|steps|]), 0) && Sound(resolve)
    requires Published(Written(store, steps), [], current)
    ensures r.Done? ==> ChainRight(route, m, us, steps + [r.value], store)
    ensures r.Done? ==> Represents(route, r.value.root, After(m, us[..|steps| + 1]), 0)
    ensures r.Done? ==> Published(Written(store, steps + [r.value]), [], r.value.root)
    ensures r.Done? && Loadable(resolve, current) ==> Loadable(resolve, r.value.root)
    ensures r.Unresolved? ==> resolve(r.hash).None? && !Loadable(resolve, current)
    ensures r.Collision? ==> Collides(route, m, us)
    ensures !r.MaxDepthExceeded?
  {
    AfterNext(m, us, |steps|);
    var next := PersistMutation(route, resolve, current, u, After(m, us[..|steps|]), Written(store, steps));
    match next
    case Collision(depth, size) =>
      assert !Separable(route, After(m, us[..|steps| + 1]), 0);
      r := Collision(depth, size);
    case MaxDepthExceeded(_) => assert false;
    case Unresolved(h) =>
      ObstacleUnloadable(route, resolve, current, u.key, 0);
      r := Unresolved(h);
    case Done(x) =>
      var step := ChainStep(x.node, x.displaced, x.sink);
      NextStep(route, m, us, steps, step, store);
      r := Done(step);
  }

  /** A history in which every step publishes its root.  When everything below the first root can be
      loaded, or the resolver serves the store, it ends with all its steps unless one of its maps fits no trie. */
  method PersistChain(route: Route, resolve: Resolver, root: Node, us: seq<Mutation>,
                      ghost m: map<Key, Value>, ghost store: set<Hash>)
    returns (r: Result<seq<ChainStep>>)
    requires Represents(route, root, m, 0) && Sound(resolve) && Published(store, [], root)
    ensures r.Done? ==> |r.value| == |us| && ChainRight(route, m, us, r.value, store)
    ensures r.Unresolved? ==> resolve(r.hash).None? && !Loadable(resolve, root)
    ensures r.Collision? ==> Collides(route, m, us)
    ensures (Loadable(resolve, root) || Serves(resolve, store)) && !Collides(route, m, us) ==> r.Done?
  {
    var steps: seq<ChainStep> := [];
    var current := root;
    assert store + Hashes([]) == store;
    if Serves(resolve, store) {
      StoredHeld(root, store);
      ServedLoadable(resolve, store, root);
    }
    for i := 0 to |us|
      invariant |steps| == i && ChainRight(route, m, us, steps, store)
      invariant Represents(route, current, After(m, us[..i]), 0)
      invariant Published(Written(store, steps), [], current)
      invariant Loadable(resolve, root) ==> Loadable(resolve, current)
    {
      var next := PersistStep(route, resolve, current, us[i], m, us, steps, store);
      match next
      case Collision(depth, size) => return Collision(depth, size);
      case MaxDepthExceeded(_) => assert false;
      case Unresolved(h) => return Unresolved(h);
      case Done(step) => steps, current := steps + [step], step.root;
    }
    r := Done(steps);
  }

  /** What is written is what was there and the nodes of the steps. */
  lemma {:induction false} WrittenMeans(store: set<Hash>, steps: seq<ChainStep>, h: Hash)
    ensures h in Written(store, steps) <==> h in store || exists i :: 0 <= i < |steps| && h in Hashes(steps[i].created)
    decreases |steps|
  {
    if steps != [] {
      var n := |steps| - 1;
      WrittenMeans(store, steps[..n], h);
      assert forall i :: 0 <= i < n ==> steps[..n][i] == steps[i];
    }
  }

  // ---- the hash determines the map, and the loaded tree ----

  lemma {:induction false} HashDeterminesMap(route: Route, m: map<Key, Value>, m': map<Key, Value>, d: nat)
    requires d < MAX_DEPTH && Separable(route, m, d) && Separable(route, m', d)
    requires HashOf(Build(route, m, d)) == HashOf(Build(route, m', d))
    ensures m == m'
    decreases MAX_DEPTH - d
  {
    forall s: nat | s < BRANCH_FACTOR ensures Bucket(route, m, d, s) == Bucket(route, m', d, s) {
      var n := Build(route, m, d);
      SlotMeaning(route, n, m, d, s);
      SlotMeaning(route, n, m', d, s);
      if SlotAt(n, s).Child? {
        HashDeterminesMap(route, Bucket(route, m, d, s), Bucket(route, m', d, s), d + 1);
      }
    }
    BucketsDetermine(route, m, m', d);
  }

  lemma BucketsDetermine(route: Route, m: map<Key, Value>, m': map<Key, Value>, d: nat)
    requires forall s: nat :: s < BRANCH_FACTOR ==> Bucket(route, m, d, s) == Bucket(route, m', d, s)
    ensures m == m'
  {
    forall k ensures Lookup(m, k) == Lookup(m', k) {
      BucketLookup(route, m, d, k);
      BucketLookup(route, m', d, k);
    }
    assert forall k :: k in m ==> Lookup(m, k).Some?;
    assert forall k :: k in m' ==> Lookup(m', k).Some?;
    assert m.Keys == m'.Keys;
    forall k | k in m ensures m[k] == m'[k] { assert Lookup(m, k) == Lookup(m', k); }
  }

  /** Two tries have the same hash exactly when they stand for the same map, whatever histories
      led to them and however far they are loaded. */
  lemma SameHashSameMap(route: Route, a: Node, m: map<Key, Value>, b: Node, m': map<Key, Value>, d: nat)
    requires Represents(route, a, m, d) && Represents(route, b, m', d)
    ensures HashOf(a) == HashOf(b) <==> m == m'
  {
    if HashOf(a) == HashOf(b) { HashDeterminesMap(route, m, m', d); }
  }

  /** A fully loaded trie is, node for node, what building its map from scratch gives. */
  lemma LoadedIsCanonical(route: Route, n: Node, m: map<Key, Value>, d: nat)
    requires Represents(route, n, m, d) && FullyResolved(n)
    ensures n == Build(route, m, d)
  {
    BuildResolved(route, m, d);
    LoadedByHash(n, Build(route, m, d));
  }
}
