/** Lookup, insertion and removal in the trie (src/hamt/mod.rs), children loaded
    or lazy, and the nodes each mutation hands to its sink for storage.

    A node represents a map when its structural hash is that of the map's
    canonical trie: hashing is free, so the node then is that trie up to how far
    its children are loaded.  Every operation takes representatives to
    representatives, so the hash after any history is the hash that building
    the final map from scratch would give. */
module HamtMutation {
  import opened Counting
  import opened HamtCanonical
  import opened HamtLoading
  import opened HamtNodes
  import opened HamtStore
  import opened Wrappers

  ghost predicate Represents(route: Route, n: Node, m: map<Key, Value>, d: nat) {
    d < MAX_DEPTH && Separable(route, m, d) && HashOf(n) == HashOf(Build(route, m, d))
  }

  function Lookup(m: map<Key, Value>, k: Key): Option<Value> {
    if k in m then Some(m[k]) else None
  }

  /** The value a map holds, exactly for its keys. */
  lemma LookupMeans(m: map<Key, Value>, k: Key, v: Value)
    ensures Lookup(m, k) == Some(v) <==> k in m && m[k] == v
    ensures Lookup(m, k) == None <==> k !in m
  {
  }

  // ---- one slot of a representative ----

  predicate Ready(n: Node, s: nat) {
    && s < |n.datamap| && s < |n.nodemap|
    && (n.datamap[s] ==> MapIndex(n.datamap, s) < |n.leaves|)
    && (n.nodemap[s] ==> MapIndex(n.nodemap, s) < |n.children|)
    && MapIndex(n.datamap, s) <= |n.leaves|
    && MapIndex(n.nodemap, s) <= |n.children|
  }

  /** What slot s of the node holds. */
  function SlotAt(n: Node, s: nat): (r: Slot)
    requires Ready(n, s)
    ensures MapIndex(n.datamap, s) + |LeafPart(r)| <= |n.leaves|
    ensures MapIndex(n.nodemap, s) + |ChildPart(r)| <= |n.children|
  {
    if n.datamap[s] then Leaf(n.leaves[MapIndex(n.datamap, s)])
    else if n.nodemap[s] then Child(n.children[MapIndex(n.nodemap, s)])
    else Vacant
  }

  /** The slot x at depth d holds exactly the entries of b, up to loading. */
  ghost predicate Fits(route: Route, x: Slot, b: map<Key, Value>, d: nat) {
    match x
    case Vacant => b == map[]
    case Leaf(e) => b == map[e.0 := e.1]
    case Child(r) => |b| >= 2 && d + 1 < MAX_DEPTH && RefHash(r) == HashOf(Build(route, b, d + 1))
  }

  lemma FitsSlot(route: Route, x: Slot, b: map<Key, Value>, d: nat)
    requires d < MAX_DEPTH && Fits(route, x, b, d)
    ensures SameSlot(x, SlotOf(route, b, d))
  {
    SlotOfMeaning(route, b, d);
  }

  lemma SlotReady(route: Route, n: Node, m: map<Key, Value>, d: nat, s: nat)
    requires Represents(route, n, m, d) && s < BRANCH_FACTOR
    ensures Ready(n, s) && SameSlot(SlotAt(n, s), SlotOf(route, Bucket(route, m, d, s), d))
  {
    var slots := SlotsFor(route, m, d);
    assert slots[s] == SlotFor(route, m, d, s);
    HashedSlot(n, slots, s);
  }

  /** Every slot of a representative holds its bucket. */
  lemma SlotMeaning(route: Route, n: Node, m: map<Key, Value>, d: nat, s: nat)
    requires Represents(route, n, m, d) && s < BRANCH_FACTOR
    ensures Ready(n, s) && Fits(route, SlotAt(n, s), Bucket(route, m, d, s), d)
    ensures Separable(route, Bucket(route, m, d, s), d + 1)
  {
    SlotReady(route, n, m, d, s);
    BucketSeparable(route, m, d, s);
    SlotOfMeaning(route, Bucket(route, m, d, s), d);
  }

  /** A loaded child of a representative represents its bucket. */
  lemma ChildRepresents(route: Route, resolve: Resolver, n: Node, m: map<Key, Value>, d: nat, s: nat)
    requires Represents(route, n, m, d) && s < BRANCH_FACTOR && Sound(resolve)
    requires Ready(n, s) && SlotAt(n, s).Child? && Load(resolve, SlotAt(n, s).ref).Some?
    ensures Represents(route, Load(resolve, SlotAt(n, s).ref).value, Bucket(route, m, d, s), d + 1)
    ensures HashOf(Load(resolve, SlotAt(n, s).ref).value) == RefHash(SlotAt(n, s).ref)
  {
    SlotMeaning(route, n, m, d, s);
  }

  // ---- editing one slot ----

  /** Maps that differ in one bucket only have tries that differ in that slot only. */
  lemma SlotsDiffer(route: Route, m: map<Key, Value>, m': map<Key, Value>, d: nat, s: nat)
    requires d < MAX_DEPTH && s < BRANCH_FACTOR
    requires forall t: nat :: t < BRANCH_FACTOR && t != s ==> Bucket(route, m, d, t) == Bucket(route, m', d, t)
    ensures SlotsFor(route, m', d) == SlotsFor(route, m, d)[s := SlotFor(route, m', d, s)]
  {
    var was, now := SlotsFor(route, m, d), SlotsFor(route, m', d);
    forall t: nat | t < BRANCH_FACTOR && t != s ensures now[t] == was[t] {
      assert SlotFor(route, m, d, t) == SlotFor(route, m', d, t);
    }
  }

  /** Putting what the new map wants into the one slot where it differs. */
  lemma SlotEdit(route: Route, n: Node, m: map<Key, Value>, m': map<Key, Value>, d: nat, s: nat, x: Slot)
    requires Represents(route, n, m, d) && Separable(route, m', d) && s < BRANCH_FACTOR && Ready(n, s)
    requires forall t: nat :: t < BRANCH_FACTOR && t != s ==> Bucket(route, m, d, t) == Bucket(route, m', d, t)
    requires Fits(route, x, Bucket(route, m', d, s), d)
    ensures Represents(route, Edited(n, s, SlotAt(n, s), x), m', d)
  {
    SlotReady(route, n, m, d, s);
    SlotsDiffer(route, m, m', d, s);
    FitsSlot(route, x, Bucket(route, m', d, s), d);
    var slots := SlotsFor(route, m, d);
    assert slots[s] == SlotFor(route, m, d, s);
    EditedHash(n, slots, s, SlotAt(n, s), x, SlotFor(route, m', d, s));
  }

  lemma EditedResolved(n: Node, s: nat, x: Slot)
    requires FullyResolved(n) && Ready(n, s)
    requires x.Child? ==> x.ref.Resolved? && FullyResolved(x.ref.node)
    ensures FullyResolved(Edited(n, s, SlotAt(n, s), x))
  {
    var e := Edited(n, s, SlotAt(n, s), x);
    forall i | 0 <= i < |e.children| ensures e.children[i].Resolved? && FullyResolved(e.children[i].node) {
      assert e.children[i] in n.children || e.children[i] in ChildPart(x);
    }
  }

  /** An edited node has loadable children when the node and the new child do. */
  lemma EditedLoadable(resolve: Resolver, n: Node, s: nat, x: Slot)
    requires Sound(resolve) && Loadable(resolve, n) && Ready(n, s) && (x.Child? ==> RefLoadable(resolve, x.ref))
    ensures Loadable(resolve, Edited(n, s, SlotAt(n, s), x))
  {
    var e := Edited(n, s, SlotAt(n, s), x);
    forall i | 0 <= i < |e.children| ensures RefLoadable(resolve, e.children[i]) {
      assert e.children[i] in n.children || e.children[i] in ChildPart(x);
    }
  }

  // ---- publication ----

  /** The store together with the emitted nodes holds n and everything below it. */
  ghost predicate Published(store: set<Hash>, sink: seq<Node>, n: Node) {
    Closed(store + Hashes(sink)) && HashOf(n) in store + Hashes(sink)
  }

  lemma HashesGrow(a: seq<Node>, b: seq<Node>)
    requires a <= b
    ensures Hashes(a) <= Hashes(b)
  {
    assert b == a + b[|a|..];
    HashesAppend(a, b[|a|..]);
  }

  /** An edited node is published once its new child is. */
  lemma PublishEdit(store: set<Hash>, sink: seq<Node>, sink': seq<Node>, n: Node, s: nat, x: Slot)
    requires Published(store, sink, n) && Ready(n, s) && sink <= sink'
    requires Closed(store + Hashes(sink'))
    requires x.Child? ==> RefHash(x.ref) in store + Hashes(sink')
    ensures Published(store, sink' + [Edited(n, s, SlotAt(n, s), x)], Edited(n, s, SlotAt(n, s), x))
  {
    var e := Edited(n, s, SlotAt(n, s), x);
    HashesGrow(sink, sink');
    forall i | 0 <= i < |e.children| ensures RefHash(e.children[i]) in store + Hashes(sink') {
      if e.children[i] in n.children {
        var j :| 0 <= j < |n.children| && n.children[j] == e.children[i];
        ChildStored(store + Hashes(sink), n, j);
      } else {
        assert e.children[i] in ChildPart(x);
      }
    }
    ClosedAdd(store, sink', e);
  }

  /** What was emitted for the new child lies in the edited node's trie, and so does the copy itself. */
  lemma EmitEdit(sink: seq<Node>, sink': seq<Node>, n: Node, s: nat, x: Slot)
    requires Ready(n, s) && (if x.Child? then Emitted(RefHash(x.ref), sink, sink') else sink' == sink)
    ensures var e := Edited(n, s, SlotAt(n, s), x); Emitted(HashOf(e), sink, sink' + [e])
  {
    var e := Edited(n, s, SlotAt(n, s), x);
    var more := sink' + [e];
    forall i | |sink| <= i < |more| ensures Beneath(HashOf(more[i]), HashOf(e)) {
      if i < |sink'| {
        var j := MapIndex(n.nodemap, s);
        assert e.children[j] == x.ref;
        ChildBeneath(e, j, HashOf(sink'[i]));
      }
    }
  }

  /** A freshly built subtree is published once all its nodes are emitted. */
  lemma PublishBuilt(store: set<Hash>, sink: seq<Node>, n: Node)
    requires Closed(store + Hashes(sink)) && FullyResolved(n)
    ensures Published(store, sink + AllNodes(n), n) && Emitted(HashOf(n), sink, sink + AllNodes(n))
  {
    forall x | x in AllNodes(n) ensures Beneath(HashOf(x), HashOf(n)) { AllNodesBeneath(n, x); }
    HashesAppend(sink, AllNodes(n));
    AllNodesClosed(n);
    var a, b := store + Hashes(sink), Hashes(AllNodes(n));
    assert store + Hashes(sink + AllNodes(n)) == a + b;
  }

  // ---- lookup ----

  lemma BucketLookup(route: Route, m: map<Key, Value>, d: nat, k: Key)
    ensures Lookup(Bucket(route, m, d, Digit(route, k, d)), k) == Lookup(m, k)
  {
  }

  datatype Mutated = Mutated(node: Node, displaced: Option<Value>, sink: seq<Node>)

  datatype Result<T> = Done(value: T) | Collision(depth: nat, bucketSize: nat) | MaxDepthExceeded(depth: nat)
                     | Unresolved(hash: Hash)

  /** The first lazy child on the path of k that cannot be loaded. */
  ghost function Obstacle(route: Route, resolve: Resolver, n: Node, k: Key, d: nat): Option<Hash>
    decreases MAX_DEPTH - d
  {
    var s := Digit(route, k, d);
    if d >= MAX_DEPTH || !Ready(n, s) || !SlotAt(n, s).Child? then None
    else
      var ref := SlotAt(n, s).ref;
      match Load(resolve, ref)
      case None => Some(RefHash(ref))
      case Some(c) => Obstacle(route, resolve, c, k, d + 1)
  }

  /** An obstacle is a hash the resolver lacks, and where everything can be loaded there is none. */
  lemma {:induction false} ObstacleUnloadable(route: Route, resolve: Resolver, n: Node, k: Key, d: nat)
    requires Sound(resolve)
    ensures var h := Obstacle(route, resolve, n, k, d); h.Some? ==> resolve(h.value).None? && !Loadable(resolve, n)
    decreases MAX_DEPTH - d
  {
    var s := Digit(route, k, d);
    if d < MAX_DEPTH && Ready(n, s) && SlotAt(n, s).Child? {
      var i := MapIndex(n.nodemap, s);
      if Load(resolve, n.children[i]).Some? {
        LoadableChild(resolve, n, i);
        ObstacleUnloadable(route, resolve, Load(resolve, n.children[i]).value, k, d + 1);
      } else {
        assert !RefLoadable(resolve, n.children[i]);
      }
    }
  }

  /** Descends iteratively, loading lazy children.  It fails exactly when a child on the key's own path
      cannot be loaded. */
  method Search(route: Route, resolve: Resolver, n: Node, k: Key, ghost m: map<Key, Value>)
    returns (r: Result<Option<Value>>)
    requires Represents(route, n, m, 0) && Sound(resolve)
    ensures match Obstacle(route, resolve, n, k, 0)
      case Some(h) => r == Unresolved(h)
      case None => r == Done(Lookup(m, k))
  {
    var cursor := n;
    ghost var b := m;
    for depth := 0 to MAX_DEPTH
      invariant depth < MAX_DEPTH && Represents(route, cursor, b, depth)
      invariant Lookup(b, k) == Lookup(m, k)
      invariant Obstacle(route, resolve, cursor, k, depth) == Obstacle(route, resolve, n, k, 0)
    {
      var s := Digit(route, k, depth);
      SlotMeaning(route, cursor, b, depth, s);
      BucketLookup(route, b, depth, k);
      match SlotAt(cursor, s)
      case Leaf(e) => return Done(if e.0 == k then Some(e.1) else None);
      case Vacant => return Done(None);
      case Child(ref) =>
        var child := Load(resolve, ref);
        if child.None? {
          return Unresolved(RefHash(ref));
        }
        ChildRepresents(route, resolve, cursor, b, depth, s);
        cursor, b := child.value, Bucket(route, b, depth, s);
    }
    assert false;
  }

  // ---- insertion ----

  lemma BucketInsert(route: Route, m: map<Key, Value>, d: nat, k: Key, v: Value, t: nat)
    ensures Bucket(route, m[k := v], d, t) ==
            if t == Digit(route, k, d) then Bucket(route, m, d, t)[k := v] else Bucket(route, m, d, t)
  {
  }

  /** An insertion keeps the map separable exactly when it keeps the key's bucket separable. */
  lemma SeparableInsert(route: Route, m: map<Key, Value>, d: nat, k: Key, v: Value)
    requires d < MAX_DEPTH && Separable(route, m, d)
    ensures Separable(route, m[k := v], d) <==> Separable(route, Bucket(route, m, d, Digit(route, k, d))[k := v], d + 1)
  {
    var s, m' := Digit(route, k, d), m[k := v];
    var b' := Bucket(route, m, d, s)[k := v];
    BucketInsert(route, m, d, k, v, s);
    if Separable(route, m', d) {
      BucketSeparable(route, m', d, s);
    }
    if Separable(route, b', d + 1) {
      forall i, j | i in m' && j in m' && i != j ensures Diverge(route, i, j, d) {
        if i != k && j != k {
          assert i in m && j in m;
        } else if Digit(route, i, d) == Digit(route, j, d) {
          assert i in b' && j in b';
          assert Diverge(route, i, j, d + 1);
        }
      }
    }
  }

  /** Putting the changed bucket of the inserted key into its slot. */
  lemma InsertEdit(route: Route, n: Node, m: map<Key, Value>, d: nat, k: Key, v: Value, x: Slot)
    requires Represents(route, n, m, d) && Ready(n, Digit(route, k, d))
    requires var b' := Bucket(route, m, d, Digit(route, k, d))[k := v];
      Separable(route, b', d + 1) && Fits(route, x, b', d)
    ensures Represents(route, Edited(n, Digit(route, k, d), SlotAt(n, Digit(route, k, d)), x), m[k := v], d)
  {
    var s := Digit(route, k, d);
    forall t: nat ensures t != s ==> Bucket(route, m[k := v], d, t) == Bucket(route, m, d, t) {
      BucketInsert(route, m, d, k, v, t);
    }
    BucketInsert(route, m, d, k, v, s);
    SeparableInsert(route, m, d, k, v);
    SlotEdit(route, n, m, m[k := v], d, s, x);
  }

  /** A vacant slot, or the key's own leaf, takes the new entry. */
  lemma PutLeaf(route: Route, n: Node, m: map<Key, Value>, d: nat, k: Key, v: Value)
    requires Represents(route, n, m, d) && Ready(n, Digit(route, k, d))
    requires var was := SlotAt(n, Digit(route, k, d)); was.Vacant? || (was.Leaf? && was.entry.0 == k)
    ensures Represents(route, Edited(n, Digit(route, k, d), SlotAt(n, Digit(route, k, d)), Leaf((k, v))), m[k := v], d)
    ensures var was := SlotAt(n, Digit(route, k, d));
      Lookup(m, k) == if was.Vacant? then None else Some(was.entry.1)
  {
    var s := Digit(route, k, d);
    SlotMeaning(route, n, m, d, s);
    BucketLookup(route, m, d, k);
    assert Bucket(route, m, d, s)[k := v] == map[k := v];
    InsertEdit(route, n, m, d, k, v, Leaf((k, v)));
  }

  /** Copies the node with one slot changed, and emits the copy after what its new child emitted. */
  method Rebuild(resolve: Resolver, n: Node, s: nat, x: Slot, displaced: Option<Value>, sink: seq<Node>,
                 ghost store: set<Hash>, ghost sink0: seq<Node>) returns (r: Mutated)
    requires Ready(n, s) && Published(store, sink0, n) && Closed(store + Hashes(sink)) && Sound(resolve)
    requires if x.Child? then Emitted(RefHash(x.ref), sink0, sink) else sink == sink0
    requires x.Child? ==> RefHash(x.ref) in store + Hashes(sink)
    ensures r.node == Edited(n, s, SlotAt(n, s), x) && r.displaced == displaced
    ensures Published(store, r.sink, r.node) && Emitted(HashOf(r.node), sink0, r.sink)
    ensures FullyResolved(n) && (x.Child? ==> x.ref.Resolved? && FullyResolved(x.ref.node)) ==> FullyResolved(r.node)
    ensures Loadable(resolve, n) && (x.Child? ==> RefLoadable(resolve, x.ref)) ==> Loadable(resolve, r.node)
  {
    if FullyResolved(n) && (x.Child? ==> x.ref.Resolved? && FullyResolved(x.ref.node)) { EditedResolved(n, s, x); }
    if Loadable(resolve, n) && (x.Child? ==> RefLoadable(resolve, x.ref)) { EditedLoadable(resolve, n, s, x); }
    PublishEdit(store, sink0, sink, n, s, x);
    EmitEdit(sink0, sink, n, s, x);
    var e := Edited(n, s, SlotAt(n, s), x);
    r := Mutated(e, displaced, sink + [e]);
  }

  /** Inserts k in the subtree at depth d, copying the path to it; returns the displaced value.
      The new node represents the updated map, and the emitted nodes, all of them its own, publish it.
      The insertion fails exactly when a child on the key's path cannot be loaded, or else when no trie
      can hold the updated map. */
  method InsertNode(route: Route, resolve: Resolver, n: Node, k: Key, v: Value, d: nat, sink: seq<Node>,
                    ghost m: map<Key, Value>, ghost store: set<Hash>)
    returns (r: Result<Mutated>)
    requires Represents(route, n, m, d) && Sound(resolve) && Published(store, sink, n)
    ensures r.Done? ==> Represents(route, r.value.node, m[k := v], d) && r.value.displaced == Lookup(m, k)
    ensures r.Done? ==>
              Published(store, r.value.sink, r.value.node) && Emitted(HashOf(r.value.node), sink, r.value.sink)
    ensures r.Collision? ==> !Separable(route, m[k := v], d)
    ensures Obstacle(route, resolve, n, k, d) == if r.Unresolved? then Some(r.hash) else None
    ensures !r.MaxDepthExceeded?
    ensures r.Done? && FullyResolved(n) ==> FullyResolved(r.value.node)
    ensures r.Done? && Loadable(resolve, n) ==> Loadable(resolve, r.value.node)
    decreases MAX_DEPTH - d, 1
  {
    var s := Digit(route, k, d);
    SlotMeaning(route, n, m, d, s);
    match SlotAt(n, s)
    case Vacant =>
      PutLeaf(route, n, m, d, k, v);
      var copy := Rebuild(resolve, n, s, Leaf((k, v)), None, sink, store, sink);
      r := Done(copy);
    case Leaf(e) =>
      if e.0 == k {
        PutLeaf(route, n, m, d, k, v);
        var copy := Rebuild(resolve, n, s, Leaf((k, v)), Some(e.1), sink, store, sink);
        r := Done(copy);
      } else {
        r := SplitLeaf(route, resolve, n, k, v, d, e, sink, m, store);
      }
    case Child(_) =>
      r := InsertBelow(route, resolve, n, k, v, d, sink, m, store);
  }

  /** The key's slot holds a child: the insertion goes on in it. */
  method InsertBelow(route: Route, resolve: Resolver, n: Node, k: Key, v: Value, d: nat, sink: seq<Node>,
                     ghost m: map<Key, Value>, ghost store: set<Hash>)
    returns (r: Result<Mutated>)
    requires Represents(route, n, m, d) && Sound(resolve) && Published(store, sink, n)
    requires Ready(n, Digit(route, k, d)) && SlotAt(n, Digit(route, k, d)).Child?
    ensures r.Done? ==> Represents(route, r.value.node, m[k := v], d) && r.value.displaced == Lookup(m, k)
    ensures r.Done? ==>
              Published(store, r.value.sink, r.value.node) && Emitted(HashOf(r.value.node), sink, r.value.sink)
    ensures r.Collision? ==> !Separable(route, m[k := v], d)
    ensures Obstacle(route, resolve, n, k, d) == if r.Unresolved? then Some(r.hash) else None
    ensures !r.MaxDepthExceeded?
    ensures r.Done? && FullyResolved(n) ==> FullyResolved(r.value.node)
    ensures r.Done? && Loadable(resolve, n) ==> Loadable(resolve, r.value.node)
    decreases MAX_DEPTH - d, 0
  {
    var s := Digit(route, k, d);
    var ref := SlotAt(n, s).ref;
    var child := Load(resolve, ref);
    if child.None? {
      return Unresolved(RefHash(ref));
    }
    ChildRepresents(route, resolve, n, m, d, s);
    ChildStored(store + Hashes(sink), n, MapIndex(n.nodemap, s));
    LoadableChild(resolve, n, MapIndex(n.nodemap, s));
    r := InsertNode(route, resolve, child.value, k, v, d + 1, sink, Bucket(route, m, d, s), store);
    SeparableInsert(route, m, d, k, v);
    if r.Done? {
      PutChild(route, n, m, d, k, v, r.value.node);
      var x := Child(Resolved(r.value.node));
      var copy := Rebuild(resolve, n, s, x, r.value.displaced, r.value.sink, store, sink);
      BucketLookup(route, m, d, k);
      r := Done(copy);
    }
  }

  lemma PutChild(route: Route, n: Node, m: map<Key, Value>, d: nat, k: Key, v: Value, x: Node)
    requires Represents(route, n, m, d) && Ready(n, Digit(route, k, d)) && !SlotAt(n, Digit(route, k, d)).Vacant?
    requires SlotAt(n, Digit(route, k, d)).Leaf? ==> SlotAt(n, Digit(route, k, d)).entry.0 != k
    requires Represents(route, x, Bucket(route, m, d, Digit(route, k, d))[k := v], d + 1)
    ensures Represents(route, Edited(n, Digit(route, k, d), SlotAt(n, Digit(route, k, d)), Child(Resolved(x))),
              m[k := v], d)
  {
    var s := Digit(route, k, d);
    SlotMeaning(route, n, m, d, s);
    var b := Bucket(route, m, d, s);
    assert b[k := v].Keys == b.Keys + {k};
    InsertEdit(route, n, m, d, k, v, Child(Resolved(x)));
  }

  /** A leaf in the way: it and the new entry move into a new child. */
  method SplitLeaf(route: Route, resolve: Resolver, n: Node, k: Key, v: Value, d: nat, e: Entry, sink: seq<Node>,
                   ghost m: map<Key, Value>, ghost store: set<Hash>)
    returns (r: Result<Mutated>)
    requires Represents(route, n, m, d) && Published(store, sink, n) && Sound(resolve)
    requires Ready(n, Digit(route, k, d)) && SlotAt(n, Digit(route, k, d)) == Leaf(e) && k != e.0
    ensures r.Done? ==> Represents(route, r.value.node, m[k := v], d) && r.value.displaced == None == Lookup(m, k)
    ensures r.Done? ==>
              Published(store, r.value.sink, r.value.node) && Emitted(HashOf(r.value.node), sink, r.value.sink)
    ensures r.Done? && FullyResolved(n) ==> FullyResolved(r.value.node)
    ensures r.Done? && Loadable(resolve, n) ==> Loadable(resolve, r.value.node)
    ensures !r.Done? ==> r.Collision? && !Separable(route, m[k := v], d)
  {
    var s := Digit(route, k, d);
    var pair := [e, (k, v)];
    SplitPair(route, n, m, d, k, v, e);
    var child := BuildNode(route, pair, d + 1);
    if child.HashCollision? {
      return Collision(child.depth, child.bucketSize);
    }
    BuildResolved(route, MapOf(pair), d + 1);
    PublishBuilt(store, sink, child.value);
    ResolvedLoadable(resolve, child.value);
    var emitted := CollectAllNodes(child.value, sink);
    PutChild(route, n, m, d, k, v, child.value);
    var copy := Rebuild(resolve, n, s, Child(Resolved(child.value)), None, emitted, store, sink);
    r := Done(copy);
  }

  lemma SplitPair(route: Route, n: Node, m: map<Key, Value>, d: nat, k: Key, v: Value, e: Entry)
    requires Represents(route, n, m, d)
    requires Ready(n, Digit(route, k, d)) && SlotAt(n, Digit(route, k, d)) == Leaf(e) && k != e.0
    ensures MapOf([e, (k, v)]) == Bucket(route, m, d, Digit(route, k, d))[k := v]
    ensures d + 1 < MAX_DEPTH && Placeable(route, [e, (k, v)], d + 1) <==> Separable(route, m[k := v], d)
    ensures Lookup(m, k) == None
  {
    SlotMeaning(route, n, m, d, Digit(route, k, d));
    BucketLookup(route, m, d, k);
    PairMap(e, k, v);
    SeparableInsert(route, m, d, k, v);
    if d + 1 >= MAX_DEPTH { NoRoomLeft(route, [e, (k, v)], d + 1); }
  }

  lemma PairMap(e: Entry, k: Key, v: Value)
    requires k != e.0
    ensures MapOf([e, (k, v)]) == map[e.0 := e.1][k := v] && DistinctKeys([e, (k, v)])
  {
    assert [e, (k, v)][..1] == [e] && [e][..0] == [];
    assert MapOf([e]) == map[e.0 := e.1];
  }

  // ---- removal ----

  /** What is left of a subtree: nothing, one entry to be held by the parent, or a node. */
  datatype Remains = Empty | Single(entry: Entry) | Inner(node: Node)

  ghost predicate Leftover(route: Route, o: Remains, m: map<Key, Value>, d: nat) {
    match o
    case Empty => m == map[]
    case Single(e) => m == map[e.0 := e.1]
    case Inner(n) => |m| >= 2 && Represents(route, n, m, d)
  }

  function Bits(at: set<nat>): (r: seq<bool>)
    ensures |r| == BRANCH_FACTOR
  {
    seq(BRANCH_FACTOR, s => s in at)
  }

  lemma {:induction false} FlattenNothing<T>(parts: seq<seq<T>>)
    requires forall i :: 0 <= i < |parts| ==> parts[i] == []
    ensures Flatten(parts) == []
  {
    if parts != [] { FlattenNothing(parts[..|parts| - 1]); }
  }

  /** The trie of no entries, and of one. */
  lemma BuildEmpty(route: Route, d: nat)
    requires d < MAX_DEPTH
    ensures Build(route, map[], d) == Node(Bits({}), Bits({}), [], [])
  {
    var slots := SlotsFor(route, map[], d);
    forall s: nat | s < BRANCH_FACTOR ensures slots[s] == Vacant {
      assert Bucket(route, map[], d, s) == map[];
      assert SlotOf(route, map[], d) == Vacant;
      assert slots[s] == SlotFor(route, map[], d, s);
    }
    FlattenNothing(LeafParts(slots));
    FlattenNothing(ChildParts(slots));
    assert DataMap(slots) == Bits({}) && NodeMap(slots) == Bits({});
  }

  lemma {:induction false} NothingBelow(s: nat)
    requires s <= BRANCH_FACTOR
    ensures MapIndex(Bits({}), s) == 0
  {
    if s > 0 { NothingBelow(s - 1); }
  }

  lemma BuildSingle(route: Route, e: Entry, d: nat)
    requires d < MAX_DEPTH
    ensures Represents(route, Node(Bits({Digit(route, e.0, d)}), Bits({}), [e], []), map[e.0 := e.1], d)
  {
    var n, s := Node(Bits({}), Bits({}), [], []), Digit(route, e.0, d);
    BuildEmpty(route, d);
    NothingBelow(s);
    assert Bucket(route, map[], d, s) == map[];
    PutLeaf(route, n, map[], d, e.0, e.1);
    assert map[][e.0 := e.1] == map[e.0 := e.1];
    assert Bits({})[s := true] == Bits({s}) && Bits({})[s := false] == Bits({});
    assert Edited(n, s, Vacant, Leaf(e)) == Node(Bits({s}), Bits({}), [e], []);
  }

  /** A node without children and with at most one leaf stands for at most one entry. */
  lemma FewEntries(route: Route, n: Node, m: map<Key, Value>, d: nat)
    requires Represents(route, n, m, d) && true !in n.nodemap && |n.leaves| <= 1
    ensures |m| <= 1
  {
    if |m| >= 2 {
      var j, k := TwoKeys(m);
      HoldsLeaf(route, n, m, d, j);
      HoldsLeaf(route, n, m, d, k);
    }
  }

  lemma HoldsLeaf(route: Route, n: Node, m: map<Key, Value>, d: nat, k: Key)
    requires Represents(route, n, m, d) && true !in n.nodemap && k in m
    ensures (k, m[k]) in n.leaves
  {
    var s := Digit(route, k, d);
    SlotMeaning(route, n, m, d, s);
    assert k in Bucket(route, m, d, s);
    assert !n.nodemap[s];
  }

  lemma OneEntry(route: Route, n: Node, m: map<Key, Value>, d: nat, e: Entry)
    requires Represents(route, n, m, d) && true !in n.nodemap && n.leaves == [e]
    ensures m == map[e.0 := e.1]
  {
    if m == map[] { BuildEmpty(route, d); }
    FewEntries(route, n, m, d);
    var k :| k in m;
    assert m.Keys == {k} by { assert |m.Keys - {k}| == 0; }
    HoldsLeaf(route, n, m, d, k);
  }

  lemma NoEntry(route: Route, n: Node, m: map<Key, Value>, d: nat)
    requires Represents(route, n, m, d) && true !in n.nodemap && n.leaves == []
    ensures m == map[]
  {
    if k :| k in m { HoldsLeaf(route, n, m, d, k); }
  }

  lemma ManyEntries(route: Route, n: Node, m: map<Key, Value>, d: nat)
    requires Represents(route, n, m, d) && (true in n.nodemap || |n.leaves| >= 2)
    ensures |m| >= 2
  {
    if m == map[] {
      BuildEmpty(route, d);
    } else if |m| == 1 {
      var k :| k in m;
      assert m == map[k := m[k]] by { assert |m.Keys - {k}| == 0; }
      BuildSingle(route, (k, m[k]), d);
    }
  }

  /** Collapses a node that no longer has enough entries to be one. */
  method FinalizeAfterRemoval(route: Route, n: Node, ghost m: map<Key, Value>, ghost d: nat) returns (o: Remains)
    requires Represents(route, n, m, d)
    ensures Leftover(route, o, m, d) && (o.Inner? ==> o.node == n)
  {
    if true !in n.nodemap {
      if n.leaves == [] {
        NoEntry(route, n, m, d);
        return Empty;
      }
      if |n.leaves| == 1 {
        OneEntry(route, n, m, d, n.leaves[0]);
        return Single(n.leaves[0]);
      }
    }
    ManyEntries(route, n, m, d);
    o := Inner(n);
  }

  lemma BucketRemove(route: Route, m: map<Key, Value>, d: nat, k: Key, t: nat)
    ensures Bucket(route, m - {k}, d, t) ==
            if t == Digit(route, k, d) then Bucket(route, m, d, t) - {k} else Bucket(route, m, d, t)
  {
  }

  /** Putting what remains of the removed key's bucket into its slot. */
  lemma RemoveEdit(route: Route, n: Node, m: map<Key, Value>, d: nat, k: Key, x: Slot)
    requires Represents(route, n, m, d) && Ready(n, Digit(route, k, d))
    requires Fits(route, x, Bucket(route, m, d, Digit(route, k, d)) - {k}, d)
    ensures Represents(route, Edited(n, Digit(route, k, d), SlotAt(n, Digit(route, k, d)), x), m - {k}, d)
  {
    var s := Digit(route, k, d);
    forall t: nat ensures t != s ==> Bucket(route, m - {k}, d, t) == Bucket(route, m, d, t) {
      BucketRemove(route, m, d, k, t);
    }
    BucketRemove(route, m, d, k, s);
    assert Separable(route, m - {k}, d);
    SlotEdit(route, n, m, m - {k}, d, s, x);
  }

  lemma BucketSize(route: Route, m: map<Key, Value>, d: nat, s: nat)
    ensures |Bucket(route, m, d, s)| <= |m|
  {
    SubsetSize(Bucket(route, m, d, s).Keys, m.Keys);
  }

  datatype Removed = Removed(left: Remains, displaced: Option<Value>, sink: seq<Node>)

  /** The emitted nodes publish what is left, and all of them belong to it. */
  ghost predicate LeftPublished(store: set<Hash>, sink: seq<Node>, sink': seq<Node>, o: Remains) {
    && Closed(store + Hashes(sink'))
    && if o.Inner? then HashOf(o.node) in store + Hashes(sink') && Emitted(HashOf(o.node), sink, sink')
       else sink' == sink
  }

  ghost predicate LeftLoadable(resolve: Resolver, o: Remains)
    requires Sound(resolve)
  {
    o.Inner? ==> Loadable(resolve, o.node)
  }

  /** Copies the node with one slot changed, collapses it, and emits it if it is still a node. */
  method RebuildOrCollapse(route: Route, resolve: Resolver, n: Node, s: nat, x: Slot, displaced: Option<Value>,
                           sink: seq<Node>, ghost m: map<Key, Value>, ghost d: nat, ghost store: set<Hash>)
    returns (r: Removed)
    requires Ready(n, s) && Published(store, sink, n) && !x.Child? && Sound(resolve)
    requires Represents(route, Edited(n, s, SlotAt(n, s), x), m, d)
    ensures Leftover(route, r.left, m, d) && r.displaced == displaced
    ensures LeftPublished(store, sink, r.sink, r.left)
    ensures Loadable(resolve, n) ==> LeftLoadable(resolve, r.left)
  {
    var e := Edited(n, s, SlotAt(n, s), x);
    var o := FinalizeAfterRemoval(route, e, m, d);
    PublishEdit(store, sink, sink, n, s, x);
    EmitEdit(sink, sink, n, s, x);
    if Loadable(resolve, n) { EditedLoadable(resolve, n, s, x); }
    r := Removed(o, displaced, if o.Inner? then sink + [e] else sink);
  }

  /** Removes k from the subtree at depth d: nothing changes when it is absent; otherwise what is
      left stands for the map without k, collapsed as far as building it would.  It fails exactly when
      a child on the key's path cannot be loaded. */
  method RemoveNode(route: Route, resolve: Resolver, n: Node, k: Key, d: nat, sink: seq<Node>,
                    ghost m: map<Key, Value>, ghost store: set<Hash>)
    returns (r: Result<Removed>)
    requires Represents(route, n, m, d) && Sound(resolve) && Published(store, sink, n)
    ensures r.Done? ==> r.value.displaced == Lookup(m, k)
    ensures r.Done? && k in m ==> Leftover(route, r.value.left, m - {k}, d)
    ensures r.Done? && k !in m ==> r.value.left == Inner(n) && r.value.sink == sink
    ensures r.Done? ==> LeftPublished(store, sink, r.value.sink, r.value.left)
    ensures Obstacle(route, resolve, n, k, d) == if r.Unresolved? then Some(r.hash) else None
    ensures r.Done? || r.Unresolved?
    ensures r.Done? && Loadable(resolve, n) ==> LeftLoadable(resolve, r.value.left)
    decreases MAX_DEPTH - d, 1
  {
    var s := Digit(route, k, d);
    SlotMeaning(route, n, m, d, s);
    BucketLookup(route, m, d, k);
    match SlotAt(n, s)
    case Vacant =>
      r := Done(Removed(Inner(n), None, sink));
    case Leaf(e) =>
      if e.0 != k {
        return Done(Removed(Inner(n), None, sink));
      }
      assert Bucket(route, m, d, s) - {k} == map[];
      RemoveEdit(route, n, m, d, k, Vacant);
      var gone := RebuildOrCollapse(route, resolve, n, s, Vacant, Some(e.1), sink, m - {k}, d, store);
      r := Done(gone);
    case Child(_) =>
      r := RemoveFromChild(route, resolve, n, k, d, sink, m, store);
  }

  /** The key's slot holds a child: the removal goes on in it. */
  method RemoveFromChild(route: Route, resolve: Resolver, n: Node, k: Key, d: nat, sink: seq<Node>,
                         ghost m: map<Key, Value>, ghost store: set<Hash>)
    returns (r: Result<Removed>)
    requires Represents(route, n, m, d) && Sound(resolve) && Published(store, sink, n)
    requires Ready(n, Digit(route, k, d)) && SlotAt(n, Digit(route, k, d)).Child?
    ensures r.Done? ==> r.value.displaced == Lookup(m, k)
    ensures r.Done? && k in m ==> Leftover(route, r.value.left, m - {k}, d)
    ensures r.Done? && k !in m ==> r.value.left == Inner(n) && r.value.sink == sink
    ensures r.Done? ==> LeftPublished(store, sink, r.value.sink, r.value.left)
    ensures Obstacle(route, resolve, n, k, d) == if r.Unresolved? then Some(r.hash) else None
    ensures r.Done? || r.Unresolved?
    ensures r.Done? && Loadable(resolve, n) ==> LeftLoadable(resolve, r.value.left)
    decreases MAX_DEPTH - d, 0
  {
    var s := Digit(route, k, d);
    var ref := SlotAt(n, s).ref;
    var child := Load(resolve, ref);
    if child.None? {
      return Unresolved(RefHash(ref));
    }
    BucketLookup(route, m, d, k);
    ChildRepresents(route, resolve, n, m, d, s);
    ChildStored(store + Hashes(sink), n, MapIndex(n.nodemap, s));
    LoadableChild(resolve, n, MapIndex(n.nodemap, s));
    r := RemoveNode(route, resolve, child.value, k, d + 1, sink, Bucket(route, m, d, s), store);
    if r.Done? {
      r := RemoveBelow(route, resolve, n, k, d, r.value, sink, m, store);
    }
  }

  /** Puts what a child has left after the removal back into its slot. */
  method RemoveBelow(route: Route, resolve: Resolver, n: Node, k: Key, d: nat, below: Removed, sink: seq<Node>,
                     ghost m: map<Key, Value>, ghost store: set<Hash>)
    returns (r: Result<Removed>)
    requires Represents(route, n, m, d) && Published(store, sink, n) && Sound(resolve)
    requires Ready(n, Digit(route, k, d)) && SlotAt(n, Digit(route, k, d)).Child?
    requires below.displaced == Lookup(m, k)
    requires k in m ==> Leftover(route, below.left, Bucket(route, m, d, Digit(route, k, d)) - {k}, d + 1)
    requires k in m ==> LeftPublished(store, sink, below.sink, below.left)
    requires k !in m ==> below.sink == sink
    ensures r.Done? && r.value.displaced == Lookup(m, k)
    ensures k in m ==> Leftover(route, r.value.left, m - {k}, d)
    ensures k !in m ==> r.value.left == Inner(n) && r.value.sink == sink
    ensures LeftPublished(store, sink, r.value.sink, r.value.left)
    ensures Loadable(resolve, n) && LeftLoadable(resolve, below.left) ==> LeftLoadable(resolve, r.value.left)
  {
    if below.displaced.None? {
      return Done(Removed(Inner(n), None, below.sink));
    }
    var s := Digit(route, k, d);
    RemainsNonempty(route, n, m, d, k);
    match below.left
    case Empty =>
      assert false;
    case Single(e) =>
      RemoveEdit(route, n, m, d, k, Leaf(e));
      var gone := RebuildOrCollapse(route, resolve, n, s, Leaf(e), below.displaced, below.sink, m - {k}, d, store);
      r := Done(gone);
    case Inner(x) =>
      RemoveEdit(route, n, m, d, k, Child(Resolved(x)));
      var copy := Rebuild(resolve, n, s, Child(Resolved(x)), below.displaced, below.sink, store, sink);
      r := Done(Removed(Inner(copy.node), copy.displaced, copy.sink));
  }

  lemma RemainsNonempty(route: Route, n: Node, m: map<Key, Value>, d: nat, k: Key)
    requires Represents(route, n, m, d) && k in m
    requires Ready(n, Digit(route, k, d)) && SlotAt(n, Digit(route, k, d)).Child?
    ensures var left := Bucket(route, m, d, Digit(route, k, d)) - {k};
      left != map[] && |left| <= |m - {k}|
  {
    var s := Digit(route, k, d);
    SlotMeaning(route, n, m, d, s);
    var b := Bucket(route, m, d, s);
    assert (b - {k}).Keys == b.Keys - {k};
    assert |(b - {k}).Keys| == |b.Keys| - 1;
    BucketRemove(route, m, d, k, s);
    BucketSize(route, m - {k}, d, s);
  }

  /** What is left of a trie as a root node, emitted if it is not one already. */
  method FinalizeRemoveRoot(route: Route, resolve: Resolver, x: Removed, ghost m: map<Key, Value>,
                            ghost store: set<Hash>)
    returns (r: Mutated)
    requires Sound(resolve) && LeftPublished(store, [], x.sink, x.left)
    requires if x.left.Inner? then Represents(route, x.left.node, m, 0) else Leftover(route, x.left, m, 0)
    ensures Represents(route, r.node, m, 0) && r.displaced == x.displaced
    ensures Published(store, r.sink, r.node) && Emitted(HashOf(r.node), [], r.sink)
    ensures LeftLoadable(resolve, x.left) ==> Loadable(resolve, r.node)
  {
    if x.left.Inner? {
      return Mutated(x.left.node, x.displaced, x.sink);
    }
    var bits := if x.left.Single? then {Digit(route, x.left.entry.0, 0)} else {};
    var leaves := if x.left.Single? then [x.left.entry] else [];
    var root := Node(Bits(bits), Bits({}), leaves, []);
    if x.left.Single? { BuildSingle(route, x.left.entry, 0); } else { BuildEmpty(route, 0); }
    ClosedAdd(store, x.sink, root);
    r := Mutated(root, x.displaced, x.sink + [root]);
  }

  /** Removes k from a trie; the root stays a node whatever is left. */
  method RemoveSpine(route: Route, resolve: Resolver, n: Node, k: Key, ghost m: map<Key, Value>, ghost store: set<Hash>)
    returns (r: Result<Mutated>)
    requires Represents(route, n, m, 0) && Sound(resolve) && Published(store, [], n)
    ensures r.Done? ==> Represents(route, r.value.node, m - {k}, 0) && r.value.displaced == Lookup(m, k)
    ensures r.Done? ==> Published(store, r.value.sink, r.value.node) && Emitted(HashOf(r.value.node), [], r.value.sink)
    ensures Obstacle(route, resolve, n, k, 0) == if r.Unresolved? then Some(r.hash) else None
    ensures r.Done? || r.Unresolved?
    ensures r.Done? && Loadable(resolve, n) ==> Loadable(resolve, r.value.node)
  {
    var removed := RemoveNode(route, resolve, n, k, 0, [], m, store);
    if removed.Unresolved? {
      return Unresolved(removed.hash);
    }
    if k !in m { assert m - {k} == m; }
    var root := FinalizeRemoveRoot(route, resolve, removed.value, m - {k}, store);
    r := Done(root);
  }
}
