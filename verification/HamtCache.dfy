/** Lazy reload through a content-addressed store (benches/db/hamt_delta.rs):
    storing a trie, keeping only its top layers resident, and loading the rest
    back. */
module HamtCache {
  import opened HamtNodes
  import opened HamtStore
  import opened Wrappers

  type Store = map<Hash, Node>

  /** The node with every child replaced by its hash. */
  function LazyCopy(n: Node): (r: Node)
    ensures HashOf(r) == HashOf(n)
  {
    HashOfParts(n);
    var r := n.(children := seq(|n.children|, i requires 0 <= i < |n.children| => Lazy(RefHash(n.children[i]))));
    HashOfParts(r);
    assert RefHashes(r.children) == RefHashes(n.children);
    r
  }

  /** Keeps some layers of children resident; what was lazy stays lazy. */
  function CacheLayers(n: Node, layers: nat): (r: Node)
    ensures HashOf(r) == HashOf(n)
    decreases n
  {
    if layers == 0 then LazyCopy(n)
    else
      HashOfParts(n);
      var cs := seq(|n.children|, i requires 0 <= i < |n.children| => CacheRef(n.children[i], layers - 1));
      var r := n.(children := cs);
      HashOfParts(r);
      assert RefHashes(r.children) == RefHashes(n.children);
      r
  }

  function CacheRef(r: NodeRef, layers: nat): (c: NodeRef)
    ensures RefHash(c) == RefHash(r) && c.Resolved? == r.Resolved?
    decreases r
  {
    match r
    case Resolved(n) => Resolved(CacheLayers(n, layers))
    case Lazy(_) => r
  }

  /** Each hash leads to the lazy node that has it. */
  ghost predicate Addressed(store: Store) {
    forall h :: h in store ==> HashOf(store[h]) == h && LazyCopy(store[h]) == store[h]
  }

  /** A closed store that has a node has everything loaded below it: the early return is safe. */
  lemma {:induction false} AlreadyStored(n: Node, held: set<Hash>)
    requires Closed(held) && HashOf(n) in held
    ensures Hashes(AllNodes(n)) <= held
    decreases n
  {
    forall x | x in AllNodes(n) ensures HashOf(x) in held {
      if x != n {
        assert x in NodesIn(n.children);
        NodesInSource(n.children, x);
        var i: nat :| i < |n.children| && n.children[i].Resolved? && x in AllNodes(n.children[i].node);
        ChildStored(held, n, i);
        AlreadyStored(n.children[i].node, held);
        assert HashOf(x) in Hashes(AllNodes(n.children[i].node));
      }
    }
  }

  lemma HashesOfNode(n: Node)
    ensures Hashes(AllNodes(n)) == Hashes(NodesIn(n.children)) + {HashOf(n)}
  {
    HashesAppend([n], NodesIn(n.children));
    assert Hashes([n]) == {HashOf(n)} by { assert n in [n]; }
  }

  /** The children of n are stored once all its loaded children are. */
  lemma ChildrenHeld(n: Node, held: set<Hash>)
    requires LazyHeld(n, held) && Hashes(NodesIn(n.children)) <= held
    ensures forall c :: c in HashOf(n).childHashes ==> c in held
  {
    HashOfParts(n);
    forall i | 0 <= i < |n.children| ensures RefHash(n.children[i]) in held {
      if n.children[i].Resolved? {
        NodesInChild(n.children, i);
        assert n.children[i].node in AllNodes(n.children[i].node);
      }
    }
  }

  /** r is the store with at most the given nodes added, and, when the store was closed and nothing
      is missing, with exactly those added and still closed. */
  ghost predicate Stores(store: Store, r: Store, ns: seq<Node>, whole: bool) {
    Addressed(r) && Grown(store.Keys, r.Keys, Hashes(ns), whole)
  }

  ghost predicate Grown(before: set<Hash>, after: set<Hash>, added: set<Hash>, whole: bool) {
    && before <= after <= before + added
    && (whole ==> Closed(after) && after == before + added)
  }

  lemma StoresMore(store: Store, r: Store, r': Store, a: seq<Node>, b: seq<Node>, whole: bool)
    requires Stores(store, r, a, whole) && Stores(r, r', b, whole)
    ensures Stores(store, r', a + b, whole)
  {
    HashesAppend(a, b);
  }

  lemma StoresChild(store: Store, r: Store, r': Store, cs: seq<NodeRef>, i: nat, whole: bool)
    requires i < |cs| && Stores(store, r, NodesIn(cs[..i]), whole) && Stores(r, r', NodesAt(cs[i]), whole)
    ensures Stores(store, r', NodesIn(cs[..i + 1]), whole)
  {
    assert cs[..i + 1][..i] == cs[..i];
    StoresMore(store, r, r', NodesIn(cs[..i]), NodesAt(cs[i]), whole);
  }

  lemma AddressedWith(r: Store, n: Node)
    requires Addressed(r)
    ensures Addressed(r[HashOf(n) := LazyCopy(n)])
  {
    assert LazyCopy(LazyCopy(n)).children == LazyCopy(n).children;
  }

  lemma StoresNode(store: Store, r: Store, n: Node, whole: bool)
    requires Stores(store, r, NodesIn(n.children), whole) && (whole ==> LazyHeld(n, store.Keys))
    ensures Stores(store, r[HashOf(n) := LazyCopy(n)], AllNodes(n), whole)
  {
    AddressedWith(r, n);
    var r' := r[HashOf(n) := LazyCopy(n)];
    assert r'.Keys == r.Keys + {HashOf(n)};
    GrownByNode(n, store.Keys, r.Keys, whole);
  }

  lemma GrownByNode(n: Node, before: set<Hash>, after: set<Hash>, whole: bool)
    requires Grown(before, after, Hashes(NodesIn(n.children)), whole) && (whole ==> LazyHeld(n, before))
    ensures Grown(before, after + {HashOf(n)}, Hashes(AllNodes(n)), whole)
  {
    HashesOfNode(n);
    if whole { ClosedWith(n, before, after); }
  }

  lemma ClosedWith(n: Node, before: set<Hash>, held: set<Hash>)
    requires LazyHeld(n, before) && before <= held && Closed(held) && Hashes(NodesIn(n.children)) <= held
    ensures Closed(held + {HashOf(n)})
  {
    HeldGrows(n, before, held);
    ChildrenHeld(n, held);
  }

  /** Records the node and its loaded descendants, skipping what is already there. */
  method StoreAll(n: Node, store: Store) returns (r: Store)
    requires Addressed(store)
    ensures HashOf(n) in r && Stores(store, r, AllNodes(n), Closed(store.Keys) && LazyHeld(n, store.Keys))
    decreases n, 2
  {
    ghost var whole := Closed(store.Keys) && LazyHeld(n, store.Keys);
    if HashOf(n) in store {
      if whole { AlreadyStored(n, store.Keys); }
      return store;
    }
    r := StoreChildren(n, store, whole);
    StoresNode(store, r, n, whole);
    r := r[HashOf(n) := LazyCopy(n)];
  }

  method StoreChildren(n: Node, store: Store, ghost whole: bool) returns (r: Store)
    requires Addressed(store) && (whole ==> Closed(store.Keys) && LazyHeld(n, store.Keys))
    ensures Stores(store, r, NodesIn(n.children), whole)
    decreases n, 1
  {
    r := store;
    for i := 0 to |n.children|
      invariant Stores(store, r, NodesIn(n.children[..i]), whole)
    {
      if whole && n.children[i].Resolved? { HeldGrows(n.children[i].node, store.Keys, r.Keys); }
      var next := StoreRef(n.children[i], r, whole);
      StoresChild(store, r, next, n.children, i, whole);
      r := next;
    }
    assert n.children[..|n.children|] == n.children;
  }

  /** A lazy child is not loaded. */
  method StoreRef(c: NodeRef, store: Store, ghost whole: bool) returns (r: Store)
    requires Addressed(store)
    requires whole ==> Closed(store.Keys) && (c.Resolved? ==> LazyHeld(c.node, store.Keys))
    ensures Stores(store, r, NodesAt(c), whole)
    decreases c, 0
  {
    match c
    case Lazy(_) => r := store;
    case Resolved(n) => r := StoreAll(n, store);
  }

  // ---- loading back ----

  /** Replaces every lazy reference, at any depth, by what the store has under its hash. */
  ghost function LoadAll(store: Store, n: Node): Option<Node>
    requires Addressed(store)
    decreases HashOf(n), 1
  {
    if forall i :: 0 <= i < |n.children| ==> LoadChild(store, n, i).Some? then
      Some(n.(children := seq(|n.children|, i requires 0 <= i < |n.children| && LoadChild(store, n, i).Some? =>
        Resolved(LoadChild(store, n, i).value))))
    else None
  }

  ghost function LoadChild(store: Store, n: Node, i: nat): Option<Node>
    requires Addressed(store) && i < |n.children|
    decreases HashOf(n), 0
  {
    assert HashOf(n).childHashes[i] == RefHash(n.children[i]);
    match n.children[i]
    case Resolved(c) => LoadAll(store, c)
    case Lazy(h) => if h in store then LoadAll(store, store[h]) else None
  }

  /** The fully loaded node with the given hash. */
  function Loaded(h: Hash): Node {
    Node(h.datamap, h.nodemap, h.leaves,
         seq(|h.childHashes|, i requires 0 <= i < |h.childHashes| => Resolved(Loaded(h.childHashes[i]))))
  }

  lemma {:induction false} LoadedResolved(n: Node)
    requires FullyResolved(n)
    ensures Loaded(HashOf(n)) == n
    decreases n
  {
    HashOfParts(n);
    forall i | 0 <= i < |n.children| ensures Resolved(Loaded(RefHashes(n.children)[i])) == n.children[i] {
      LoadedResolved(n.children[i].node);
    }
    assert Loaded(HashOf(n)).children == n.children;
  }

  /** Loading through a closed store that holds what n still lacks gives the one tree with its hash. */
  lemma {:induction false} LoadAllByHash(store: Store, n: Node)
    requires Addressed(store) && Closed(store.Keys) && LazyHeld(n, store.Keys)
    ensures LoadAll(store, n) == Some(Loaded(HashOf(n)))
    decreases HashOf(n)
  {
    HashOfParts(n);
    forall i | 0 <= i < |n.children| ensures LoadChild(store, n, i) == Some(Loaded(RefHash(n.children[i]))) {
      assert HashOf(n).childHashes[i] == RefHash(n.children[i]);
      match n.children[i]
      case Resolved(c) => LoadAllByHash(store, c);
      case Lazy(h) =>
        StoredHeld(store[h], store.Keys);
        LoadAllByHash(store, store[h]);
    }
    assert LoadAll(store, n).Some?;
    assert LoadAll(store, n).value.children == Loaded(HashOf(n)).children;
  }

  /** However many layers stay resident, loading the rest from the store rebuilds the trie. */
  lemma ReloadRebuilds(store: Store, n: Node, layers: nat)
    requires Addressed(store) && Closed(store.Keys) && HashOf(n) in store && FullyResolved(n)
    ensures LoadAll(store, CacheLayers(n, layers)) == Some(n)
  {
    StoredHeld(CacheLayers(n, layers), store.Keys);
    LoadAllByHash(store, CacheLayers(n, layers));
    LoadedResolved(n);
  }

  /** Storing any tries one after the other, then reloading one of them. */
  method StoreAndReload(ns: seq<Node>, layers: nat) returns (r: Store)
    requires forall i :: 0 <= i < |ns| ==> FullyResolved(ns[i])
    ensures Addressed(r) && Closed(r.Keys)
    ensures forall i :: 0 <= i < |ns| ==> LoadAll(r, CacheLayers(ns[i], layers)) == Some(ns[i])
  {
    r := map[];
    for i := 0 to |ns|
      invariant Addressed(r) && Closed(r.Keys) && forall j :: 0 <= j < i ==> HashOf(ns[j]) in r
    {
      ResolvedHeld(ns[i], r.Keys);
      r := StoreAll(ns[i], r);
    }
    forall i | 0 <= i < |ns| ensures LoadAll(r, CacheLayers(ns[i], layers)) == Some(ns[i]) {
      ReloadRebuilds(r, ns[i], layers);
    }
  }

  // ---- how much stays resident ----

  /** The number of nodes on the longest loaded path. */
  function TreeDepth(n: Node): nat
    decreases n
  {
    1 + DeepestOf(n.children)
  }

  function DeepestOf(cs: seq<NodeRef>): nat
    decreases cs
  {
    if cs == [] then 0
    else Max(DeepestOf(cs[..|cs| - 1]), RefDepth(cs[|cs| - 1]))
  }

  function RefDepth(r: NodeRef): nat
    decreases r
  {
    if r.Resolved? then TreeDepth(r.node) else 0
  }

  function Max(a: nat, b: nat): nat {
    if a < b then b else a
  }

  function Min(a: nat, b: nat): nat {
    if a < b then a else b
  }

  /** A path of child positions that stays inside the loaded part of n. */
  ghost predicate LoadedPath(n: Node, p: seq<nat>)
    decreases |p|
  {
    p == [] || (p[0] < |n.children| && n.children[p[0]].Resolved? && LoadedPath(n.children[p[0]].node, p[1..]))
  }

  /** The children's depth is that of the deepest loaded child. */
  lemma {:induction false} DeepestBounds(cs: seq<NodeRef>, i: nat)
    requires i < |cs|
    ensures RefDepth(cs[i]) <= DeepestOf(cs)
    decreases |cs|
  {
    if i < |cs| - 1 { DeepestBounds(cs[..|cs| - 1], i); }
  }

  lemma {:induction false} DeepestChild(cs: seq<NodeRef>) returns (i: nat)
    requires DeepestOf(cs) > 0
    ensures i < |cs| && cs[i].Resolved? && TreeDepth(cs[i].node) == DeepestOf(cs)
    decreases |cs|
  {
    var last := |cs| - 1;
    if RefDepth(cs[last]) == DeepestOf(cs) { i := last; } else { i := DeepestChild(cs[..last]); }
  }

  lemma {:induction false} DepthBounds(n: Node, p: seq<nat>)
    requires LoadedPath(n, p)
    ensures |p| < TreeDepth(n)
    decreases |p|
  {
    if p != [] {
      DepthBounds(n.children[p[0]].node, p[1..]);
      DeepestBounds(n.children, p[0]);
    }
  }

  /** The depth counts the nodes of a longest loaded path. */
  lemma {:induction false} DepthReached(n: Node) returns (p: seq<nat>)
    ensures LoadedPath(n, p) && |p| + 1 == TreeDepth(n)
    ensures forall q :: LoadedPath(n, q) ==> |q| <= |p|
    decreases n
  {
    p := [];
    if DeepestOf(n.children) > 0 {
      var i := DeepestChild(n.children);
      var below := DepthReached(n.children[i].node);
      p := [i] + below;
      assert p[1..] == below;
    }
    forall q | LoadedPath(n, q) ensures |q| <= |p| { DepthBounds(n, q); }
  }

  /** Exactly the paths of at most the requested number of layers stay loaded. */
  lemma {:induction false} LayersExact(n: Node, layers: nat, p: seq<nat>)
    ensures LoadedPath(CacheLayers(n, layers), p) <==> LoadedPath(n, p) && |p| <= layers
    decreases |p|
  {
    if p != [] && p[0] < |n.children| && n.children[p[0]].Resolved? && layers > 0 {
      LayersExact(n.children[p[0]].node, layers - 1, p[1..]);
    }
  }

  lemma {:induction false} LoadedPrefix(n: Node, p: seq<nat>, k: nat)
    requires LoadedPath(n, p) && k <= |p|
    ensures LoadedPath(n, p[..k])
    decreases |p|
  {
    if k > 0 {
      LoadedPrefix(n.children[p[0]].node, p[1..], k - 1);
      assert p[..k][1..] == p[1..][..k - 1];
    }
  }

  /** So the depth is that number of layers and the top, or all of a shallower trie. */
  lemma LayersDepth(n: Node, layers: nat)
    ensures TreeDepth(CacheLayers(n, layers)) == Min(TreeDepth(n), layers + 1)
  {
    var r := CacheLayers(n, layers);
    var p := DepthReached(n);
    var q := DepthReached(r);
    LayersExact(n, layers, q);
    var k := Min(|p|, layers);
    LoadedPrefix(n, p, k);
    LayersExact(n, layers, p[..k]);
  }
}
