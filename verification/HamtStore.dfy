/** Content-addressed storage of trie nodes: which hashes a store holds, and the
    nodes a mutation has to add to it (benches/common/mod.rs and the node sink
    of src/hamt/mod.rs). */
module HamtStore {
  import opened HamtCanonical
  import opened HamtNodes

  /** Every node the store holds has its children in the store too. */
  ghost predicate Closed(store: set<Hash>) {
    forall h, c :: h in store && c in h.childHashes ==> c in store
  }

  function Hashes(ns: seq<Node>): set<Hash> {
    set n | n in ns :: HashOf(n)
  }

  lemma HashesAppend(a: seq<Node>, b: seq<Node>)
    ensures Hashes(a + b) == Hashes(a) + Hashes(b)
  {
    forall h | h in Hashes(a) + Hashes(b) ensures h in Hashes(a + b) {
      if h in Hashes(a) {
        var n :| n in a && HashOf(n) == h;
        assert n in a + b;
      } else {
        var n :| n in b && HashOf(n) == h;
        assert n in a + b;
      }
    }
  }

  /** One more node whose children are held keeps a store closed. */
  lemma ClosedAdd(store: set<Hash>, created: seq<Node>, n: Node)
    requires Closed(store + Hashes(created))
    requires forall i :: 0 <= i < |n.children| ==> RefHash(n.children[i]) in store + Hashes(created)
    ensures Closed(store + Hashes(created + [n])) && HashOf(n) in Hashes(created + [n])
  {
    HashesAppend(created, [n]);
    assert Hashes([n]) == {HashOf(n)} by { assert n in [n]; }
    var held := store + Hashes(created);
    assert store + Hashes(created + [n]) == held + {HashOf(n)};
    forall h, c | h in held + {HashOf(n)} && c in h.childHashes ensures c in held + {HashOf(n)} {
      if h !in held {
        HashOfParts(n);
        assert c in RefHashes(n.children);
      }
    }
  }

  /** A stored node's children are stored. */
  lemma ChildStored(store: set<Hash>, n: Node, i: nat)
    requires Closed(store) && HashOf(n) in store && i < |n.children|
    ensures RefHash(n.children[i]) in store
  {
    assert HashOf(n).childHashes[i] == RefHash(n.children[i]);
  }

  // ---- whole subtrees ----

  predicate FullyResolved(n: Node)
    decreases n
  {
    forall i :: 0 <= i < |n.children| ==> n.children[i].Resolved? && FullyResolved(n.children[i].node)
  }

  /** The node and everything loaded below it, parents first. */
  function AllNodes(n: Node): seq<Node>
    decreases n
  {
    [n] + NodesIn(n.children)
  }

  function NodesIn(cs: seq<NodeRef>): seq<Node>
    decreases cs
  {
    if cs == [] then []
    else NodesIn(cs[..|cs| - 1]) + NodesAt(cs[|cs| - 1])
  }

  function NodesAt(r: NodeRef): seq<Node>
    decreases r
  {
    if r.Resolved? then AllNodes(r.node) else []
  }

  lemma {:induction false} NodesInChild(cs: seq<NodeRef>, i: nat)
    requires i < |cs| && cs[i].Resolved?
    ensures forall x :: x in AllNodes(cs[i].node) ==> x in NodesIn(cs)
    decreases |cs|
  {
    if i < |cs| - 1 { NodesInChild(cs[..|cs| - 1], i); }
  }

  lemma {:induction false} NodesInSource(cs: seq<NodeRef>, x: Node)
    requires x in NodesIn(cs)
    ensures exists i :: 0 <= i < |cs| && cs[i].Resolved? && x in AllNodes(cs[i].node)
    decreases |cs|
  {
    var front, last := cs[..|cs| - 1], cs[|cs| - 1];
    if x in NodesIn(front) {
      NodesInSource(front, x);
      var i :| 0 <= i < |front| && front[i].Resolved? && x in AllNodes(front[i].node);
      assert cs[i] == front[i];
    }
  }

  lemma ChildNodes(n: Node, i: nat, x: Node)
    requires i < |n.children| && n.children[i].Resolved? && x in AllNodes(n.children[i].node)
    ensures HashOf(x) in Hashes(AllNodes(n))
  {
    NodesInChild(n.children, i);
    assert x in AllNodes(n);
  }

  /** The nodes of a loaded subtree make a closed store. */
  lemma {:induction false} AllNodesClosed(n: Node)
    requires FullyResolved(n)
    ensures Closed(Hashes(AllNodes(n))) && HashOf(n) in Hashes(AllNodes(n))
    decreases n
  {
    assert n in AllNodes(n);
    forall h, c | h in Hashes(AllNodes(n)) && c in h.childHashes ensures c in Hashes(AllNodes(n)) {
      var x :| x in AllNodes(n) && HashOf(x) == h;
      AllNodesStep(n, x, c);
    }
  }

  lemma {:induction false} AllNodesStep(n: Node, x: Node, c: Hash)
    requires FullyResolved(n) && x in AllNodes(n) && c in HashOf(x).childHashes
    ensures c in Hashes(AllNodes(n))
    decreases n
  {
    if x == n {
      HashOfParts(n);
      var i :| 0 <= i < |n.children| && RefHashes(n.children)[i] == c;
      var child := n.children[i].node;
      assert child in AllNodes(child);
      ChildNodes(n, i, child);
    } else {
      assert x in NodesIn(n.children);
      NodesInSource(n.children, x);
      var i :| 0 <= i < |n.children| && n.children[i].Resolved? && x in AllNodes(n.children[i].node);
      var child := n.children[i].node;
      AllNodesStep(child, x, c);
      var y :| y in AllNodes(child) && HashOf(y) == c;
      ChildNodes(n, i, y);
    }
  }

  /** Pushes the node and its loaded descendants. */
  method CollectAllNodes(n: Node, out: seq<Node>) returns (r: seq<Node>)
    ensures r == out + AllNodes(n)
    decreases n
  {
    r := out + [n];
    for i := 0 to |n.children|
      invariant r == out + [n] + NodesIn(n.children[..i])
    {
      assert n.children[..i + 1][..i] == n.children[..i];
      match n.children[i]
      case Resolved(c) => r := CollectAllNodes(c, r);
      case Lazy(_) =>
    }
    assert n.children[..|n.children|] == n.children;
  }

  // ---- canonical tries are loaded throughout ----

  lemma {:induction false} FlattenMember<T>(parts: seq<seq<T>>, x: T)
    requires x in Flatten(parts)
    ensures exists s :: 0 <= s < |parts| && x in parts[s]
  {
    var front := parts[..|parts| - 1];
    if x in Flatten(front) {
      FlattenMember(front, x);
      var s :| 0 <= s < |front| && x in front[s];
      assert parts[s] == front[s];
    } else {
      assert x in parts[|parts| - 1];
    }
  }

  /** The children of a canonical node are the canonical tries of its buckets. */
  lemma BuildChild(route: Route, m: map<Key, Value>, d: nat, i: nat) returns (s: nat)
    requires d < MAX_DEPTH && i < |Build(route, m, d).children|
    ensures d + 1 < MAX_DEPTH && s < BRANCH_FACTOR
    ensures Build(route, m, d).children[i] == Resolved(Build(route, Bucket(route, m, d, s), d + 1))
  {
    var slots, r := SlotsFor(route, m, d), Build(route, m, d).children[i];
    FlattenMember(ChildParts(slots), r);
    s :| s < |slots| && r in ChildParts(slots)[s];
    assert slots[s] == SlotFor(route, m, d, s);
    assert slots[s] == Child(r);
    assert SlotOf(route, Bucket(route, m, d, s), d) == Child(r);
  }

  lemma {:induction false} BuildResolved(route: Route, m: map<Key, Value>, d: nat)
    requires d < MAX_DEPTH
    ensures FullyResolved(Build(route, m, d))
    decreases MAX_DEPTH - d
  {
    var n := Build(route, m, d);
    forall i | 0 <= i < |n.children| ensures n.children[i].Resolved? && FullyResolved(n.children[i].node) {
      var s := BuildChild(route, m, d, i);
      BuildResolved(route, Bucket(route, m, d, s), d + 1);
    }
  }

  /** Fully loaded trees are equal when their hashes are. */
  lemma {:induction false} LoadedByHash(a: Node, b: Node)
    requires FullyResolved(a) && FullyResolved(b) && HashOf(a) == HashOf(b)
    ensures a == b
    decreases a
  {
    HashOfParts(a);
    HashOfParts(b);
    forall i | 0 <= i < |a.children| ensures a.children[i] == b.children[i] {
      assert RefHashes(a.children)[i] == RefHashes(b.children)[i];
      LoadedByHash(a.children[i].node, b.children[i].node);
    }
    assert a.children == b.children;
  }

  // ---- lazy references and stores ----

  /** Every lazy reference in the loaded part of n is stored. */
  ghost predicate LazyHeld(n: Node, held: set<Hash>)
    decreases n
  {
    forall i :: 0 <= i < |n.children| ==>
      match n.children[i]
      case Resolved(c) => LazyHeld(c, held)
      case Lazy(h) => h in held
  }

  lemma {:induction false} ResolvedHeld(n: Node, held: set<Hash>)
    requires FullyResolved(n)
    ensures LazyHeld(n, held)
    decreases n
  {
    forall i | 0 <= i < |n.children| ensures LazyHeld(n.children[i].node, held) {
      ResolvedHeld(n.children[i].node, held);
    }
  }

  lemma {:induction false} HeldGrows(n: Node, held: set<Hash>, more: set<Hash>)
    requires LazyHeld(n, held) && held <= more
    ensures LazyHeld(n, more)
    decreases n
  {
    forall i | 0 <= i < |n.children| && n.children[i].Resolved? ensures LazyHeld(n.children[i].node, more) {
      HeldGrows(n.children[i].node, held, more);
    }
  }

  /** Every reference at or below a stored node is stored. */
  lemma {:induction false} StoredHeld(n: Node, held: set<Hash>)
    requires Closed(held) && HashOf(n) in held
    ensures LazyHeld(n, held)
    decreases n
  {
    forall i | 0 <= i < |n.children|
      ensures match n.children[i] case Resolved(c) => LazyHeld(c, held) case Lazy(h) => h in held
    {
      ChildStored(held, n, i);
      if n.children[i].Resolved? { StoredHeld(n.children[i].node, held); }
    }
  }

  // ---- what lies beneath a hash ----

  /** g is h or lies below it. */
  ghost predicate Beneath(g: Hash, h: Hash)
    decreases h
  {
    g == h || exists i :: 0 <= i < |h.childHashes| && Beneath(g, h.childHashes[i])
  }

  lemma ChildBeneath(n: Node, i: nat, g: Hash)
    requires i < |n.children| && Beneath(g, RefHash(n.children[i]))
    ensures Beneath(g, HashOf(n))
  {
    assert HashOf(n).childHashes[i] == RefHash(n.children[i]);
  }

  lemma {:induction false} AllNodesBeneath(n: Node, x: Node)
    requires x in AllNodes(n)
    ensures Beneath(HashOf(x), HashOf(n))
    decreases n
  {
    if x != n {
      assert x in NodesIn(n.children);
      NodesInSource(n.children, x);
      var i: nat :| i < |n.children| && n.children[i].Resolved? && x in AllNodes(n.children[i].node);
      AllNodesBeneath(n.children[i].node, x);
      ChildBeneath(n, i, HashOf(x));
    }
  }

  /** The nodes added to the sink all lie in the trie with the given root. */
  ghost predicate Emitted(root: Hash, sink: seq<Node>, sink': seq<Node>) {
    sink <= sink' && forall i :: |sink| <= i < |sink'| ==> Beneath(HashOf(sink'[i]), root)
  }
}
