/** Loading lazy children through a resolver (src/hamt/mod.rs): what a resolver
    may return, and when everything below a node can be loaded. */
module HamtLoading {
  import opened HamtNodes
  import opened HamtStore
  import opened Wrappers

  /** What loading a lazy child may return: a node with the requested hash, or nothing. */
  type Resolver = Hash -> Option<Node>

  ghost predicate Sound(resolve: Resolver) {
    forall h :: resolve(h).Some? ==> HashOf(resolve(h).value) == h
  }

  function Load(resolve: Resolver, r: NodeRef): Option<Node> {
    match r
    case Resolved(n) => Some(n)
    case Lazy(h) => resolve(h)
  }

  /** Everything below n is loaded or can be loaded, at every depth. */
  ghost predicate Loadable(resolve: Resolver, n: Node)
    requires Sound(resolve)
    decreases HashOf(n), 0
  {
    forall i :: 0 <= i < |n.children| ==>
      assert HashOf(n).childHashes[i] == RefHash(n.children[i]);
      RefLoadable(resolve, n.children[i])
  }

  ghost predicate RefLoadable(resolve: Resolver, r: NodeRef)
    requires Sound(resolve)
    decreases RefHash(r), 1
  {
    Load(resolve, r).Some? && Loadable(resolve, Load(resolve, r).value)
  }

  lemma LoadableChild(resolve: Resolver, n: Node, i: nat)
    requires Sound(resolve) && i < |n.children| && Load(resolve, n.children[i]).Some?
    ensures Loadable(resolve, n) ==> Loadable(resolve, Load(resolve, n.children[i]).value)
  {
    if Loadable(resolve, n) { assert RefLoadable(resolve, n.children[i]); }
  }

  /** A loaded trie needs no resolver. */
  lemma {:induction false} ResolvedLoadable(resolve: Resolver, n: Node)
    requires Sound(resolve) && FullyResolved(n)
    ensures Loadable(resolve, n)
    decreases n
  {
    forall i | 0 <= i < |n.children| ensures RefLoadable(resolve, n.children[i]) {
      ResolvedLoadable(resolve, n.children[i].node);
    }
  }

  /** The resolver answers for every hash of a closed store. */
  ghost predicate Serves(resolve: Resolver, held: set<Hash>) {
    Closed(held) && forall h :: h in held ==> resolve(h).Some?
  }

  /** A resolver that serves the lazy references in the loaded part of n serves all below them. */
  lemma {:induction false} ServedLoadable(resolve: Resolver, held: set<Hash>, n: Node)
    requires Sound(resolve) && Serves(resolve, held) && LazyHeld(n, held)
    ensures Loadable(resolve, n)
    decreases HashOf(n)
  {
    forall i | 0 <= i < |n.children| ensures RefLoadable(resolve, n.children[i]) {
      assert HashOf(n).childHashes[i] == RefHash(n.children[i]);
      match n.children[i]
      case Resolved(c) => ServedLoadable(resolve, held, c);
      case Lazy(h) =>
        StoredHeld(resolve(h).value, held);
        ServedLoadable(resolve, held, resolve(h).value);
    }
  }
}
