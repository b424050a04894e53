/** Which nodes of a trie a store lacks when it holds another trie:
    collect_new_nodes of benches/common/mod.rs, over fully loaded tries.

    The reference is by position: a node is new when the old trie has no such
    node at the same path. */
module HamtNewNodes {
  import opened HamtCanonical
  import opened HamtNodes
  import opened HamtStore
  import opened Wrappers

  /** Fully loaded, with one child for each bit of the child bitmap. */
  ghost predicate Aligned(n: Node)
    decreases n
  {
    && |n.nodemap| == BRANCH_FACTOR
    && |n.children| == MapIndex(n.nodemap, BRANCH_FACTOR)
    && forall i :: 0 <= i < |n.children| ==> n.children[i].Resolved? && Aligned(n.children[i].node)
  }

  lemma {:induction false} AlignedResolved(n: Node)
    requires Aligned(n)
    ensures FullyResolved(n)
    decreases n
  {
    forall i | 0 <= i < |n.children| ensures FullyResolved(n.children[i].node) {
      AlignedResolved(n.children[i].node);
    }
  }

  /** The child in slot s. */
  ghost function ChildAt(n: Node, s: nat): (r: Option<Node>)
    requires Aligned(n)
    ensures r.Some? ==> r.value < n && Aligned(r.value)
    ensures r.Some? <==> s < BRANCH_FACTOR && n.nodemap[s]
  {
    if s < BRANCH_FACTOR && n.nodemap[s] then
      IndexBelow(n.nodemap, s, BRANCH_FACTOR);
      Some(n.children[MapIndex(n.nodemap, s)].node)
    else None
  }

  /** The node at the end of a path of slots. */
  ghost function At(n: Node, p: seq<nat>): (r: Option<Node>)
    requires Aligned(n)
    ensures r.Some? ==> Aligned(r.value)
    decreases n
  {
    if p == [] then Some(n)
    else if ChildAt(n, p[0]).None? then None
    else At(ChildAt(n, p[0]).value, p[1..])
  }

  /** x is in the new trie at a path where the old one does not have it. */
  ghost predicate Fresh(a: Node, b: Node, x: Node)
    requires Aligned(a) && Aligned(b)
  {
    exists p :: At(b, p) == Some(x) && At(a, p) != Some(x)
  }

  ghost predicate FreshUnder(a: Node, b: Node, s: nat, x: Node)
    requires Aligned(a) && Aligned(b)
  {
    exists p :: At(b, [s] + p) == Some(x) && At(a, [s] + p) != Some(x)
  }

  lemma AtStep(n: Node, s: nat, p: seq<nat>)
    requires Aligned(n)
    ensures At(n, [s] + p) == if ChildAt(n, s).None? then None else At(ChildAt(n, s).value, p)
  {
    assert ([s] + p)[1..] == p;
  }

  ghost predicate Reaches(n: Node, x: Node)
    requires Aligned(n)
  {
    exists p :: At(n, p) == Some(x)
  }

  /** What slot s brings: nothing without a child in the new trie, all below that child when the old
      trie has none there, and what is fresh between the two children otherwise. */
  ghost predicate SlotBrings(a: Node, b: Node, s: nat, x: Node)
    requires Aligned(a) && Aligned(b)
  {
    && ChildAt(b, s).Some?
    && if ChildAt(a, s).None? then Reaches(ChildAt(b, s).value, x)
       else Fresh(ChildAt(a, s).value, ChildAt(b, s).value, x)
  }

  lemma FreshSlot(a: Node, b: Node, s: nat, x: Node)
    requires Aligned(a) && Aligned(b)
    ensures FreshUnder(a, b, s, x) <==> SlotBrings(a, b, s, x)
  {
    if FreshUnder(a, b, s, x) {
      var p :| At(b, [s] + p) == Some(x) && At(a, [s] + p) != Some(x);
      AtStep(a, s, p);
      AtStep(b, s, p);
    }
    if SlotBrings(a, b, s, x) {
      var c := ChildAt(b, s).value;
      var p :| At(c, p) == Some(x) && (ChildAt(a, s).Some? ==> At(ChildAt(a, s).value, p) != Some(x));
      AtStep(a, s, p);
      AtStep(b, s, p);
    }
  }

  /** Everything below a node is what its paths reach. */
  lemma {:induction false} AllNodesAt(n: Node, x: Node)
    requires Aligned(n)
    ensures x in AllNodes(n) <==> Reaches(n, x)
    decreases n
  {
    if x in AllNodes(n) {
      if x == n {
        assert At(n, []) == Some(x);
      } else {
        assert x in NodesIn(n.children);
        NodesInSource(n.children, x);
        var i: nat :| i < |n.children| && n.children[i].Resolved? && x in AllNodes(n.children[i].node);
        AllNodesAt(n.children[i].node, x);
        var p :| At(n.children[i].node, p) == Some(x);
        var s := SlotOfIndex(n.nodemap, i, BRANCH_FACTOR);
        AtStep(n, s, p);
        assert At(n, [s] + p) == Some(x);
      }
    }
    if Reaches(n, x) {
      var p :| At(n, p) == Some(x);
      if p == [] {
        assert x in [n];
      } else {
        var c := ChildAt(n, p[0]).value;
        AllNodesAt(c, x);
        assert At(c, p[1..]) == Some(x);
        IndexBelow(n.nodemap, p[0], BRANCH_FACTOR);
        NodesInChild(n.children, MapIndex(n.nodemap, p[0]));
      }
    }
  }

  // ---- collect_new_nodes ----

  /** The members of r are what is fresh in the first i slots. */
  ghost predicate FreshUpTo(a: Node, b: Node, i: nat, r: seq<Node>)
    requires Aligned(a) && Aligned(b)
  {
    forall x :: x in r <==> exists s: nat :: s < i && FreshUnder(a, b, s, x)
  }

  lemma FreshMore(a: Node, b: Node, i: nat, r: seq<Node>, more: seq<Node>)
    requires Aligned(a) && Aligned(b) && FreshUpTo(a, b, i, r)
    requires forall x :: x in more <==> FreshUnder(a, b, i, x)
    ensures FreshUpTo(a, b, i + 1, r + more)
  {
    forall x ensures x in r + more <==> exists s: nat :: s < i + 1 && FreshUnder(a, b, s, x) {
      if x in r {
        var s: nat :| s < i && FreshUnder(a, b, s, x);
        assert s < i + 1;
      }
    }
  }

  lemma FreshDone(a: Node, b: Node, r: seq<Node>, x: Node)
    requires Aligned(a) && Aligned(b) && a != b && FreshUpTo(a, b, BRANCH_FACTOR, r)
    ensures x in [b] + r <==> Fresh(a, b, x)
  {
    if x == b {
      assert At(b, []) == Some(b) && At(a, []) != Some(b);
    } else {
      FreshBelowRoot(a, b, x);
    }
  }

  /** A fresh node other than the root is fresh under some slot, and conversely. */
  lemma FreshBelowRoot(a: Node, b: Node, x: Node)
    requires Aligned(a) && Aligned(b) && x != b
    ensures Fresh(a, b, x) <==> exists s: nat :: s < BRANCH_FACTOR && FreshUnder(a, b, s, x)
  {
    if Fresh(a, b, x) {
      var p :| At(b, p) == Some(x) && At(a, p) != Some(x);
      FreshAtSlot(a, b, x, p);
    }
    if s: nat :| s < BRANCH_FACTOR && FreshUnder(a, b, s, x) {
      FreshFromSlot(a, b, x, s);
    }
  }

  lemma FreshAtSlot(a: Node, b: Node, x: Node, p: seq<nat>)
    requires Aligned(a) && Aligned(b) && x != b && At(b, p) == Some(x) && At(a, p) != Some(x)
    ensures p != [] && p[0] < BRANCH_FACTOR && FreshUnder(a, b, p[0], x)
  {
    assert p == [p[0]] + p[1..];
  }

  lemma FreshFromSlot(a: Node, b: Node, x: Node, s: nat)
    requires Aligned(a) && Aligned(b) && FreshUnder(a, b, s, x)
    ensures Fresh(a, b, x)
  {
  }

  /** Pushes exactly the nodes of b that a does not have at the same path.  The running counters stay
      the positions the bitmaps assign. */
  method CollectNewNodes(a: Node, b: Node, out: seq<Node>) returns (r: seq<Node>)
    requires Aligned(a) && Aligned(b)
    ensures out <= r && forall x :: x in r[|out|..] <==> Fresh(a, b, x)
    decreases b, 1
  {
    if HashOf(a) == HashOf(b) {
      AlignedResolved(a);
      AlignedResolved(b);
      LoadedByHash(a, b);
      return out;
    }
    r := out + [b];
    ghost var below: seq<Node> := [];
    var ca, cb := 0, 0;
    for i := 0 to BRANCH_FACTOR
      invariant ca == MapIndex(a.nodemap, i) && cb == MapIndex(b.nodemap, i)
      invariant r == out + ([b] + below) && FreshUpTo(a, b, i, below)
    {
      var r' := CollectSlot(a, b, i, ca, cb, r);
      ghost var more := r'[|r|..];
      FreshMore(a, b, i, below, more);
      assert r' == r + more;
      r, below := r', below + more;
      ca := ca + if a.nodemap[i] then 1 else 0;
      cb := cb + if b.nodemap[i] then 1 else 0;
    }
    forall x ensures x in [b] + below <==> Fresh(a, b, x) { FreshDone(a, b, below, x); }
    assert r[|out|..] == [b] + below;
  }

  /** One slot of the lockstep walk. */
  method CollectSlot(a: Node, b: Node, i: nat, ca: nat, cb: nat, out: seq<Node>) returns (r: seq<Node>)
    requires Aligned(a) && Aligned(b) && i < BRANCH_FACTOR
    requires ca == MapIndex(a.nodemap, i) && cb == MapIndex(b.nodemap, i)
    ensures out <= r && forall x :: x in r[|out|..] <==> FreshUnder(a, b, i, x)
    decreases b, 0
  {
    forall x ensures FreshUnder(a, b, i, x) <==> SlotBrings(a, b, i, x) { FreshSlot(a, b, i, x); }
    r := out;
    if b.nodemap[i] {
      IndexBelow(b.nodemap, i, BRANCH_FACTOR);
      var y := b.children[cb].node;
      if a.nodemap[i] {
        IndexBelow(a.nodemap, i, BRANCH_FACTOR);
        r := CollectNewNodes(a.children[ca].node, y, out);
      } else {
        r := CollectAllNodes(y, out);
        assert r[|out|..] == AllNodes(y);
        forall x ensures x in AllNodes(y) <==> Reaches(y, x) { AllNodesAt(y, x); }
      }
    }
  }

  // ---- the store stays complete ----

  /** Every node of the trie is stored. */
  ghost predicate Complete(store: set<Hash>, n: Node)
    requires Aligned(n)
  {
    forall x :: Reaches(n, x) ==> HashOf(x) in store
  }

  /** A store that holds the old trie holds the new one once the fresh nodes are added. */
  lemma FreshNodesSuffice(store: set<Hash>, a: Node, b: Node, added: seq<Node>)
    requires Aligned(a) && Aligned(b) && Complete(store, a)
    requires forall x :: x in added <==> Fresh(a, b, x)
    ensures Complete(store + Hashes(added), b)
  {
    forall x | Reaches(b, x) ensures HashOf(x) in store + Hashes(added) {
      var p :| At(b, p) == Some(x);
      if At(a, p) == Some(x) { assert Reaches(a, x); } else { assert Fresh(a, b, x); }
    }
  }

  /** Canonical tries are aligned. */
  lemma {:induction false} BuildAligned(route: Route, m: map<Key, Value>, d: nat)
    requires d < MAX_DEPTH
    ensures Aligned(Build(route, m, d))
    decreases MAX_DEPTH - d
  {
    var n, slots := Build(route, m, d), SlotsFor(route, m, d);
    ChildIndex(slots, BRANCH_FACTOR);
    assert ChildParts(slots)[..BRANCH_FACTOR] == ChildParts(slots);
    forall i | 0 <= i < |n.children| ensures n.children[i].Resolved? && Aligned(n.children[i].node) {
      var s := BuildChild(route, m, d, i);
      BuildAligned(route, Bucket(route, m, d, s), d + 1);
    }
  }
}
