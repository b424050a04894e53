/** Batched persistence (benches/db/persistence.rs): several insertions, then one
    structural comparison with the root the batch started from. */
module HamtBatches {
  import opened HamtCanonical
  import opened HamtHistory
  import opened HamtLoading
  import opened HamtMutation
  import opened HamtNewNodes
  import opened HamtNodes
  import opened HamtStore
  import opened MapHistory
  import opened Wrappers

  /** The insertions of all batches as one stream. */
  ghost function Stream(batches: seq<seq<Entry>>): seq<Mutation> {
    if batches == [] then [] else Stream(batches[..|batches| - 1]) + Puts(batches[|batches| - 1])
  }

  /** The plain map after whole batches. */
  ghost function AfterBatches(m: map<Key, Value>, batches: seq<seq<Entry>>): map<Key, Value> {
    After(m, Stream(batches))
  }

  /** A fully loaded canonical trie. */
  ghost predicate Resident(route: Route, n: Node, m: map<Key, Value>) {
    Separable(route, m, 0) && n == Build(route, m, 0)
  }

  /** An insertion into a loaded trie needs no loading and gives the loaded canonical trie. */
  method InsertOne(route: Route, resolve: Resolver, root: Node, e: Entry, ghost m: map<Key, Value>)
    returns (r: Option<Node>)
    requires Resident(route, root, m) && Sound(resolve)
    ensures r.Some? ==> Resident(route, r.value, m[e.0 := e.1])
    ensures r.None? ==> !Separable(route, m[e.0 := e.1], 0)
  {
    BuildResolved(route, m, 0);
    AllNodesClosed(root);
    assert Hashes(AllNodes(root)) + Hashes([]) == Hashes(AllNodes(root));
    var next := InsertNode(route, resolve, root, e.0, e.1, 0, [], m, Hashes(AllNodes(root)));
    ResolvedLoadable(resolve, root);
    ObstacleUnloadable(route, resolve, root, e.0, 0);
    if !next.Done? {
      return None;
    }
    LoadedIsCanonical(route, next.value.node, m[e.0 := e.1], 0);
    r := Some(next.value.node);
  }

  method InsertAll(route: Route, resolve: Resolver, root: Node, es: seq<Entry>, ghost m: map<Key, Value>)
    returns (r: Option<Node>)
    requires Resident(route, root, m) && Sound(resolve)
    ensures r.Some? ==> Resident(route, r.value, After(m, Puts(es)))
    ensures r.None? ==> Collides(route, m, Puts(es))
  {
    var current := root;
    for i := 0 to |es|
      invariant Resident(route, current, After(m, Puts(es)[..i]))
    {
      AfterNext(m, Puts(es), i);
      var next := InsertOne(route, resolve, current, es[i], After(m, Puts(es)[..i]));
      if next.None? {
        assert !Separable(route, After(m, Puts(es)[..i + 1]), 0);
        return None;
      }
      current := next.value;
    }
    assert Puts(es)[..|es|] == Puts(es);
    r := Some(current);
  }

  datatype Batch = Batch(root: Node, written: seq<Node>)

  /** What the store holds after the first batches. */
  ghost function Stored(store: set<Hash>, done: seq<Batch>): set<Hash> {
    if done == [] then store else Stored(store, done[..|done| - 1]) + Hashes(done[|done| - 1].written)
  }

  lemma {:induction false} StoredMeans(store: set<Hash>, done: seq<Batch>, h: Hash)
    ensures h in Stored(store, done) <==> h in store || exists i :: 0 <= i < |done| && h in Hashes(done[i].written)
    decreases |done|
  {
    if done != [] {
      var n := |done| - 1;
      StoredMeans(store, done[..n], h);
      assert forall i :: 0 <= i < n ==> done[..n][i] == done[i];
    }
  }

  /** The last batch: its root is the canonical trie of the map so far, and is completely stored. */
  ghost predicate BatchRight(route: Route, m: map<Key, Value>, batches: seq<seq<Entry>>, done: seq<Batch>,
                             store: set<Hash>)
    requires 0 < |done| <= |batches|
  {
    var n := done[|done| - 1].root;
    Resident(route, n, AfterBatches(m, batches[..|done|])) && Aligned(n) && Complete(Stored(store, done), n)
  }

  ghost predicate BatchesRight(route: Route, m: map<Key, Value>, batches: seq<seq<Entry>>, done: seq<Batch>,
                               store: set<Hash>)
  {
    |done| <= |batches| && forall i :: 0 < i <= |done| ==> BatchRight(route, m, batches, done[..i], store)
  }

  lemma BatchesGrow(route: Route, m: map<Key, Value>, batches: seq<seq<Entry>>, done: seq<Batch>, b: Batch,
                    store: set<Hash>)
    requires BatchesRight(route, m, batches, done, store) && |done| < |batches|
    requires BatchRight(route, m, batches, done + [b], store)
    ensures BatchesRight(route, m, batches, done + [b], store)
  {
    var more := done + [b];
    forall j | 0 < j <= |more| ensures BatchRight(route, m, batches, more[..j], store) {
      if j <= |done| { assert more[..j] == done[..j]; } else { assert more[..j] == more; }
    }
  }

  lemma StoredNext(store: set<Hash>, done: seq<Batch>, b: Batch)
    ensures Stored(store, done + [b]) == Stored(store, done) + Hashes(b.written)
  {
    assert (done + [b])[..|done|] == done;
  }

  lemma AfterBatchesNext(m: map<Key, Value>, batches: seq<seq<Entry>>, i: nat)
    requires i < |batches|
    ensures AfterBatches(m, batches[..i + 1]) == After(AfterBatches(m, batches[..i]), Puts(batches[i]))
  {
    assert batches[..i + 1][..i] == batches[..i];
    AfterBoth(m, Stream(batches[..i]), Puts(batches[i]));
  }

  lemma NextBatch(route: Route, m: map<Key, Value>, batches: seq<seq<Entry>>, done: seq<Batch>, was: Node, b: Batch,
                  store: set<Hash>)
    requires BatchesRight(route, m, batches, done, store) && |done| < |batches|
    requires Aligned(was) && Complete(Stored(store, done), was)
    requires Resident(route, b.root, AfterBatches(m, batches[..|done| + 1]))
    requires Aligned(b.root) && forall x :: x in b.written <==> Fresh(was, b.root, x)
    ensures BatchesRight(route, m, batches, done + [b], store)
    ensures Complete(Stored(store, done + [b]), b.root)
  {
    FreshNodesSuffice(Stored(store, done), was, b.root, b.written);
    StoredNext(store, done, b);
    assert (done + [b])[|done|] == b;
    BatchesGrow(route, m, batches, done, b, store);
  }

  /** After every batch the store holds every node of the new root, though only the nodes fresh since
      the batch began were written. */
  method PersistBatches(route: Route, resolve: Resolver, root: Node, batches: seq<seq<Entry>>,
                        ghost m: map<Key, Value>, ghost store: set<Hash>)
    returns (r: Option<seq<Batch>>)
    requires Resident(route, root, m) && Sound(resolve) && Aligned(root) && Complete(store, root)
    ensures r.Some? ==> |r.value| == |batches| && BatchesRight(route, m, batches, r.value, store)
    ensures r.None? ==>
              exists i :: 0 <= i < |batches| && Collides(route, AfterBatches(m, batches[..i]), Puts(batches[i]))
  {
    var done: seq<Batch> := [];
    var current := root;
    for i := 0 to |batches|
      invariant |done| == i && BatchesRight(route, m, batches, done, store)
      invariant Resident(route, current, AfterBatches(m, batches[..i]))
      invariant Aligned(current) && Complete(Stored(store, done), current)
    {
      ghost var now := AfterBatches(m, batches[..i]);
      AfterBatchesNext(m, batches, i);
      var next := InsertAll(route, resolve, current, batches[i], now);
      if next.None? {
        return None;
      }
      BuildAligned(route, After(now, Puts(batches[i])), 0);
      var written := CollectNewNodes(current, next.value, []);
      assert written[0..] == written;
      var b := Batch(next.value, written);
      NextBatch(route, m, batches, done, current, b, store);
      done, current := done + [b], next.value;
    }
    r := Some(done);
  }
}
