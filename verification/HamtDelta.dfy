/** The difference of two tries (src/hamt/delta.rs): walking both in lockstep,
    skipping what has equal hashes, yields exactly the entries in which the two
    maps differ, each once. */
module HamtDelta {
  import opened Counting
  import opened HamtCanonical
  import opened HamtHistory
  import opened HamtLoading
  import opened HamtMutation
  import opened HamtNodes

  // ---- the entries below a hash ----

  function Entries(h: Hash): seq<Entry> {
    h.leaves + EntriesIn(h.childHashes)
  }

  function EntriesIn(hs: seq<Hash>): seq<Entry> {
    if hs == [] then [] else EntriesIn(hs[..|hs| - 1]) + Entries(hs[|hs| - 1])
  }

  ghost function EntrySet(m: map<Key, Value>): set<Entry> {
    set k | k in m :: (k, m[k])
  }

  /** The part of the map whose digits at depth d lie in the given set. */
  ghost function Within(route: Route, m: map<Key, Value>, d: nat, digits: set<nat>): map<Key, Value> {
    map k | k in m && Digit(route, k, d) in digits :: m[k]
  }

  lemma WithinAdd(route: Route, m: map<Key, Value>, d: nat, digits: set<nat>, s: nat)
    requires s !in digits
    ensures EntrySet(Within(route, m, d, digits + {s})) ==
              EntrySet(Within(route, m, d, digits)) + EntrySet(Bucket(route, m, d, s))
    ensures EntrySet(Within(route, m, d, digits)) !! EntrySet(Bucket(route, m, d, s))
  {
  }

  lemma UnionCount<T>(a: set<T>, b: set<T>)
    requires a !! b
    ensures multiset(a + b) == multiset(a) + multiset(b)
  {
  }

  lemma SingleItem(e: Entry)
    ensures EntrySet(map[e.0 := e.1]) == {e}
  {
    var m := map[e.0 := e.1];
    assert (e.0, m[e.0]) in EntrySet(m);
    assert e in EntrySet(m);
  }

  // ---- counting the entries of slots ----

  ghost function SlotCount(x: Slot): multiset<Entry> {
    match x
    case Vacant => multiset{}
    case Leaf(e) => multiset{e}
    case Child(r) => multiset(Entries(RefHash(r)))
  }

  /** The entries of the first i slots, leaves and children counted apart. */
  ghost function PrefixCount(slots: seq<Slot>, i: nat): multiset<Entry>
    requires i <= |slots|
  {
    multiset(Flatten(LeafParts(slots)[..i])) + multiset(EntriesIn(RefHashes(Flatten(ChildParts(slots)[..i]))))
  }

  lemma EntriesInPart(hs: seq<Hash>, x: Slot)
    ensures multiset(EntriesIn(hs + RefHashes(ChildPart(x)))) ==
            multiset(EntriesIn(hs)) + if x.Child? then multiset(Entries(RefHash(x.ref))) else multiset{}
  {
    var c := RefHashes(ChildPart(x));
    if x.Child? {
      assert c == [RefHash(x.ref)] && (hs + c)[..|hs|] == hs;
    } else {
      assert hs + c == hs;
    }
  }

  lemma PrefixStep(slots: seq<Slot>, i: nat)
    requires i < |slots|
    ensures PrefixCount(slots, i + 1) == PrefixCount(slots, i) + SlotCount(slots[i])
  {
    assert LeafParts(slots)[..i + 1][..i] == LeafParts(slots)[..i];
    assert ChildParts(slots)[..i + 1][..i] == ChildParts(slots)[..i];
    var cs, c := Flatten(ChildParts(slots)[..i]), ChildPart(slots[i]);
    assert RefHashes(cs + c) == RefHashes(cs) + RefHashes(c);
    EntriesInPart(RefHashes(cs), slots[i]);
  }

  lemma PrefixWhole(slots: seq<Slot>)
    ensures PrefixCount(slots, |slots|) == multiset(Entries(HashOf(Pack(slots))))
  {
    assert LeafParts(slots)[..|slots|] == LeafParts(slots);
    assert ChildParts(slots)[..|slots|] == ChildParts(slots);
    HashOfParts(Pack(slots));
  }

  lemma SlotEntries(route: Route, b: map<Key, Value>, d: nat)
    requires d < MAX_DEPTH && Separable(route, b, d + 1) && (|b| >= 2 ==> d + 1 < MAX_DEPTH)
    ensures SlotCount(SlotOf(route, b, d)) == multiset(EntrySet(b))
    decreases MAX_DEPTH - d, 0
  {
    SlotOfMeaning(route, b, d);
    match SlotOf(route, b, d)
    case Vacant => assert EntrySet(b) == {};
    case Leaf(e) => SingleItem(e);
    case Child(r) => BuildEntries(route, b, d + 1);
  }

  lemma {:induction false} PrefixEntries(route: Route, m: map<Key, Value>, d: nat, i: nat)
    requires d < MAX_DEPTH && Separable(route, m, d) && i <= BRANCH_FACTOR
    ensures PrefixCount(SlotsFor(route, m, d), i) == multiset(EntrySet(Within(route, m, d, Below(i))))
    decreases MAX_DEPTH - d, 1, i
  {
    var slots := SlotsFor(route, m, d);
    if i == 0 {
      assert EntrySet(Within(route, m, d, Below(0))) == {};
    } else {
      var s := i - 1;
      PrefixEntries(route, m, d, s);
      PrefixStep(slots, s);
      assert slots[s] == SlotFor(route, m, d, s);
      BucketSeparable(route, m, d, s);
      SlotEntries(route, Bucket(route, m, d, s), d);
      WithinAdd(route, m, d, Below(s), s);
      UnionCount(EntrySet(Within(route, m, d, Below(s))), EntrySet(Bucket(route, m, d, s)));
    }
  }

  /** A canonical trie holds each entry of its map once. */
  lemma BuildEntries(route: Route, m: map<Key, Value>, d: nat)
    requires d < MAX_DEPTH && Separable(route, m, d)
    ensures multiset(Entries(HashOf(Build(route, m, d)))) == multiset(EntrySet(m))
    decreases MAX_DEPTH - d, 2
  {
    PrefixEntries(route, m, d, BRANCH_FACTOR);
    assert Within(route, m, d, Below(BRANCH_FACTOR)) == m;
    PrefixWhole(SlotsFor(route, m, d));
  }

  // ---- walking one subtree ----

  /** Each child of a representative represents the bucket of some slot. */
  lemma ChildByIndex(route: Route, n: Node, m: map<Key, Value>, d: nat, j: nat) returns (s: nat)
    requires Represents(route, n, m, d) && j < |n.children|
    ensures s < BRANCH_FACTOR && Ready(n, s) && SlotAt(n, s) == Child(n.children[j])
  {
    var p := Build(route, m, d);
    var slots := SlotsFor(route, m, d);
    HashOfParts(n);
    HashOfParts(p);
    ChildIndex(slots, BRANCH_FACTOR);
    assert ChildParts(slots)[..BRANCH_FACTOR] == ChildParts(slots);
    s := SlotOfIndex(n.nodemap, j, BRANCH_FACTOR);
    HashedSlot(n, slots, s);
  }

  /** Visits the subtree's nodes, parents first, and returns their leaves; it succeeds exactly when
      everything below the node can be loaded. */
  method WalkSubtree(route: Route, resolve: Resolver, n: Node, d: nat, ghost m: map<Key, Value>)
    returns (r: Result<seq<Entry>>)
    requires Represents(route, n, m, d) && Sound(resolve)
    ensures r.Done? ==> r.value == Entries(HashOf(n)) && multiset(r.value) == multiset(EntrySet(m))
    ensures !r.Done? ==> r.Unresolved? && resolve(r.hash).None?
    ensures r.Done? <==> Loadable(resolve, n)
    decreases MAX_DEPTH - d, 1
  {
    var out := n.leaves;
    for j := 0 to |n.children|
      invariant out == n.leaves + EntriesIn(RefHashes(n.children)[..j])
      invariant FirstLoadable(resolve, n, j)
    {
      var below := WalkChild(route, resolve, n, d, j, m);
      if !below.Done? {
        return below;
      }
      EntriesInNext(RefHashes(n.children), j);
      out := out + below.value;
    }
    WholeWalk(route, n, m, d);
    r := Done(out);
  }

  ghost predicate FirstLoadable(resolve: Resolver, n: Node, j: nat)
    requires Sound(resolve) && j <= |n.children|
  {
    forall i :: 0 <= i < j ==> RefLoadable(resolve, n.children[i])
  }

  lemma EntriesInNext(hs: seq<Hash>, j: nat)
    requires j < |hs|
    ensures EntriesIn(hs[..j + 1]) == EntriesIn(hs[..j]) + Entries(hs[j])
  {
    assert hs[..j + 1][..j] == hs[..j];
  }

  method WalkChild(route: Route, resolve: Resolver, n: Node, d: nat, j: nat, ghost m: map<Key, Value>)
    returns (r: Result<seq<Entry>>)
    requires Represents(route, n, m, d) && Sound(resolve) && j < |n.children|
    ensures r.Done? ==> r.value == Entries(RefHash(n.children[j]))
    ensures !r.Done? ==> r.Unresolved? && resolve(r.hash).None?
    ensures r.Done? <==> RefLoadable(resolve, n.children[j])
    decreases MAX_DEPTH - d, 0
  {
    var child := Load(resolve, n.children[j]);
    if child.None? {
      return Unresolved(RefHash(n.children[j]));
    }
    ghost var s := ChildByIndex(route, n, m, d, j);
    ChildRepresents(route, resolve, n, m, d, s);
    r := WalkSubtree(route, resolve, child.value, d + 1, Bucket(route, m, d, s));
  }

  lemma WholeWalk(route: Route, n: Node, m: map<Key, Value>, d: nat)
    requires Represents(route, n, m, d)
    ensures Entries(HashOf(n)) == n.leaves + EntriesIn(RefHashes(n.children)[..|n.children|])
    ensures multiset(Entries(HashOf(n))) == multiset(EntrySet(m))
  {
    HashOfParts(n);
    assert RefHashes(n.children)[..|n.children|] == RefHashes(n.children);
    BuildEntries(route, m, d);
  }

  // ---- the lockstep walk ----

  datatype Delta = Delta(added: seq<Entry>, removed: seq<Entry>)

  function Plus(x: Delta, y: Delta): Delta {
    Delta(x.added + y.added, x.removed + y.removed)
  }

  /** The delta lists, each once, the entries of mb that ma lacks and those of ma that mb lacks. */
  ghost predicate Exact(x: Delta, ma: map<Key, Value>, mb: map<Key, Value>) {
    && multiset(x.added) == multiset(EntrySet(mb) - EntrySet(ma))
    && multiset(x.removed) == multiset(EntrySet(ma) - EntrySet(mb))
  }

  lemma ExactNext(route: Route, ma: map<Key, Value>, mb: map<Key, Value>, d: nat, done: set<nat>, s: nat, x: Delta,
                  y: Delta)
    requires s !in done && Exact(x, Within(route, ma, d, done), Within(route, mb, d, done))
    requires Exact(y, Bucket(route, ma, d, s), Bucket(route, mb, d, s))
    ensures Exact(Plus(x, y), Within(route, ma, d, done + {s}), Within(route, mb, d, done + {s}))
  {
    var wa, wb := Within(route, ma, d, done), Within(route, mb, d, done);
    var ba, bb := Bucket(route, ma, d, s), Bucket(route, mb, d, s);
    WithinAdd(route, ma, d, done, s);
    WithinAdd(route, mb, d, done, s);
    assert EntrySet(wa) !! EntrySet(bb) && EntrySet(wb) !! EntrySet(ba);
    Parts(EntrySet(wa), EntrySet(wb), EntrySet(ba), EntrySet(bb));
    Parts(EntrySet(wb), EntrySet(wa), EntrySet(bb), EntrySet(ba));
  }

  lemma Parts<T>(wa: set<T>, wb: set<T>, ba: set<T>, bb: set<T>)
    requires wa !! ba && wb !! bb && wa !! bb && wb !! ba
    ensures multiset((wb + bb) - (wa + ba)) == multiset(wb - wa) + multiset(bb - ba)
  {
    assert (wb + bb) - (wa + ba) == (wb - wa) + (bb - ba);
    UnionCount(wb - wa, bb - ba);
  }

  /** Moves the entries other than e to the result, and says whether e was among them. */
  method Sift(entries: seq<Entry>, e: Entry, ghost items: set<Entry>) returns (others: seq<Entry>, kept: bool)
    requires multiset(entries) == multiset(items)
    ensures multiset(others) == multiset(items - {e})
    ensures kept <==> e in items
  {
    others, kept := [], false;
    for i := 0 to |entries|
      invariant kept <==> e in entries[..i]
      invariant multiset(others) == multiset(entries[..i])[e := 0]
    {
      assert entries[..i + 1] == entries[..i] + [entries[i]];
      if entries[i] == e {
        kept := true;
      } else {
        others := others + [entries[i]];
      }
    }
    assert entries[..|entries|] == entries;
    assert e in entries <==> e in multiset(entries);
  }

  /** A leaf on one side and a subtree on the other: matching entries cancel. */
  method DiffLeafSubtree(route: Route, resolve: Resolver, e: Entry, ref: NodeRef, d: nat, leafIsA: bool,
                         ghost m: map<Key, Value>)
    returns (r: Result<Delta>)
    requires Sound(resolve) && LoadsTo(route, resolve, ref, m, d)
    ensures r.Done? ==> Exact(r.value, if leafIsA then map[e.0 := e.1] else m, if leafIsA then m else map[e.0 := e.1])
    ensures !r.Done? ==> r.Unresolved? && resolve(r.hash).None?
    ensures r.Done? <==> RefLoadable(resolve, ref)
  {
    var child := Load(resolve, ref);
    if child.None? {
      return Unresolved(RefHash(ref));
    }
    var walked := WalkSubtree(route, resolve, child.value, d, m);
    if !walked.Done? {
      return Unresolved(walked.hash);
    }
    var others, kept := Sift(walked.value, e, EntrySet(m));
    SingleItem(e);
    assert multiset({e} - EntrySet(m)) == if kept then multiset{} else multiset{e};
    var own := if kept then [] else [e];
    r := Done(if leafIsA then Delta(others, own) else Delta(own, others));
  }

  lemma LeafDelta(x: Slot, y: Slot, ma: map<Key, Value>, mb: map<Key, Value>)
    requires x.Leaf? || x.Vacant?
    requires y.Leaf? || y.Vacant?
    requires ma == (if x.Leaf? then map[x.entry.0 := x.entry.1] else map[])
    requires mb == (if y.Leaf? then map[y.entry.0 := y.entry.1] else map[])
    ensures Exact(if x == y then Delta([], []) else Delta(LeafPart(y), LeafPart(x)), ma, mb)
  {
    if x.Leaf? { SingleItem(x.entry); } else { assert EntrySet(ma) == {}; }
    if y.Leaf? { SingleItem(y.entry); } else { assert EntrySet(mb) == {}; }
    var a, b := EntrySet(ma), EntrySet(mb);
    assert x != y ==> a !! b;
    assert a !! b ==> a - b == a && b - a == b;
    assert x == y ==> a - b == {} && b - a == {};
  }

  lemma OneSided(x: seq<Entry>, m: map<Key, Value>)
    requires multiset(x) == multiset(EntrySet(m))
    ensures Exact(Delta(x, []), map[], m) && Exact(Delta([], x), m, map[])
  {
    assert EntrySet(map[]) == {};
    assert EntrySet(m) - {} == EntrySet(m) && {} - EntrySet(m) == {};
  }

  /** A child on one side of an otherwise vacant slot: the whole subtree belongs to the delta. */
  method DiffOnlyChild(route: Route, resolve: Resolver, ref: NodeRef, d: nat, inA: bool, ghost m: map<Key, Value>)
    returns (r: Result<Delta>)
    requires Sound(resolve) && LoadsTo(route, resolve, ref, m, d)
    ensures r.Done? ==> Exact(r.value, if inA then m else map[], if inA then map[] else m)
    ensures !r.Done? ==> r.Unresolved? && resolve(r.hash).None?
    ensures r.Done? <==> RefLoadable(resolve, ref)
  {
    var child := Load(resolve, ref);
    if child.None? {
      return Unresolved(RefHash(ref));
    }
    var walked := WalkSubtree(route, resolve, child.value, d, m);
    if !walked.Done? {
      return Unresolved(walked.hash);
    }
    OneSided(walked.value, m);
    r := Done(if inA then Delta([], walked.value) else Delta(walked.value, []));
  }

  // ---- when the comparison succeeds ----

  /** All that differs between the two tries can be loaded; what has equal hashes need not be. */
  ghost predicate Comparable(resolve: Resolver, a: Node, b: Node)
    requires Sound(resolve)
    decreases HashOf(a), 1
  {
    HashOf(a) == HashOf(b) || forall s: nat :: s < BRANCH_FACTOR ==> SlotComparable(resolve, a, b, s)
  }

  ghost predicate SlotComparable(resolve: Resolver, a: Node, b: Node, s: nat)
    requires Sound(resolve)
    decreases HashOf(a), 0
  {
    Ready(a, s) && Ready(b, s) ==>
      var u, w := SlotAt(a, s), SlotAt(b, s);
      if u.Child? && w.Child? then
        assert HashOf(a).childHashes[MapIndex(a.nodemap, s)] == RefHash(u.ref);
        RefsComparable(resolve, u.ref, w.ref)
      else if u.Child? then RefLoadable(resolve, u.ref)
      else w.Child? ==> RefLoadable(resolve, w.ref)
  }

  ghost predicate RefsComparable(resolve: Resolver, x: NodeRef, y: NodeRef)
    requires Sound(resolve)
    decreases RefHash(x), 2
  {
    || RefHash(x) == RefHash(y)
    || (&& Load(resolve, x).Some? && Load(resolve, y).Some?
        && Comparable(resolve, Load(resolve, x).value, Load(resolve, y).value))
  }

  ghost predicate SlotsComparable(resolve: Resolver, u: Slot, w: Slot)
    requires Sound(resolve)
  {
    if u.Child? && w.Child? then RefsComparable(resolve, u.ref, w.ref)
    else if u.Child? then RefLoadable(resolve, u.ref)
    else w.Child? ==> RefLoadable(resolve, w.ref)
  }

  /** Two tries that can be loaded throughout can be compared. */
  lemma {:induction false} LoadableComparable(resolve: Resolver, a: Node, b: Node)
    requires Sound(resolve) && Loadable(resolve, a) && Loadable(resolve, b)
    ensures Comparable(resolve, a, b)
    decreases HashOf(a)
  {
    forall s: nat | s < BRANCH_FACTOR ensures SlotComparable(resolve, a, b, s) {
      if Ready(a, s) && Ready(b, s) && SlotAt(b, s).Child? {
        assert RefLoadable(resolve, b.children[MapIndex(b.nodemap, s)]);
      }
      if Ready(a, s) && Ready(b, s) && SlotAt(a, s).Child? {
        var i := MapIndex(a.nodemap, s);
        assert RefLoadable(resolve, a.children[i]);
        if SlotAt(b, s).Child? {
          assert HashOf(a).childHashes[i] == RefHash(a.children[i]);
          LoadableComparable(resolve, Load(resolve, SlotAt(a, s).ref).value, Load(resolve, SlotAt(b, s).ref).value);
        }
      }
    }
  }

  // ---- one slot ----

  /** The child in a slot, once loaded, represents the slot's entries. */
  ghost predicate LoadsTo(route: Route, resolve: Resolver, ref: NodeRef, m: map<Key, Value>, d: nat) {
    Load(resolve, ref).Some? ==> Represents(route, Load(resolve, ref).value, m, d)
  }

  lemma FitsLoads(route: Route, resolve: Resolver, ref: NodeRef, m: map<Key, Value>, d: nat)
    requires Sound(resolve) && Fits(route, Child(ref), m, d) && Separable(route, m, d + 1)
    ensures LoadsTo(route, resolve, ref, m, d + 1)
  {
  }

  /** One slot of the lockstep walk, by what the two nodes hold there. */
  method DiffSlot(route: Route, resolve: Resolver, u: Slot, w: Slot, d: nat,
                  ghost ma: map<Key, Value>, ghost mb: map<Key, Value>)
    returns (r: Result<Delta>)
    requires Fits(route, u, ma, d) && Fits(route, w, mb, d) && Sound(resolve)
    requires Separable(route, ma, d + 1) && Separable(route, mb, d + 1) && d < MAX_DEPTH
    ensures r.Done? ==> Exact(r.value, ma, mb)
    ensures !r.Done? ==> r.Unresolved? && resolve(r.hash).None?
    ensures r.Done? <==> SlotsComparable(resolve, u, w)
    decreases MAX_DEPTH - d, 0
  {
    if u.Child? && w.Child? {
      r := DiffChildren(route, resolve, u.ref, w.ref, d + 1, ma, mb);
    } else {
      r := DiffUneven(route, resolve, u, w, d, ma, mb);
    }
  }

  /** At most one side has a subtree. */
  method DiffUneven(route: Route, resolve: Resolver, u: Slot, w: Slot, d: nat,
                    ghost ma: map<Key, Value>, ghost mb: map<Key, Value>)
    returns (r: Result<Delta>)
    requires Fits(route, u, ma, d) && Fits(route, w, mb, d) && Sound(resolve) && !(u.Child? && w.Child?)
    requires Separable(route, ma, d + 1) && Separable(route, mb, d + 1)
    ensures r.Done? ==> Exact(r.value, ma, mb)
    ensures !r.Done? ==> r.Unresolved? && resolve(r.hash).None?
    ensures r.Done? <==> (if u.Child? then RefLoadable(resolve, u.ref) else w.Child? ==> RefLoadable(resolve, w.ref))
  {
    if u.Child? {
      FitsLoads(route, resolve, u.ref, ma, d);
      r := DiffOneSubtree(route, resolve, w, u.ref, d + 1, true, ma, mb);
    } else if w.Child? {
      FitsLoads(route, resolve, w.ref, mb, d);
      r := DiffOneSubtree(route, resolve, u, w.ref, d + 1, false, mb, ma);
    } else {
      LeafDelta(u, w, ma, mb);
      r := Done(if u == w then Delta([], []) else Delta(LeafPart(w), LeafPart(u)));
    }
  }

  /** A subtree on one side, a leaf or nothing on the other. */
  method DiffOneSubtree(route: Route, resolve: Resolver, x: Slot, ref: NodeRef, d: nat, inA: bool,
                        ghost m: map<Key, Value>, ghost other: map<Key, Value>)
    returns (r: Result<Delta>)
    requires Sound(resolve) && LoadsTo(route, resolve, ref, m, d) && !x.Child?
    requires other == if x.Leaf? then map[x.entry.0 := x.entry.1] else map[]
    ensures r.Done? ==> Exact(r.value, if inA then m else other, if inA then other else m)
    ensures !r.Done? ==> r.Unresolved? && resolve(r.hash).None?
    ensures r.Done? <==> RefLoadable(resolve, ref)
  {
    if x.Leaf? {
      r := DiffLeafSubtree(route, resolve, x.entry, ref, d, !inA, m);
    } else {
      r := DiffOnlyChild(route, resolve, ref, d, inA, m);
    }
  }

  /** Children on both sides: skipped when their hashes agree. */
  method DiffChildren(route: Route, resolve: Resolver, x: NodeRef, y: NodeRef, d: nat,
                      ghost ma: map<Key, Value>, ghost mb: map<Key, Value>)
    returns (r: Result<Delta>)
    requires d < MAX_DEPTH && Separable(route, ma, d) && Separable(route, mb, d) && Sound(resolve)
    requires RefHash(x) == HashOf(Build(route, ma, d)) && RefHash(y) == HashOf(Build(route, mb, d))
    ensures r.Done? ==> Exact(r.value, ma, mb)
    ensures !r.Done? ==> r.Unresolved? && resolve(r.hash).None?
    ensures r.Done? <==> RefsComparable(resolve, x, y)
    decreases MAX_DEPTH - d, 5
  {
    if RefHash(x) == RefHash(y) {
      HashDeterminesMap(route, ma, mb, d);
      return Done(Delta([], []));
    }
    var left, right := Load(resolve, x), Load(resolve, y);
    if left.None? {
      return Unresolved(RefHash(x));
    }
    if right.None? {
      return Unresolved(RefHash(y));
    }
    r := DiffNodes(route, resolve, left.value, right.value, d, ma, mb);
  }

  method DiffSlotAt(route: Route, resolve: Resolver, a: Node, b: Node, d: nat, s: nat,
                    ghost ma: map<Key, Value>, ghost mb: map<Key, Value>)
    returns (r: Result<Delta>)
    requires Represents(route, a, ma, d) && Represents(route, b, mb, d) && Sound(resolve) && s < BRANCH_FACTOR
    ensures r.Done? ==> Exact(r.value, Bucket(route, ma, d, s), Bucket(route, mb, d, s))
    ensures !r.Done? ==> r.Unresolved? && resolve(r.hash).None?
    ensures r.Done? <==> SlotComparable(resolve, a, b, s)
    decreases MAX_DEPTH - d, 1
  {
    SlotMeaning(route, a, ma, d, s);
    SlotMeaning(route, b, mb, d, s);
    r := DiffSlot(route, resolve, SlotAt(a, s), SlotAt(b, s), d, Bucket(route, ma, d, s), Bucket(route, mb, d, s));
  }

  // ---- the four passes over the slots ----

  /** Which pass handles slot s: leaves, children, a leaf facing a subtree, a subtree facing a leaf. */
  function PassOf(a: Node, b: Node, s: nat): nat
    requires s < |a.datamap| && s < |a.nodemap| && s < |b.datamap| && s < |b.nodemap|
  {
    if a.datamap[s] && b.nodemap[s] then 3
    else if a.nodemap[s] && b.datamap[s] then 4
    else if a.datamap[s] || b.datamap[s] then 1
    else if a.nodemap[s] || b.nodemap[s] then 2
    else 0
  }

  ghost predicate Paired(a: Node, b: Node) {
    |a.datamap| == |a.nodemap| == |b.datamap| == |b.nodemap| == BRANCH_FACTOR
  }

  /** The slots handled when pass p has reached slot i. */
  ghost function Handled(a: Node, b: Node, p: nat, i: nat): set<nat>
    requires Paired(a, b)
  {
    set s: nat | s < BRANCH_FACTOR && 0 < PassOf(a, b, s) && (PassOf(a, b, s) < p || (PassOf(a, b, s) == p && s < i))
  }

  /** The delta is exact on the slots handled so far. */
  ghost predicate SoFar(route: Route, a: Node, b: Node, d: nat, p: nat, i: nat,
                        ma: map<Key, Value>, mb: map<Key, Value>, x: Delta)
    requires Paired(a, b)
  {
    Exact(x, Within(route, ma, d, Handled(a, b, p, i)), Within(route, mb, d, Handled(a, b, p, i)))
  }

  lemma SlotHandled(route: Route, a: Node, b: Node, d: nat, p: nat, s: nat, ma: map<Key, Value>, mb: map<Key, Value>,
                    x: Delta, y: Delta)
    requires Paired(a, b) && s < BRANCH_FACTOR && p > 0 && SoFar(route, a, b, d, p, s, ma, mb, x)
    requires PassOf(a, b, s) == p && Exact(y, Bucket(route, ma, d, s), Bucket(route, mb, d, s))
    ensures SoFar(route, a, b, d, p, s + 1, ma, mb, Plus(x, y))
  {
    HandledNext(a, b, p, s);
    ExactNext(route, ma, mb, d, Handled(a, b, p, s), s, x, y);
  }

  lemma HandledNext(a: Node, b: Node, p: nat, s: nat)
    requires Paired(a, b) && s < BRANCH_FACTOR && p > 0 && PassOf(a, b, s) == p
    ensures s !in Handled(a, b, p, s) && Handled(a, b, p, s + 1) == Handled(a, b, p, s) + {s}
  {
  }

  lemma SlotPassed(route: Route, a: Node, b: Node, d: nat, p: nat, s: nat, ma: map<Key, Value>, mb: map<Key, Value>,
                   x: Delta)
    requires Paired(a, b) && s < BRANCH_FACTOR && PassOf(a, b, s) != p && SoFar(route, a, b, d, p, s, ma, mb, x)
    ensures SoFar(route, a, b, d, p, s + 1, ma, mb, x)
  {
    assert Handled(a, b, p, s + 1) == Handled(a, b, p, s);
  }

  lemma PassDone(route: Route, a: Node, b: Node, d: nat, p: nat, ma: map<Key, Value>, mb: map<Key, Value>, x: Delta)
    requires Paired(a, b) && SoFar(route, a, b, d, p, BRANCH_FACTOR, ma, mb, x)
    ensures SoFar(route, a, b, d, p + 1, 0, ma, mb, x)
  {
    assert Handled(a, b, p, BRANCH_FACTOR) == Handled(a, b, p + 1, 0);
  }

  /** The first n slots of pass p can be compared. */
  ghost predicate PassComparable(resolve: Resolver, a: Node, b: Node, p: nat, n: nat)
    requires Paired(a, b) && Sound(resolve) && n <= BRANCH_FACTOR
  {
    forall s: nat :: s < n && PassOf(a, b, s) == p ==> SlotComparable(resolve, a, b, s)
  }

  lemma PassComparableNext(resolve: Resolver, a: Node, b: Node, p: nat, s: nat)
    requires Paired(a, b) && Sound(resolve) && s < BRANCH_FACTOR
    ensures var now := PassOf(a, b, s) == p ==> SlotComparable(resolve, a, b, s);
      && (PassComparable(resolve, a, b, p, s) && now ==> PassComparable(resolve, a, b, p, s + 1))
      && (PassComparable(resolve, a, b, p, BRANCH_FACTOR) ==> now)
  {
  }

  lemma PassesCompare(resolve: Resolver, a: Node, b: Node)
    requires Paired(a, b) && Sound(resolve) && HashOf(a) != HashOf(b)
    ensures Comparable(resolve, a, b) <==>
            forall p: nat :: 1 <= p < 5 ==> PassComparable(resolve, a, b, p, BRANCH_FACTOR)
  {
    if forall p: nat :: 1 <= p < 5 ==> PassComparable(resolve, a, b, p, BRANCH_FACTOR) {
      forall s: nat | s < BRANCH_FACTOR ensures SlotComparable(resolve, a, b, s) {
        if PassOf(a, b, s) > 0 { assert PassComparable(resolve, a, b, PassOf(a, b, s), BRANCH_FACTOR); }
      }
    }
  }

  /** One slot in one pass. */
  method DiffPassSlot(route: Route, resolve: Resolver, a: Node, b: Node, d: nat, p: nat, s: nat, x: Delta,
                      ghost ma: map<Key, Value>, ghost mb: map<Key, Value>)
    returns (r: Result<Delta>)
    requires Represents(route, a, ma, d) && Represents(route, b, mb, d) && Sound(resolve) && Paired(a, b)
    requires p > 0 && s < BRANCH_FACTOR && SoFar(route, a, b, d, p, s, ma, mb, x)
    ensures r.Done? ==> SoFar(route, a, b, d, p, s + 1, ma, mb, r.value)
    ensures !r.Done? ==> r.Unresolved? && resolve(r.hash).None?
    ensures r.Done? <==> (PassOf(a, b, s) == p ==> SlotComparable(resolve, a, b, s))
    decreases MAX_DEPTH - d, 2
  {
    if PassOf(a, b, s) != p {
      SlotPassed(route, a, b, d, p, s, ma, mb, x);
      return Done(x);
    }
    r := DiffSlotAt(route, resolve, a, b, d, s, ma, mb);
    if r.Done? {
      SlotHandled(route, a, b, d, p, s, ma, mb, x, r.value);
      r := Done(Plus(x, r.value));
    }
  }

  /** One pass over the slots, in order, handling those that belong to it. */
  method DiffPass(route: Route, resolve: Resolver, a: Node, b: Node, d: nat, p: nat, x: Delta,
                  ghost ma: map<Key, Value>, ghost mb: map<Key, Value>)
    returns (r: Result<Delta>)
    requires Represents(route, a, ma, d) && Represents(route, b, mb, d) && Sound(resolve) && Paired(a, b) && p > 0
    requires SoFar(route, a, b, d, p, 0, ma, mb, x)
    ensures r.Done? ==> SoFar(route, a, b, d, p + 1, 0, ma, mb, r.value)
    ensures !r.Done? ==> r.Unresolved? && resolve(r.hash).None?
    ensures r.Done? <==> PassComparable(resolve, a, b, p, BRANCH_FACTOR)
    decreases MAX_DEPTH - d, 3
  {
    r := Done(x);
    for s := 0 to BRANCH_FACTOR
      invariant r.Done? && SoFar(route, a, b, d, p, s, ma, mb, r.value)
      invariant PassComparable(resolve, a, b, p, s)
    {
      r := DiffPassSlot(route, resolve, a, b, d, p, s, r.value, ma, mb);
      PassComparableNext(resolve, a, b, p, s);
      if !r.Done? {
        return;
      }
    }
    PassDone(route, a, b, d, p, ma, mb, r.value);
  }

  /** Appends to added what only b has and to removed what only a has; a changed value is in both.  It
      succeeds exactly when everything in which the two tries differ can be loaded. */
  method DiffNodes(route: Route, resolve: Resolver, a: Node, b: Node, d: nat,
                   ghost ma: map<Key, Value>, ghost mb: map<Key, Value>)
    returns (r: Result<Delta>)
    requires Represents(route, a, ma, d) && Represents(route, b, mb, d) && Sound(resolve)
    ensures r.Done? ==> Exact(r.value, ma, mb)
    ensures !r.Done? ==> r.Unresolved? && resolve(r.hash).None?
    ensures r.Done? <==> Comparable(resolve, a, b)
    decreases MAX_DEPTH - d, 4
  {
    if HashOf(a) == HashOf(b) {
      SameHashSameMap(route, a, ma, b, mb, d);
      return Done(Delta([], []));
    }
    NodesPaired(route, a, b, d, ma, mb);
    PassesCompare(resolve, a, b);
    r := Done(Delta([], []));
    for p := 1 to 5
      invariant r.Done? && SoFar(route, a, b, d, p, 0, ma, mb, r.value)
      invariant forall q: nat :: 1 <= q < p ==> PassComparable(resolve, a, b, q, BRANCH_FACTOR)
    {
      r := DiffPass(route, resolve, a, b, d, p, r.value, ma, mb);
      if !r.Done? {
        return;
      }
    }
    AllHandled(route, a, b, a, ma, d);
    AllHandled(route, a, b, b, mb, d);
  }

  lemma NodesPaired(route: Route, a: Node, b: Node, d: nat, ma: map<Key, Value>, mb: map<Key, Value>)
    requires Represents(route, a, ma, d) && Represents(route, b, mb, d)
    ensures Paired(a, b) && SoFar(route, a, b, d, 1, 0, ma, mb, Delta([], []))
  {
    HashOfParts(a);
    HashOfParts(b);
    HashOfParts(Build(route, ma, d));
    HashOfParts(Build(route, mb, d));
    assert Handled(a, b, 1, 0) == {};
  }

  /** Slots no pass visits are vacant in both. */
  lemma AllHandled(route: Route, a: Node, b: Node, n: Node, m: map<Key, Value>, d: nat)
    requires Paired(a, b) && (n == a || n == b) && Represents(route, n, m, d)
    ensures Within(route, m, d, Handled(a, b, 5, 0)) == m
  {
    forall k | k in m ensures Digit(route, k, d) in Handled(a, b, 5, 0) {
      var s := Digit(route, k, d);
      SlotMeaning(route, n, m, d, s);
      assert k in Bucket(route, m, d, s);
    }
  }

  /** Taking out what was removed and putting in what was added turns one map into the other. */
  lemma DeltaPatches(x: Delta, ma: map<Key, Value>, mb: map<Key, Value>)
    requires Exact(x, ma, mb)
    ensures EntrySet(mb) == (EntrySet(ma) - (set e | e in x.removed)) + (set e | e in x.added)
  {
    forall e: Entry
      ensures e in x.added <==> e in EntrySet(mb) - EntrySet(ma)
      ensures e in x.removed <==> e in EntrySet(ma) - EntrySet(mb)
    {
      assert e in x.added <==> e in multiset(x.added);
      assert e in x.removed <==> e in multiset(x.removed);
    }
  }
}
