/** The canonical trie of a map, and building it from entries (build_node of
    src/hamt/mod.rs).

    A key's route, the five-bit digits of its path hash, is a free function;
    digits past the last one do not exist, so two keys that agree on all of
    them collide. */
module HamtCanonical {
  import opened HamtNodes
  import opened MapHistory

  const MAX_DEPTH: nat := 52

  type Route = (Key, nat) -> nat

  function Digit(route: Route, k: Key, d: nat): (s: nat)
    ensures s < BRANCH_FACTOR
  {
    route(k, d) % BRANCH_FACTOR
  }

  // ---- the reference: one recursion over the map ----

  ghost function Bucket(route: Route, m: map<Key, Value>, d: nat, s: nat): map<Key, Value> {
    map k | k in m && Digit(route, k, d) == s :: m[k]
  }

  ghost function SlotFor(route: Route, m: map<Key, Value>, d: nat, s: nat): Slot
    requires d < MAX_DEPTH
    decreases MAX_DEPTH - d, 1
  {
    SlotOf(route, Bucket(route, m, d, s), d)
  }

  /** The slot at depth d that holds the entries of b. */
  ghost function SlotOf(route: Route, b: map<Key, Value>, d: nat): Slot
    requires d < MAX_DEPTH
    decreases MAX_DEPTH - d, 0
  {
    if |b| == 0 then Vacant
    else if |b| == 1 then
      var k :| k in b;
      Leaf((k, b[k]))
    else if d + 1 < MAX_DEPTH then Child(Resolved(Build(route, b, d + 1)))
    else Vacant
  }

  /** The kind of a slot tells the size of its bucket, and both ways. */
  lemma SlotOfMeaning(route: Route, b: map<Key, Value>, d: nat)
    requires d < MAX_DEPTH && (|b| >= 2 ==> d + 1 < MAX_DEPTH)
    ensures match SlotOf(route, b, d)
      case Vacant => b == map[]
      case Leaf(e) => b == map[e.0 := e.1]
      case Child(r) => |b| >= 2 && d + 1 < MAX_DEPTH && r == Resolved(Build(route, b, d + 1))
  {
    if |b| == 1 {
      var k :| k in b;
      assert b.Keys == {k} by { assert |b.Keys - {k}| == 0; }
    }
  }

  ghost function SlotsFor(route: Route, m: map<Key, Value>, d: nat): (r: seq<Slot>)
    requires d < MAX_DEPTH
    ensures |r| == BRANCH_FACTOR
    decreases MAX_DEPTH - d, 2
  {
    seq(BRANCH_FACTOR, s requires 0 <= s < BRANCH_FACTOR => SlotFor(route, m, d, s))
  }

  /** The trie of m below depth d: a slot with one entry is a leaf, with more a child. */
  ghost function Build(route: Route, m: map<Key, Value>, d: nat): Node
    requires d < MAX_DEPTH
    decreases MAX_DEPTH - d, 3
  {
    Pack(SlotsFor(route, m, d))
  }

  ghost predicate Diverge(route: Route, j: Key, k: Key, d: nat) {
    exists e: nat :: d <= e < MAX_DEPTH && Digit(route, j, e) != Digit(route, k, e)
  }

  /** No two keys agree on all digits from d on. */
  ghost predicate Separable(route: Route, m: map<Key, Value>, d: nat) {
    forall j, k :: j in m && k in m && j != k ==> Diverge(route, j, k, d)
  }

  lemma BucketSeparable(route: Route, m: map<Key, Value>, d: nat, s: nat)
    requires Separable(route, m, d)
    ensures Separable(route, Bucket(route, m, d, s), d + 1)
    ensures |Bucket(route, m, d, s)| >= 2 ==> d + 1 < MAX_DEPTH
  {
    var b := Bucket(route, m, d, s);
    forall j, k | j in b && k in b && j != k ensures Diverge(route, j, k, d + 1) {
      assert Diverge(route, j, k, d);
      var e: nat :| d <= e < MAX_DEPTH && Digit(route, j, e) != Digit(route, k, e);
      assert e != d;
    }
    if |b| >= 2 {
      var j, k := TwoKeys(b);
      assert Diverge(route, j, k, d + 1);
    }
  }

  lemma TwoKeys(m: map<Key, Value>) returns (j: Key, k: Key)
    requires |m| >= 2
    ensures j in m && k in m && j != k
  {
    assert |m.Keys| == |m|;
    j :| j in m.Keys;
    assert |m.Keys - {j}| >= 1;
    k :| k in m.Keys - {j};
  }

  lemma SeparableFromBuckets(route: Route, m: map<Key, Value>, d: nat)
    requires forall s: nat :: s < BRANCH_FACTOR ==> Separable(route, Bucket(route, m, d, s), d + 1)
    requires d < MAX_DEPTH
    ensures Separable(route, m, d)
  {
    forall j, k | j in m && k in m && j != k ensures Diverge(route, j, k, d) {
      var s := Digit(route, j, d);
      if Digit(route, k, d) == s {
        assert j in Bucket(route, m, d, s) && k in Bucket(route, m, d, s);
        assert Diverge(route, j, k, d + 1);
      }
    }
  }

  // ---- entries ----

  ghost predicate DistinctKeys(es: seq<Entry>) {
    forall i, j :: 0 <= i < j < |es| ==> es[i].0 != es[j].0
  }

  ghost function MapOf(es: seq<Entry>): map<Key, Value> {
    if es == [] then map[] else MapOf(es[..|es| - 1])[es[|es| - 1].0 := es[|es| - 1].1]
  }

  ghost predicate HasKey(es: seq<Entry>, k: Key) {
    exists i :: 0 <= i < |es| && es[i].0 == k
  }

  lemma {:induction false} MapOfKeys(es: seq<Entry>, k: Key)
    ensures k in MapOf(es) <==> HasKey(es, k)
  {
    if es != [] {
      var front := es[..|es| - 1];
      MapOfKeys(front, k);
      assert HasKey(es, k) <==> HasKey(front, k) || es[|es| - 1].0 == k by {
        if HasKey(front, k) { var i :| 0 <= i < |front| && front[i].0 == k; assert es[i].0 == k; }
        if HasKey(es, k) { var i :| 0 <= i < |es| && es[i].0 == k; assert i < |front| ==> front[i].0 == k; }
      }
    }
  }

  /** Of entries with one key the last counts. */
  lemma {:induction false} MapOfLeads(es: seq<Entry>)
    ensures Leads(map[], Puts(es), MapOf(es))
  {
    if es == [] {
      LeadsNowhere<Key, Value>(map[]);
      assert Puts(es) == [];
    } else {
      var front, last := es[..|es| - 1], es[|es| - 1];
      MapOfLeads(front);
      assert Puts(es) == Puts(front) + [Put(last.0, last.1)];
      LeadsNext(map[], Puts(front), MapOf(front), Put(last.0, last.1), MapOf(es));
    }
  }

  lemma {:induction false} MapOfSize(es: seq<Entry>)
    requires DistinctKeys(es)
    ensures |MapOf(es)| == |es|
  {
    if es != [] {
      var front, last := es[..|es| - 1], es[|es| - 1];
      MapOfSize(front);
      MapOfKeys(front, last.0);
      assert MapOf(es).Keys == MapOf(front).Keys + {last.0};
    }
  }

  /** The entries whose digit at depth d is s, in order. */
  function Select(route: Route, es: seq<Entry>, d: nat, s: nat): seq<Entry> {
    if es == [] then []
    else
      var front := Select(route, es[..|es| - 1], d, s);
      if Digit(route, es[|es| - 1].0, d) == s then front + [es[|es| - 1]] else front
  }

  lemma {:induction false} SelectMap(route: Route, es: seq<Entry>, d: nat, s: nat)
    ensures MapOf(Select(route, es, d, s)) == Bucket(route, MapOf(es), d, s)
  {
    if es != [] {
      var front, last := es[..|es| - 1], es[|es| - 1];
      SelectMap(route, front, d, s);
      if Digit(route, last.0, d) == s {
        var sel := Select(route, front, d, s);
        assert (sel + [last])[..|sel|] == sel;
      }
    }
  }

  lemma {:induction false} SelectKeys(route: Route, es: seq<Entry>, d: nat, s: nat)
    ensures forall x :: x in Select(route, es, d, s) <==> x in es && Digit(route, x.0, d) == s
    ensures DistinctKeys(es) ==> DistinctKeys(Select(route, es, d, s))
  {
    if es != [] {
      var front, last := es[..|es| - 1], es[|es| - 1];
      SelectKeys(route, front, d, s);
      assert es == front + [last];
      if DistinctKeys(es) {
        forall x | x in front ensures x.0 != last.0 { }
      }
    }
  }

  /** A repeated key is repeated inside its bucket. */
  lemma {:induction false} SelectDistinctBack(route: Route, es: seq<Entry>, d: nat)
    requires forall s: nat :: s < BRANCH_FACTOR ==> DistinctKeys(Select(route, es, d, s))
    ensures DistinctKeys(es)
  {
    if es != [] {
      var front, last := es[..|es| - 1], es[|es| - 1];
      forall s: nat | s < BRANCH_FACTOR ensures DistinctKeys(Select(route, front, d, s)) {
        var sel, whole := Select(route, front, d, s), Select(route, es, d, s);
        assert forall i :: 0 <= i < |sel| ==> whole[i] == sel[i];
      }
      SelectDistinctBack(route, front, d);
      var t := Digit(route, last.0, d);
      SelectKeys(route, front, d, t);
      var sel, whole := Select(route, front, d, t), Select(route, es, d, t);
      assert whole == sel + [last];
      forall x | x in sel ensures x.0 != last.0 {
        var p :| 0 <= p < |sel| && sel[p] == x;
        assert whole[p] == x && whole[|sel|] == last;
      }
      forall i | 0 <= i < |front| ensures front[i].0 != last.0 {
        assert front[i] in front;
      }
    }
  }

  // ---- build_node ----

  datatype Built<T> = Ok(value: T) | HashCollision(depth: nat, bucketSize: nat)

  /** The entries whose digits from depth d on are all those of key k. */
  ghost function Sharing(route: Route, es: seq<Entry>, d: nat, k: Key): seq<Entry>
    decreases MAX_DEPTH - d
  {
    if d >= MAX_DEPTH then es else Sharing(route, Select(route, es, d, Digit(route, k, d)), d + 1, k)
  }

  lemma {:induction false} SharingMeans(route: Route, es: seq<Entry>, d: nat, k: Key)
    ensures forall x :: x in Sharing(route, es, d, k) <==>
              x in es && forall e: nat :: d <= e < MAX_DEPTH ==> Digit(route, x.0, e) == Digit(route, k, e)
    decreases MAX_DEPTH - d
  {
    if d < MAX_DEPTH {
      var s := Digit(route, k, d);
      SelectKeys(route, es, d, s);
      SharingMeans(route, Select(route, es, d, s), d + 1, k);
    }
  }

  /** Following the entries' digits down to the last one ends with size of them, two or more. */
  ghost predicate Crowded(route: Route, es: seq<Entry>, d: nat, size: nat)
    decreases MAX_DEPTH - d
  {
    if d >= MAX_DEPTH then size == |es| >= 2
    else exists s: nat :: s < BRANCH_FACTOR && Crowded(route, Select(route, es, d, s), d + 1, size)
  }

  /** So size is that of a group of entries which no digit tells apart. */
  lemma {:induction false} CrowdedMeans(route: Route, es: seq<Entry>, d: nat, size: nat) returns (k: Key)
    requires Crowded(route, es, d, size)
    ensures size == |Sharing(route, es, d, k)| >= 2
    decreases MAX_DEPTH - d
  {
    if d >= MAX_DEPTH {
      k := es[0].0;
    } else {
      var s: nat :| s < BRANCH_FACTOR && Crowded(route, Select(route, es, d, s), d + 1, size);
      var bucket := Select(route, es, d, s);
      var j := CrowdedMeans(route, bucket, d + 1, size);
      var group := Sharing(route, bucket, d + 1, j);
      SharingMeans(route, bucket, d + 1, j);
      SelectKeys(route, es, d, s);
      assert group[0] in group;
      k := group[0].0;
      SharingSame(route, bucket, d + 1, j, k);
      assert Sharing(route, es, d, k) == group;
    }
  }

  lemma {:induction false} SharingSame(route: Route, es: seq<Entry>, d: nat, k: Key, j: Key)
    requires forall e: nat :: d <= e < MAX_DEPTH ==> Digit(route, j, e) == Digit(route, k, e)
    ensures Sharing(route, es, d, j) == Sharing(route, es, d, k)
    decreases MAX_DEPTH - d
  {
    if d < MAX_DEPTH { SharingSame(route, Select(route, es, d, Digit(route, k, d)), d + 1, k, j); }
  }

  /** The entries can be placed: no key twice, and no two keys with the same remaining digits. */
  ghost predicate Placeable(route: Route, es: seq<Entry>, d: nat) {
    DistinctKeys(es) && Separable(route, MapOf(es), d)
  }

  lemma PlaceableBucket(route: Route, es: seq<Entry>, d: nat, s: nat)
    requires Placeable(route, es, d)
    ensures Placeable(route, Select(route, es, d, s), d + 1)
    ensures |Select(route, es, d, s)| == |Bucket(route, MapOf(es), d, s)|
    ensures |Select(route, es, d, s)| >= 2 ==> d + 1 < MAX_DEPTH
  {
    SelectKeys(route, es, d, s);
    SelectMap(route, es, d, s);
    MapOfSize(Select(route, es, d, s));
    BucketSeparable(route, MapOf(es), d, s);
  }

  lemma UnplaceableBucket(route: Route, es: seq<Entry>, d: nat, s: nat)
    requires !Placeable(route, Select(route, es, d, s), d + 1)
    ensures !Placeable(route, es, d)
  {
    if Placeable(route, es, d) { PlaceableBucket(route, es, d, s); }
  }

  lemma PlaceableFromBuckets(route: Route, es: seq<Entry>, d: nat)
    requires d < MAX_DEPTH
    requires forall s: nat :: s < BRANCH_FACTOR ==> Placeable(route, Select(route, es, d, s), d + 1)
    ensures Placeable(route, es, d)
  {
    forall s: nat | s < BRANCH_FACTOR
      ensures DistinctKeys(Select(route, es, d, s))
      ensures Separable(route, Bucket(route, MapOf(es), d, s), d + 1)
    {
      assert Placeable(route, Select(route, es, d, s), d + 1);
      SelectMap(route, es, d, s);
    }
    SelectDistinctBack(route, es, d);
    SeparableFromBuckets(route, MapOf(es), d);
  }

  /** One entry is always placeable, none too. */
  lemma SmallPlaceable(route: Route, es: seq<Entry>, d: nat)
    requires |es| <= 1
    ensures Placeable(route, es, d)
  {
    if |es| == 1 { assert es[..0] == []; }
  }

  lemma SlotForSmall(route: Route, es: seq<Entry>, d: nat, s: nat)
    requires d < MAX_DEPTH && |Select(route, es, d, s)| <= 1
    ensures var b := Select(route, es, d, s);
      SlotFor(route, MapOf(es), d, s) == if b == [] then Vacant else Leaf(b[0])
  {
    var b := Select(route, es, d, s);
    SelectMap(route, es, d, s);
    if |b| == 1 {
      assert b[..0] == [];
      assert MapOf(b) == map[b[0].0 := b[0].1];
    }
  }

  lemma SlotForLarge(route: Route, es: seq<Entry>, d: nat, s: nat)
    requires d + 1 < MAX_DEPTH && |Select(route, es, d, s)| >= 2
    requires Placeable(route, Select(route, es, d, s), d + 1)
    ensures SlotFor(route, MapOf(es), d, s) == Child(Resolved(Build(route, MapOf(Select(route, es, d, s)), d + 1)))
  {
    SelectMap(route, es, d, s);
    MapOfSize(Select(route, es, d, s));
  }

  method Distribute(route: Route, es: seq<Entry>, d: nat) returns (buckets: seq<seq<Entry>>)
    ensures |buckets| == BRANCH_FACTOR && forall s: nat :: s < BRANCH_FACTOR ==> buckets[s] == Select(route, es, d, s)
  {
    buckets := seq(BRANCH_FACTOR, _ => []);
    for i := 0 to |es|
      invariant |buckets| == BRANCH_FACTOR
      invariant forall s: nat :: s < BRANCH_FACTOR ==> buckets[s] == Select(route, es[..i], d, s)
    {
      var slot := Digit(route, es[i].0, d);
      assert es[..i + 1][..i] == es[..i];
      buckets := buckets[slot := buckets[slot] + [es[i]]];
    }
    assert es[..|es|] == es;
  }

  /** Builds the node of the given entries; fails exactly when they cannot be placed. */
  method BuildNode(route: Route, es: seq<Entry>, d: nat) returns (r: Built<Node>)
    ensures r.Ok? <==> d < MAX_DEPTH && Placeable(route, es, d)
    ensures r.Ok? ==> r.value == Build(route, MapOf(es), d)
    ensures r.HashCollision? && d >= MAX_DEPTH ==> r == HashCollision(d, |es|)
    ensures r.HashCollision? && d < MAX_DEPTH ==> r.depth == MAX_DEPTH - 1 && Crowded(route, es, d, r.bucketSize)
    decreases MAX_DEPTH - d, 2
  {
    if d >= MAX_DEPTH {
      return HashCollision(d, |es|);
    }
    var buckets := Distribute(route, es, d);
    var node := Node([], [], [], []);
    ghost var done: seq<Slot> := [];
    for slot := 0 to BRANCH_FACTOR
      invariant |done| == slot && node == Pack(done)
      invariant BuiltUpTo(route, es, d, done)
    {
      var x := BuildSlot(route, es, buckets[slot], d, slot);
      if x.HashCollision? {
        UnplaceableBucket(route, es, d, slot);
        return HashCollision(x.depth, x.bucketSize);
      }
      PackAppend(done, x.value);
      BuiltMore(route, es, d, done, x.value);
      node := Node(node.datamap + [x.value.Leaf?], node.nodemap + [x.value.Child?],
                   node.leaves + LeafPart(x.value), node.children + ChildPart(x.value));
      done := done + [x.value];
    }
    AllSlotsBuilt(route, es, d, done);
    r := Ok(node);
  }

  ghost predicate BuiltUpTo(route: Route, es: seq<Entry>, d: nat, done: seq<Slot>)
    requires d < MAX_DEPTH
  {
    forall s: nat :: s < |done| ==>
      Placeable(route, Select(route, es, d, s), d + 1) && done[s] == SlotFor(route, MapOf(es), d, s)
  }

  lemma BuiltMore(route: Route, es: seq<Entry>, d: nat, done: seq<Slot>, x: Slot)
    requires d < MAX_DEPTH && BuiltUpTo(route, es, d, done)
    requires Placeable(route, Select(route, es, d, |done|), d + 1) && x == SlotFor(route, MapOf(es), d, |done|)
    ensures BuiltUpTo(route, es, d, done + [x])
  {
    var more := done + [x];
    forall s: nat | s < |more|
      ensures Placeable(route, Select(route, es, d, s), d + 1) && more[s] == SlotFor(route, MapOf(es), d, s)
    {
      if s < |done| { assert more[s] == done[s]; }
    }
  }

  lemma AllSlotsBuilt(route: Route, es: seq<Entry>, d: nat, done: seq<Slot>)
    requires d < MAX_DEPTH && |done| == BRANCH_FACTOR && BuiltUpTo(route, es, d, done)
    ensures Placeable(route, es, d) && Pack(done) == Build(route, MapOf(es), d)
  {
    PlaceableFromBuckets(route, es, d);
    assert done == SlotsFor(route, MapOf(es), d);
  }

  /** One slot: nothing, the single entry of its bucket, or a child built from the bucket. */
  method BuildSlot(route: Route, ghost es: seq<Entry>, bucket: seq<Entry>, d: nat, slot: nat) returns (r: Built<Slot>)
    requires d < MAX_DEPTH && bucket == Select(route, es, d, slot)
    ensures r.Ok? <==> Placeable(route, bucket, d + 1)
    ensures r.Ok? ==> r.value == SlotFor(route, MapOf(es), d, slot)
    ensures r.HashCollision? ==> r.depth == MAX_DEPTH - 1 && Crowded(route, bucket, d + 1, r.bucketSize)
    decreases MAX_DEPTH - d, 1
  {
    if |bucket| <= 1 {
      SmallPlaceable(route, bucket, d + 1);
      SlotForSmall(route, es, d, slot);
      return Ok(if bucket == [] then Vacant else Leaf(bucket[0]));
    }
    if d + 1 >= MAX_DEPTH {
      NoRoomLeft(route, bucket, d + 1);
      return HashCollision(d, |bucket|);
    }
    r := BuildBelow(route, es, bucket, d, slot);
  }

  /** The child of a slot with two entries or more. */
  method BuildBelow(route: Route, ghost es: seq<Entry>, bucket: seq<Entry>, d: nat, ghost slot: nat)
    returns (r: Built<Slot>)
    requires d + 1 < MAX_DEPTH && |bucket| >= 2 && bucket == Select(route, es, d, slot)
    ensures r.Ok? <==> Placeable(route, bucket, d + 1)
    ensures r.Ok? ==> r.value == SlotFor(route, MapOf(es), d, slot)
    ensures r.HashCollision? ==> r.depth == MAX_DEPTH - 1 && Crowded(route, bucket, d + 1, r.bucketSize)
    decreases MAX_DEPTH - d, 0
  {
    var child := BuildNode(route, bucket, d + 1);
    if child.HashCollision? {
      return HashCollision(child.depth, child.bucketSize);
    }
    SlotForLarge(route, es, d, slot);
    r := Ok(Child(Resolved(child.value)));
  }

  lemma NoRoomLeft(route: Route, es: seq<Entry>, d: nat)
    requires d >= MAX_DEPTH && |es| >= 2
    ensures !Placeable(route, es, d)
  {
    if DistinctKeys(es) {
      MapOfKeys(es, es[0].0);
      MapOfKeys(es, es[1].0);
      assert !Diverge(route, es[0].0, es[1].0, d);
    }
  }

  lemma PackAppend(slots: seq<Slot>, x: Slot)
    ensures Pack(slots + [x]) ==
            Node(DataMap(slots) + [x.Leaf?], NodeMap(slots) + [x.Child?],
                 Flatten(LeafParts(slots)) + LeafPart(x), Flatten(ChildParts(slots)) + ChildPart(x))
  {
    assert LeafParts(slots + [x])[..|slots|] == LeafParts(slots);
    assert ChildParts(slots + [x])[..|slots|] == ChildParts(slots);
  }
}
