/** Nodes of the 32-way compressed trie of src/hamt/mod.rs: two bitmaps and two
    dense arrays, indexed by counting bits, and what each local edit of the
    arrays does to the 32 slots they stand for.

    The structural hash is a free constructor over the node's encoded parts. */
module HamtNodes {
  import opened Sequences

  const BRANCH_FACTOR: nat := 32

  type Key = string
  type Value = string
  type Entry = (Key, Value)

  datatype Hash = Hash(datamap: seq<bool>, nodemap: seq<bool>, leaves: seq<Entry>, childHashes: seq<Hash>)

  datatype NodeRef = Resolved(node: Node) | Lazy(hash: Hash)

  datatype Node = Node(datamap: seq<bool>, nodemap: seq<bool>, leaves: seq<Entry>, children: seq<NodeRef>)

  /** What one slot of a node holds. */
  datatype Slot = Vacant | Leaf(entry: Entry) | Child(ref: NodeRef)

  // ---- slots and dense arrays ----

  function LeafPart(x: Slot): seq<Entry> {
    if x.Leaf? then [x.entry] else []
  }

  function ChildPart(x: Slot): seq<NodeRef> {
    if x.Child? then [x.ref] else []
  }

  function Flatten<T>(parts: seq<seq<T>>): seq<T> {
    if parts == [] then [] else Flatten(parts[..|parts| - 1]) + parts[|parts| - 1]
  }

  function LeafParts(slots: seq<Slot>): (r: seq<seq<Entry>>)
    ensures |r| == |slots|
  {
    seq(|slots|, i requires 0 <= i < |slots| => LeafPart(slots[i]))
  }

  function ChildParts(slots: seq<Slot>): (r: seq<seq<NodeRef>>)
    ensures |r| == |slots|
  {
    seq(|slots|, i requires 0 <= i < |slots| => ChildPart(slots[i]))
  }

  function DataMap(slots: seq<Slot>): (r: seq<bool>)
    ensures |r| == |slots|
  {
    seq(|slots|, i requires 0 <= i < |slots| => slots[i].Leaf?)
  }

  function NodeMap(slots: seq<Slot>): (r: seq<bool>)
    ensures |r| == |slots|
  {
    seq(|slots|, i requires 0 <= i < |slots| => slots[i].Child?)
  }

  /** The node that stores the given slots. */
  function Pack(slots: seq<Slot>): Node {
    Node(DataMap(slots), NodeMap(slots), Flatten(LeafParts(slots)), Flatten(ChildParts(slots)))
  }

  /** The number of set bits below slot s. */
  function MapIndex(bitmap: seq<bool>, s: nat): (r: nat)
    requires s <= |bitmap|
  {
    if s == 0 then 0 else MapIndex(bitmap, s - 1) + if bitmap[s - 1] then 1 else 0
  }

  /** Counting bits gives the position in the dense array. */
  lemma {:induction false} LeafIndex(slots: seq<Slot>, s: nat)
    requires s <= |slots|
    ensures MapIndex(DataMap(slots), s) == |Flatten(LeafParts(slots)[..s])|
  {
    if s > 0 {
      LeafIndex(slots, s - 1);
      assert LeafParts(slots)[..s][..s - 1] == LeafParts(slots)[..s - 1];
    }
  }

  lemma {:induction false} ChildIndex(slots: seq<Slot>, s: nat)
    requires s <= |slots|
    ensures MapIndex(NodeMap(slots), s) == |Flatten(ChildParts(slots)[..s])|
  {
    if s > 0 {
      ChildIndex(slots, s - 1);
      assert ChildParts(slots)[..s][..s - 1] == ChildParts(slots)[..s - 1];
    }
  }

  // ---- dense-array edits ----

  /** a with drop elements at i replaced by put. */
  function Spliced<T>(a: seq<T>, i: nat, drop: nat, put: seq<T>): seq<T>
    requires i + drop <= |a|
  {
    a[..i] + put + a[i + drop..]
  }

  lemma SpliceMiddle<T>(a: seq<T>, b: seq<T>, c: seq<T>, put: seq<T>)
    ensures Spliced(a + b + c, |a|, |b|, put) == a + put + c
  {
  }

  /** The elements before, in and after one part. */
  lemma {:induction false} FlattenAround<T>(parts: seq<seq<T>>, s: nat)
    requires s < |parts|
    ensures Flatten(parts) == Flatten(parts[..s]) + parts[s] + Flatten(parts[s + 1..])
  {
    var last := |parts| - 1;
    if s == last {
      assert parts[..s] == parts[..last] && parts[s + 1..] == [];
    } else {
      var front, after := parts[..last], parts[s + 1..];
      FlattenAround(front, s);
      assert front[..s] == parts[..s] && front[s + 1..] == after[..|after| - 1];
      assert after[|after| - 1] == parts[last];
      Reassociate(Flatten(parts[..s]) + parts[s], Flatten(after[..|after| - 1]), parts[last]);
    }
  }

  /** Changing one part splices the flattened sequence. */
  lemma FlattenUpdate<T>(parts: seq<seq<T>>, s: nat, put: seq<T>)
    requires s < |parts|
    ensures var i := |Flatten(parts[..s])|;
      && i + |parts[s]| <= |Flatten(parts)|
      && Flatten(parts[s := put]) == Spliced(Flatten(parts), i, |parts[s]|, put)
      && (|parts[s]| == 1 ==> Flatten(parts)[i] == parts[s][0])
  {
    var a, c := Flatten(parts[..s]), Flatten(parts[s + 1..]);
    FlattenAround(parts, s);
    FlattenAround(parts[s := put], s);
    assert parts[s := put][..s] == parts[..s] && parts[s := put][s + 1..] == parts[s + 1..];
    SpliceMiddle(a, parts[s], c, put);
  }

  lemma MapsUpdate(slots: seq<Slot>, s: nat, x: Slot)
    requires s < |slots|
    ensures DataMap(slots[s := x]) == DataMap(slots)[s := x.Leaf?]
    ensures NodeMap(slots[s := x]) == NodeMap(slots)[s := x.Child?]
    ensures LeafParts(slots[s := x]) == LeafParts(slots)[s := LeafPart(x)]
    ensures ChildParts(slots[s := x]) == ChildParts(slots)[s := ChildPart(x)]
  {
  }

  /** The node after one slot changed, as edits of the four parts. */
  lemma PackUpdate(slots: seq<Slot>, s: nat, x: Slot)
    requires s < |slots|
    ensures var n, i, j := Pack(slots), MapIndex(DataMap(slots), s), MapIndex(NodeMap(slots), s);
      && i + |LeafPart(slots[s])| <= |n.leaves| && j + |ChildPart(slots[s])| <= |n.children|
      && (slots[s].Leaf? ==> n.leaves[i] == slots[s].entry)
      && (slots[s].Child? ==> n.children[j] == slots[s].ref)
      && Pack(slots[s := x]) ==
         Node(n.datamap[s := x.Leaf?], n.nodemap[s := x.Child?],
              Spliced(n.leaves, i, |LeafPart(slots[s])|, LeafPart(x)),
              Spliced(n.children, j, |ChildPart(slots[s])|, ChildPart(x)))
  {
    LeafIndex(slots, s);
    ChildIndex(slots, s);
    FlattenUpdate(LeafParts(slots), s, LeafPart(x));
    FlattenUpdate(ChildParts(slots), s, ChildPart(x));
    MapsUpdate(slots, s, x);
  }

  lemma {:induction false} IndexBelow(bitmap: seq<bool>, s: nat, t: nat)
    requires s < t <= |bitmap|
    ensures MapIndex(bitmap, s) + (if bitmap[s] then 1 else 0) <= MapIndex(bitmap, t)
    decreases t
  {
    if s < t - 1 { IndexBelow(bitmap, s, t - 1); }
  }

  /** Each position of the dense array belongs to a slot. */
  lemma {:induction false} SlotOfIndex(bitmap: seq<bool>, i: nat, t: nat) returns (s: nat)
    requires t <= |bitmap| && i < MapIndex(bitmap, t)
    ensures s < t && bitmap[s] && MapIndex(bitmap, s) == i
    decreases t
  {
    if i < MapIndex(bitmap, t - 1) {
      s := SlotOfIndex(bitmap, i, t - 1);
    } else {
      s := t - 1;
    }
  }

  // ---- structural hashes ----

  function RefHash(r: NodeRef): Hash
    decreases r
  {
    match r
    case Resolved(n) => HashOf(n)
    case Lazy(h) => h
  }

  function HashOf(n: Node): Hash
    decreases n
  {
    Hash(n.datamap, n.nodemap, n.leaves, seq(|n.children|, i requires 0 <= i < |n.children| => RefHash(n.children[i])))
  }

  function RefHashes(cs: seq<NodeRef>): (r: seq<Hash>)
    ensures |r| == |cs|
  {
    seq(|cs|, i requires 0 <= i < |cs| => RefHash(cs[i]))
  }

  lemma HashOfParts(n: Node)
    ensures HashOf(n) == Hash(n.datamap, n.nodemap, n.leaves, RefHashes(n.children))
  {
    assert HashOf(n).childHashes == RefHashes(n.children);
  }

  lemma RefHashesSpliced(a: seq<NodeRef>, i: nat, drop: nat, put: seq<NodeRef>)
    requires i + drop <= |a|
    ensures RefHashes(Spliced(a, i, drop, put)) == Spliced(RefHashes(a), i, drop, RefHashes(put))
  {
  }

  /** Two slots that differ at most in how far a child is loaded. */
  predicate SameSlot(x: Slot, y: Slot) {
    x == y || (x.Child? && y.Child? && RefHash(x.ref) == RefHash(y.ref))
  }

  /** What a node with the hash of the given slots holds in slot s. */
  lemma HashedSlot(n: Node, slots: seq<Slot>, s: nat)
    requires HashOf(n) == HashOf(Pack(slots)) && s < |slots|
    ensures |n.datamap| == |n.nodemap| == |slots|
    ensures MapIndex(n.datamap, s) <= |n.leaves| && MapIndex(n.nodemap, s) <= |n.children|
    ensures n.datamap[s] == slots[s].Leaf? && n.nodemap[s] == slots[s].Child?
    ensures slots[s].Leaf? ==> MapIndex(n.datamap, s) < |n.leaves| && n.leaves[MapIndex(n.datamap, s)] == slots[s].entry
    ensures slots[s].Child? ==>
              MapIndex(n.nodemap, s) < |n.children| &&
              RefHash(n.children[MapIndex(n.nodemap, s)]) == RefHash(slots[s].ref)
  {
    var p := Pack(slots);
    HashOfParts(n);
    HashOfParts(p);
    PackUpdate(slots, s, slots[s]);
    if slots[s].Child? {
      var j := MapIndex(n.nodemap, s);
      assert RefHashes(n.children)[j] == RefHashes(p.children)[j];
    }
  }

  /** Putting x into slot s of a node. was is what the slot holds now. */
  function Edited(n: Node, s: nat, was: Slot, x: Slot): (r: Node)
    requires s < |n.datamap| && s < |n.nodemap|
    requires MapIndex(n.datamap, s) + |LeafPart(was)| <= |n.leaves|
    requires MapIndex(n.nodemap, s) + |ChildPart(was)| <= |n.children|
  {
    Node(n.datamap[s := x.Leaf?], n.nodemap[s := x.Child?],
         Spliced(n.leaves, MapIndex(n.datamap, s), |LeafPart(was)|, LeafPart(x)),
         Spliced(n.children, MapIndex(n.nodemap, s), |ChildPart(was)|, ChildPart(x)))
  }

  /** Editing a node edits the slots its hash commits to. */
  lemma EditedHash(n: Node, slots: seq<Slot>, s: nat, was: Slot, x: Slot, y: Slot)
    requires HashOf(n) == HashOf(Pack(slots)) && s < |slots| && SameSlot(was, slots[s]) && SameSlot(x, y)
    ensures s < |n.datamap| && s < |n.nodemap|
    ensures MapIndex(n.datamap, s) + |LeafPart(was)| <= |n.leaves|
    ensures MapIndex(n.nodemap, s) + |ChildPart(was)| <= |n.children|
    ensures HashOf(Edited(n, s, was, x)) == HashOf(Pack(slots[s := y]))
  {
    var p, p' := Pack(slots), Pack(slots[s := y]);
    HashOfParts(n);
    HashOfParts(p);
    PackUpdate(slots, s, y);
    var e := Edited(n, s, was, x);
    HashOfParts(e);
    HashOfParts(p');
    var j, c := MapIndex(n.nodemap, s), |ChildPart(was)|;
    RefHashesSpliced(n.children, j, c, ChildPart(x));
    RefHashesSpliced(p.children, j, c, ChildPart(y));
    assert RefHashes(ChildPart(x)) == RefHashes(ChildPart(y));
  }
}
