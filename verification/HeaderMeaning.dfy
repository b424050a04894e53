/** What the header tree's recursions mean, stated without them: section 2.1 of
    RFC 6962 for root and audit path, the nodes met on the way up for the
    verifier, and the fault behind each error of the fields. */
module HeaderMeaning {
  import opened CanonicalJson
  import opened HeaderTree
  import opened PowersOfTwo

  // ---- root and audit path ----

  lemma {:induction false} ExponentsOrdered(j: nat, k: nat)
    requires Pow2(j) < Pow2(k)
    ensures 2 * Pow2(j) <= Pow2(k)
  {
    if j < k { Pow2Monotone(j + 1, k); } else { Pow2Monotone(k, j); }
  }

  /** Only one power of two is below n and not below its half. */
  lemma SplitUnique(n: nat, k: nat)
    requires n >= 2 && IsPow2(k) && k < n <= 2 * k
    ensures k == Split(n)
  {
    var i: nat :| k == Pow2(i);
    var j: nat :| Split(n) == Pow2(j);
    if k < Split(n) { ExponentsOrdered(i, j); }
    if Split(n) < k { ExponentsOrdered(j, i); }
  }

  /** One leaf is its own root; n leaves split at the power of two k with k < n <= 2k. */
  lemma RootSplits(hashes: seq<Digest>, k: nat)
    requires |hashes| > 0
    ensures |hashes| == 1 ==> MerkleRoot(hashes) == hashes[0]
    ensures IsPow2(k) && k < |hashes| <= 2 * k ==>
              MerkleRoot(hashes) == InnerHash(MerkleRoot(hashes[..k]), MerkleRoot(hashes[k..]))
  {
    if IsPow2(k) && k < |hashes| <= 2 * k {
      assert k >= 1;
      SplitUnique(|hashes|, k);
    }
  }

  /** The audit path of a leaf in its half, and on top the root of the other half, marked with its side. */
  lemma PathSplits(hashes: seq<Digest>, target: nat, k: nat)
    requires target < |hashes|
    ensures |hashes| == 1 ==> MerkleRootAndPath(hashes, target).1 == []
    ensures IsPow2(k) && k < |hashes| <= 2 * k ==>
              MerkleRootAndPath(hashes, target).1 ==
              if target < k then
                MerkleRootAndPath(hashes[..k], target).1 + [PathStep(Right, MerkleRoot(hashes[k..]))]
              else MerkleRootAndPath(hashes[k..], target - k).1 + [PathStep(Left, MerkleRoot(hashes[..k]))]
  {
    if IsPow2(k) && k < |hashes| <= 2 * k { SplitUnique(|hashes|, k); }
  }

  // ---- the verifier ----

  /** The nodes met on the way up: each is hashed with its sibling, which stands on the marked side. */
  ghost predicate WayUp(path: seq<PathStep>, nodes: seq<Digest>) {
    && |nodes| == |path| + 1
    && forall i :: 0 <= i < |path| ==>
        match path[i]
        case PathStep(Left, h) => nodes[i + 1] == InnerHash(h, nodes[i])
        case PathStep(Right, h) => nodes[i + 1] == InnerHash(nodes[i], h)
  }

  /** The recomputed digest is where the way up from the leaf ends. */
  lemma {:induction false} RecomputeClimbs(leaf: Digest, path: seq<PathStep>, nodes: seq<Digest>)
    requires WayUp(path, nodes) && nodes[0] == leaf
    ensures Recompute(leaf, path) == nodes[|path|]
    decreases |path|
  {
    if path != [] {
      var n := |path| - 1;
      RecomputeClimbs(leaf, path[..n], nodes[..n + 1]);
      assert path[n] == PathStep(path[n].side, path[n].hash);
    }
  }

  /** And there is one way up from every leaf along every path. */
  lemma {:induction false} WayUpExists(leaf: Digest, path: seq<PathStep>) returns (nodes: seq<Digest>)
    ensures WayUp(path, nodes) && nodes[0] == leaf
    decreases |path|
  {
    if path == [] {
      nodes := [leaf];
    } else {
      var n := |path| - 1;
      var below := WayUpExists(leaf, path[..n]);
      nodes := below + [Combine(below[n], path[n])];
      assert forall i :: 0 <= i < n ==> path[..n][i] == path[i];
    }
  }

  // ---- the fields' errors ----

  /** What is wrong with a field by itself: checked in this order. */
  ghost predicate BadField(f: Field, e: MerkleError) {
    match e
    case EmptyFieldName => f.name == ""
    case InvalidFieldName => f.name != "" && '\0' in f.name
    case BadValue(cause) => ValidName(f.name) && !Encodable(f.value) && Explained(cause, f.value)
    case _ => false
  }

  lemma {:induction false} FirstBadField(fields: seq<Field>) returns (i: nat)
    requires FieldLeaves(fields).Err?
    ensures i < |fields| && BadField(fields[i], FieldLeaves(fields).error)
    ensures forall j :: 0 <= j < i ==> GoodField(fields[j])
  {
    ErrorFree(fields[0].value);
    if FieldLeaf(fields[0]).Err? {
      if ErrorOf(fields[0].value).Some? { ErrorMeans(fields[0].value); }
      i := 0;
    } else {
      var k := FirstBadField(fields[1..]);
      i := k + 1;
      assert forall j :: 0 < j < i ==> fields[j] == fields[1..][j - 1];
    }
  }

  /** Two fields share this name. */
  ghost predicate Repeated(fields: seq<Field>, name: string) {
    exists i, j :: 0 <= i < j < |fields| && fields[i].name == fields[j].name == name
  }

  /** The first pair of equal neighbours ends a strictly ascending list of names. */
  lemma {:induction false} FirstNeighbours(ls: seq<Leaf>) returns (i: nat)
    requires NeighbourDuplicate(ls).Some?
    ensures i + 1 < |ls| && ls[i].name == ls[i + 1].name == NeighbourDuplicate(ls).value
    ensures forall j :: 0 <= j < i ==> ls[j].name != ls[j + 1].name
  {
    if ls[0].name == ls[1].name {
      i := 0;
    } else {
      var k := FirstNeighbours(ls[1..]);
      i := k + 1;
      forall j | 0 <= j < i ensures ls[j].name != ls[j + 1].name {
        if j > 0 { assert ls[1..][j - 1].name != ls[1..][j].name; }
      }
    }
  }

  ghost predicate At(names: seq<string>, i: nat, j: nat, x: string) {
    i < j < |names| && names[i] == x && names[j] == x
  }

  /** A name counts twice exactly when it stands at two positions. */
  lemma {:induction false} CountedTwice(names: seq<string>, x: string)
    ensures multiset(names)[x] >= 2 <==> exists i: nat, j: nat :: At(names, i, j, x)
  {
    if names != [] {
      var n := |names| - 1;
      var front := names[..n];
      CountedTwice(front, x);
      assert names == front + [names[n]];
      assert x in front <==> multiset(front)[x] > 0;
      if i: nat, j: nat :| At(front, i, j, x) { assert At(names, i, j, x); }
      if i: nat :| i < n && front[i] == x && names[n] == x { assert At(names, i, n, x); }
      if i: nat, j: nat :| At(names, i, j, x) {
        if j < n { assert At(front, i, j, x); } else { assert front[i] == x; }
      }
    }
  }

  /** Up to the first equal neighbours no name is repeated. */
  lemma ApartBefore(ls: seq<Leaf>, i: nat, p: nat, q: nat)
    requires NamesWeaklyAscend(ls) && i + 1 < |ls| && forall j :: 0 <= j < i ==> ls[j].name != ls[j + 1].name
    requires p < q <= i
    ensures ls[p].name != ls[q].name
  {
    assert ls[p].name != ls[p + 1].name;
    KeyTotal(ls[p].name, ls[p + 1].name);
    assert p + 1 < q ==> !KeyLess(ls[q].name, ls[p + 1].name);
  }

  /** So no smaller name is repeated at all. */
  lemma LeastNeighbours(ls: seq<Leaf>, i: nat, x: string)
    requires NamesWeaklyAscend(ls) && i + 1 < |ls| && forall j :: 0 <= j < i ==> ls[j].name != ls[j + 1].name
    requires multiset(LeafNames(ls))[x] >= 2
    ensures !KeyLess(x, ls[i].name)
  {
    var names := LeafNames(ls);
    CountedTwice(names, x);
    var p: nat, q: nat :| At(names, p, q, x);
    assert ls[p].name == ls[q].name == x;
    if q <= i { ApartBefore(ls, i, p, q); }
  }

  /** The sorted leaves of good fields count the names as the fields do. */
  lemma SortedNames(fields: seq<Field>)
    requires FieldLeaves(fields).Ok?
    ensures multiset(LeafNames(SortLeaves(FieldLeaves(fields).value))) == multiset(FieldNames(fields))
  {
    FieldLeavesGood(fields);
    var ls := FieldLeaves(fields).value;
    SortLeavesNames(ls);
    assert LeafNames(ls) == FieldNames(fields);
  }

  lemma RepeatedCounts(fields: seq<Field>, x: string)
    ensures Repeated(fields, x) <==> multiset(FieldNames(fields))[x] >= 2
  {
    var names := FieldNames(fields);
    CountedTwice(names, x);
    if i: nat, j: nat :| i < j < |fields| && fields[i].name == fields[j].name == x { assert At(names, i, j, x); }
    if i: nat, j: nat :| At(names, i, j, x) { assert fields[i].name == fields[j].name == x; }
  }

  /** The reported duplicate is repeated among the fields, and no smaller name is. */
  lemma DuplicateMeans(fields: seq<Field>, x: string)
    requires Leaves(fields) == Err(DuplicateField(x)) && FieldLeaves(fields).Ok?
    ensures Repeated(fields, x) && forall y :: Repeated(fields, y) ==> !KeyLess(y, x)
  {
    var sorted := SortLeaves(FieldLeaves(fields).value);
    var names := LeafNames(sorted);
    SortLeavesAscends(FieldLeaves(fields).value);
    SortedNames(fields);
    var i := FirstNeighbours(sorted);
    assert At(names, i, i + 1, x);
    CountedTwice(names, x);
    RepeatedCounts(fields, x);
    forall y | Repeated(fields, y) ensures !KeyLess(y, x) {
      RepeatedCounts(fields, y);
      LeastNeighbours(sorted, i, y);
    }
  }

  /** Why there are no leaves: the first bad field, in the order given, or else the least repeated name. */
  lemma LeavesErrors(fields: seq<Field>)
    requires Leaves(fields).Err?
    ensures var e := Leaves(fields).error;
      || (exists i :: 0 <= i < |fields| && BadField(fields[i], e) && forall j :: 0 <= j < i ==> GoodField(fields[j]))
      || (&& e.DuplicateField? && (forall f :: f in fields ==> GoodField(f)) && Repeated(fields, e.name)
          && forall y :: Repeated(fields, y) ==> !KeyLess(y, e.name))
  {
    var e := Leaves(fields).error;
    if FieldLeaves(fields).Err? {
      var i := FirstBadField(fields);
    } else {
      FieldLeavesGood(fields);
      DuplicateMeans(fields, e.name);
    }
  }

  /** With leaves there is a root unless there is no field at all, and a path for the names of fields only. */
  lemma RootAndPathErrors(fields: seq<Field>, name: string)
    requires Leaves(fields).Ok?
    ensures Root(fields) == Err(NoLeaves) <==> fields == []
    ensures Root(fields).Ok? <==> fields != []
    ensures LeafPath(fields, name) == Err(FieldNotFound(name)) <==> forall f :: f in fields ==> f.name != name
    ensures LeafPath(fields, name).Ok? <==> exists f :: f in fields && f.name == name
  {
    var ls := Leaves(fields).value;
    LeavesList(fields);
    LeafPositionFinds(ls, name);
    if f :| f in fields && f.name == name { NameOfField(fields, f); }
    if name in LeafNames(ls) {
      var i :| 0 <= i < |ls| && LeafNames(ls)[i] == name;
      assert ls[i] in ls;
      var k :| 0 <= k < |fields| && ls[i] == LeafOf(fields[k]);
      assert fields[k] in fields;
    }
  }
}
