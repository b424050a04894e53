/** The RFC 6962-shaped tree over named fields (src/merkle.rs): leaf hashes,
    root, audit paths (sections 2.1 and 2.1.1 of RFC 6962) and their verifier.

    Hashing with its domain tags is a free constructor; Foreign stands for any
    digest that is neither a leaf nor an inner node. */
module HeaderTree {
  import opened CanonicalJson
  import opened CanonicalReading
  import opened JsonReader
  import opened JsonText
  import opened PowersOfTwo
  import opened Sequences
  import opened Wrappers

  datatype Digest =
    | LeafHash(name: string, text: seq<byte>)
    | InnerHash(left: Digest, right: Digest)
    | Foreign(id: nat)

  datatype Side = Left | Right

  datatype PathStep = PathStep(side: Side, hash: Digest)

  // ---- the split point ----

  /** The largest power of two below n, searched upward from k. */
  function SplitFrom(k: nat, n: nat): (r: nat)
    requires 1 <= k && IsPow2(k)
    ensures r >= 1 && IsPow2(r) && (k < n ==> r < n <= 2 * r)
    decreases n - k
  {
    if 2 * k < n then
      assert IsPow2(2 * k) by { var e: nat :| k == Pow2(e); assert 2 * k == Pow2(e + 1); }
      SplitFrom(2 * k, n)
    else k
  }

  function Split(n: nat): (k: nat)
    ensures k >= 1 && IsPow2(k) && (n >= 2 ==> k < n <= 2 * k)
  {
    assert 1 == Pow2(0);
    SplitFrom(1, n)
  }

  method LargestPowerOfTwoLessThan(n: nat) returns (k: nat)
    ensures k == Split(n)
  {
    k := 1;
    assert 1 == Pow2(0);
    while 2 * k < n
      invariant 1 <= k && IsPow2(k) && SplitFrom(k, n) == Split(n)
      decreases n - k
    {
      assert IsPow2(2 * k) by { var e: nat :| k == Pow2(e); assert 2 * k == Pow2(e + 1); }
      k := 2 * k;
    }
  }

  // ---- root, path, verifier ----

  function MerkleRoot(hashes: seq<Digest>): Digest
    requires |hashes| > 0
    decreases |hashes|
  {
    if |hashes| == 1 then hashes[0]
    else
      var k := Split(|hashes|);
      InnerHash(MerkleRoot(hashes[..k]), MerkleRoot(hashes[k..]))
  }

  function MerkleRootAndPath(hashes: seq<Digest>, target: nat): (Digest, seq<PathStep>)
    requires target < |hashes|
    decreases |hashes|
  {
    if |hashes| == 1 then (hashes[0], [])
    else
      var k := Split(|hashes|);
      if target < k then
        var (root, path) := MerkleRootAndPath(hashes[..k], target);
        var right := MerkleRoot(hashes[k..]);
        (InnerHash(root, right), path + [PathStep(Right, right)])
      else
        var (root, path) := MerkleRootAndPath(hashes[k..], target - k);
        var left := MerkleRoot(hashes[..k]);
        (InnerHash(left, root), path + [PathStep(Left, left)])
  }

  function Combine(cur: Digest, step: PathStep): Digest {
    if step.side.Left? then InnerHash(step.hash, cur) else InnerHash(cur, step.hash)
  }

  /** The root recomputed from a leaf and its siblings, leaf to root. */
  function Recompute(leaf: Digest, path: seq<PathStep>): Digest {
    if path == [] then leaf else Combine(Recompute(leaf, path[..|path| - 1]), path[|path| - 1])
  }

  method VerifyLeafPath(leaf: Digest, path: seq<PathStep>, root: Digest) returns (ok: bool)
    ensures ok <==> Recompute(leaf, path) == root
  {
    var cur := leaf;
    for i := 0 to |path|
      invariant cur == Recompute(leaf, path[..i])
    {
      assert path[..i + 1][..i] == path[..i];
      cur := Combine(cur, path[i]);
    }
    assert path[..|path|] == path;
    ok := cur == root;
  }

  /** The two computations agree on the root, and the path leads from the leaf to it. */
  lemma {:induction false} PathLeadsToRoot(hashes: seq<Digest>, target: nat)
    requires target < |hashes|
    ensures MerkleRootAndPath(hashes, target).0 == MerkleRoot(hashes)
    ensures Recompute(hashes[target], MerkleRootAndPath(hashes, target).1) == MerkleRoot(hashes)
    decreases |hashes|
  {
    if |hashes| > 1 {
      var k := Split(|hashes|);
      var path := MerkleRootAndPath(hashes, target).1;
      if target < k {
        PathLeadsToRoot(hashes[..k], target);
        assert path[..|path| - 1] == MerkleRootAndPath(hashes[..k], target).1;
      } else {
        PathLeadsToRoot(hashes[k..], target - k);
        assert path[..|path| - 1] == MerkleRootAndPath(hashes[k..], target - k).1;
      }
    }
  }

  /** A path accepted for a leaf proves that the leaf is in the tree, and is the audit path of one of
      its positions. */
  lemma {:induction false} AcceptedPathIsAuditPath(hashes: seq<Digest>, leaf: Digest, path: seq<PathStep>)
    returns (i: nat)
    requires |hashes| > 0 && leaf.LeafHash? && forall h :: h in hashes ==> h.LeafHash?
    requires Recompute(leaf, path) == MerkleRoot(hashes)
    ensures i < |hashes| && hashes[i] == leaf && path == MerkleRootAndPath(hashes, i).1
    decreases |hashes|
  {
    if |hashes| == 1 {
      assert hashes[0] in hashes;
      i := 0;
    } else {
      LastStep(hashes, leaf, path);
      var k, front, last := Split(|hashes|), path[..|path| - 1], path[|path| - 1];
      if last.side.Left? {
        var j := AcceptedPathIsAuditPath(hashes[k..], leaf, front);
        i := k + j;
      } else {
        i := AcceptedPathIsAuditPath(hashes[..k], leaf, front);
      }
      PathOnTop(hashes, i, front, last);
    }
  }

  /** The last step of an accepted path joins the two halves. */
  lemma LastStep(hashes: seq<Digest>, leaf: Digest, path: seq<PathStep>)
    requires |hashes| > 1 && leaf.LeafHash? && Recompute(leaf, path) == MerkleRoot(hashes)
    ensures path != [] && path == path[..|path| - 1] + [path[|path| - 1]]
    ensures var k, front, last := Split(|hashes|), path[..|path| - 1], path[|path| - 1];
      if last.side.Left? then last.hash == MerkleRoot(hashes[..k]) && Recompute(leaf, front) == MerkleRoot(hashes[k..])
      else last.hash == MerkleRoot(hashes[k..]) && Recompute(leaf, front) == MerkleRoot(hashes[..k])
  {
    var k := Split(|hashes|);
    assert MerkleRoot(hashes) == InnerHash(MerkleRoot(hashes[..k]), MerkleRoot(hashes[k..]));
  }

  /** A path in one half with the other half's root on top is the path in the whole. */
  lemma PathOnTop(hashes: seq<Digest>, i: nat, front: seq<PathStep>, last: PathStep)
    requires |hashes| > 1 && i < |hashes|
    requires var k := Split(|hashes|);
      if last.side.Left? then
        i >= k && front == MerkleRootAndPath(hashes[k..], i - k).1 && last.hash == MerkleRoot(hashes[..k])
      else i < k && front == MerkleRootAndPath(hashes[..k], i).1 && last.hash == MerkleRoot(hashes[k..])
    ensures MerkleRootAndPath(hashes, i).1 == front + [last]
  {
  }

  // ---- fields ----

  datatype Field = Field(name: string, value: Value)

  datatype MerkleError =
    | EmptyFieldName
    | InvalidFieldName
    | DuplicateField(name: string)
    | FieldNotFound(name: string)
    | NoLeaves
    | BadValue(error: JsonError)

  datatype Result<T> = Ok(value: T) | Err(error: MerkleError)

  datatype Leaf = Leaf(name: string, hash: Digest)

  predicate ValidName(name: string) {
    name != "" && '\0' !in name
  }

  // ---- why names may not contain a zero character ----

  /** What is hashed for a leaf after its tag: name, a zero byte, text. */
  function LeafPreimage(name: string, text: seq<byte>): seq<byte> {
    Bytes(name) + [0] + text
  }

  lemma {:induction false} NoZeroByte(name: string)
    requires '\0' !in name
    ensures 0 !in Bytes(name)
  {
    if name != "" {
      assert name[0] in name;
      assert 0 !in Utf8(name[0]);
      forall c | c in name[1..] ensures c != '\0' { assert c in name; }
      NoZeroByte(name[1..]);
    }
  }

  /** With valid names the preimage determines the leaf, as the free constructor LeafHash has it. */
  lemma LeafPreimageInjective(name: string, text: seq<byte>, name': string, text': seq<byte>)
    requires ValidName(name) && ValidName(name') && LeafPreimage(name, text) == LeafPreimage(name', text')
    ensures name == name' && text == text'
  {
    NoZeroByte(name);
    NoZeroByte(name');
    SplitAtZero(Bytes(name), text, Bytes(name'), text');
    BytesInjective(name, name');
  }

  lemma SplitAtZero(a: seq<byte>, x: seq<byte>, b: seq<byte>, y: seq<byte>)
    requires 0 !in a && 0 !in b && a + [0] + x == b + [0] + y
    ensures a == b && x == y
  {
    var s := a + [0] + x;
    assert s[|a|] == 0 && s[|b|] == 0;
    assert forall i :: 0 <= i < |a| ==> s[i] == a[i] && a[i] in a;
    assert forall i :: 0 <= i < |b| ==> s[i] == b[i] && b[i] in b;
    assert |a| == |b|;
    assert a == s[..|a|] && b == s[..|b|] && x == s[|a| + 1..] && y == s[|b| + 1..];
  }

  /** A zero character in a name would let a longer name pass for a shorter one with more text. */
  lemma ZeroIsAmbiguous(name: string, rest: string, text: seq<byte>)
    ensures LeafPreimage(name + "\0" + rest, text) == LeafPreimage(name, LeafPreimage(rest, text))
  {
    var n, r := Bytes(name), Bytes(rest);
    assert name + "\0" + rest == name + ("\0" + rest);
    BytesAppend(name, "\0" + rest);
    ZeroByte(rest);
    ZeroInside(n, r, text);
  }

  lemma ZeroByte(rest: string)
    ensures Bytes("\0" + rest) == [0] + Bytes(rest)
  {
    assert ("\0" + rest)[1..] == rest;
  }

  lemma ZeroInside(n: seq<byte>, r: seq<byte>, text: seq<byte>)
    ensures n + ([0] + r) + [0] + text == n + [0] + (r + [0] + text)
  {
  }

  lemma {:induction false} BytesAppend(s: string, t: string)
    ensures Bytes(s + t) == Bytes(s) + Bytes(t)
  {
    if s == "" {
      assert s + t == t;
    } else {
      BytesAppend(s[1..], t);
      assert (s + t)[0] == s[0] && (s + t)[1..] == s[1..] + t;
    }
  }

  ghost function FieldLeaf(f: Field): Result<Leaf> {
    if f.name == "" then Err(EmptyFieldName)
    else if '\0' in f.name then Err(InvalidFieldName)
    else match ErrorOf(f.value)
      case Some(e) => Err(BadValue(e))
      case None => Ok(LeafOf(f))
  }

  ghost function LeafOf(f: Field): Leaf {
    Leaf(f.name, LeafHash(f.name, Text(f.value)))
  }

  ghost predicate GoodField(f: Field) {
    ValidName(f.name) && Encodable(f.value)
  }

  /** The leaves of all fields in order, or the first field's error. */
  ghost function FieldLeaves(fields: seq<Field>): Result<seq<Leaf>> {
    if fields == [] then Ok([])
    else match FieldLeaf(fields[0])
      case Err(e) => Err(e)
      case Ok(l) => match FieldLeaves(fields[1..])
        case Err(e) => Err(e)
        case Ok(ls) => Ok([l] + ls)
  }

  /** Stable insertion by name. */
  function InsertLeaf(ls: seq<Leaf>, l: Leaf): (r: seq<Leaf>)
    ensures |r| == |ls| + 1
  {
    if ls == [] || KeyLess(l.name, ls[0].name) then [l] + ls else [ls[0]] + InsertLeaf(ls[1..], l)
  }

  function SortLeaves(ls: seq<Leaf>): (r: seq<Leaf>)
    ensures |r| == |ls|
  {
    if ls == [] then [] else InsertLeaf(SortLeaves(ls[..|ls| - 1]), ls[|ls| - 1])
  }

  /** The first name that two neighbours share. */
  function NeighbourDuplicate(ls: seq<Leaf>): Option<string> {
    if |ls| < 2 then None
    else if ls[0].name == ls[1].name then Some(ls[0].name)
    else NeighbourDuplicate(ls[1..])
  }

  ghost function Leaves(fields: seq<Field>): Result<seq<Leaf>> {
    match FieldLeaves(fields)
    case Err(e) => Err(e)
    case Ok(ls) =>
      var sorted := SortLeaves(ls);
      match NeighbourDuplicate(sorted)
      case Some(name) => Err(DuplicateField(name))
      case None => Ok(sorted)
  }

  function Hashes(ls: seq<Leaf>): (r: seq<Digest>)
    ensures |r| == |ls|
  {
    seq(|ls|, i requires 0 <= i < |ls| => ls[i].hash)
  }

  ghost function Root(fields: seq<Field>): Result<Digest> {
    match Leaves(fields)
    case Err(e) => Err(e)
    case Ok(ls) => if ls == [] then Err(NoLeaves) else Ok(MerkleRoot(Hashes(ls)))
  }

  // ---- what the leaves are ----

  ghost predicate DistinctNames(fields: seq<Field>) {
    forall i, j :: 0 <= i < j < |fields| ==> fields[i].name != fields[j].name
  }

  ghost predicate NamesAscend(ls: seq<Leaf>) {
    forall i, j :: 0 <= i < j < |ls| ==> KeyLess(ls[i].name, ls[j].name)
  }

  ghost predicate NamesWeaklyAscend(ls: seq<Leaf>) {
    forall i, j :: 0 <= i < j < |ls| ==> !KeyLess(ls[j].name, ls[i].name)
  }

  lemma {:induction false} FieldLeavesGood(fields: seq<Field>)
    ensures FieldLeaves(fields).Ok? <==> forall f :: f in fields ==> GoodField(f)
    ensures FieldLeaves(fields).Ok? ==>
              |FieldLeaves(fields).value| == |fields| &&
              forall i :: 0 <= i < |fields| ==> FieldLeaves(fields).value[i] == LeafOf(fields[i])
  {
    if fields != [] {
      ErrorFree(fields[0].value);
      FieldLeavesGood(fields[1..]);
      assert FieldLeaf(fields[0]).Ok? <==> GoodField(fields[0]);
      assert forall f :: f in fields <==> f == fields[0] || f in fields[1..];
    }
  }

  lemma {:induction false} InsertLeafMultiset(ls: seq<Leaf>, l: Leaf)
    ensures multiset(InsertLeaf(ls, l)) == multiset(ls) + multiset{l}
  {
    if ls != [] && !KeyLess(l.name, ls[0].name) {
      InsertLeafMultiset(ls[1..], l);
      assert ls == [ls[0]] + ls[1..];
    }
  }

  lemma {:induction false} SortLeavesMultiset(ls: seq<Leaf>)
    ensures multiset(SortLeaves(ls)) == multiset(ls)
  {
    if ls != [] {
      var front, last := ls[..|ls| - 1], ls[|ls| - 1];
      assert ls == front + [last];
      SortLeavesMultiset(front);
      InsertLeafMultiset(SortLeaves(front), last);
    }
  }

  lemma LeafPrepend(l: Leaf, tail: seq<Leaf>)
    requires NamesWeaklyAscend(tail) && forall j :: 0 <= j < |tail| ==> !KeyLess(tail[j].name, l.name)
    ensures NamesWeaklyAscend([l] + tail)
  {
  }

  lemma {:induction false} InsertLeafAscends(ls: seq<Leaf>, l: Leaf)
    requires NamesWeaklyAscend(ls)
    ensures NamesWeaklyAscend(InsertLeaf(ls, l))
  {
    if ls == [] {
    } else if KeyLess(l.name, ls[0].name) {
      forall j | 0 <= j < |ls| ensures !KeyLess(ls[j].name, l.name) {
        if KeyLess(ls[j].name, l.name) {
          KeyTransitive(ls[j].name, l.name, ls[0].name);
          LexIrreflexive(Bytes(ls[0].name));
        }
      }
    } else {
      InsertLeafAscends(ls[1..], l);
      InsertLeafMultiset(ls[1..], l);
      var tail := InsertLeaf(ls[1..], l);
      forall j | 0 <= j < |tail| ensures !KeyLess(tail[j].name, ls[0].name) {
        assert tail[j] in multiset(tail);
        if tail[j] != l {
          assert tail[j] in ls[1..];
          var i :| 0 <= i < |ls| - 1 && ls[1..][i] == tail[j];
          assert tail[j] == ls[i + 1];
        }
      }
      LeafPrepend(ls[0], tail);
    }
  }

  lemma {:induction false} SortLeavesAscends(ls: seq<Leaf>)
    ensures NamesWeaklyAscend(SortLeaves(ls))
  {
    if ls != [] {
      SortLeavesAscends(ls[..|ls| - 1]);
      InsertLeafAscends(SortLeaves(ls[..|ls| - 1]), ls[|ls| - 1]);
    }
  }

  /** In a sorted list a repeated name shows up at two neighbours. */
  lemma {:induction false} DuplicatesAreNeighbours(ls: seq<Leaf>)
    requires NamesWeaklyAscend(ls)
    ensures NeighbourDuplicate(ls).None? <==> NamesAscend(ls)
  {
    if |ls| >= 2 {
      var tail := ls[1..];
      DuplicatesAreNeighbours(tail);
      KeyTotal(ls[0].name, ls[1].name);
      LexIrreflexive(Bytes(ls[0].name));
      if ls[0].name != ls[1].name && NamesAscend(tail) {
        forall j | 1 <= j < |ls| ensures KeyLess(ls[0].name, ls[j].name) {
          if j > 1 {
            assert KeyLess(tail[0].name, tail[j - 1].name);
            KeyTransitive(ls[0].name, ls[1].name, ls[j].name);
          }
        }
        assert forall i, j :: 1 <= i < j < |ls| ==> ls[i] == tail[i - 1] && ls[j] == tail[j - 1];
      }
    }
  }

  // ---- names, counted ----

  ghost function FieldNames(fields: seq<Field>): (r: seq<string>)
    ensures |r| == |fields|
  {
    seq(|fields|, i requires 0 <= i < |fields| => fields[i].name)
  }

  ghost function LeafNames(ls: seq<Leaf>): (r: seq<string>)
    ensures |r| == |ls|
  {
    seq(|ls|, i requires 0 <= i < |ls| => ls[i].name)
  }

  ghost predicate Once(names: seq<string>) {
    forall x :: multiset(names)[x] <= 1
  }

  lemma {:induction false} OnceMeansDistinct(names: seq<string>)
    ensures Once(names) <==> forall i, j :: 0 <= i < j < |names| ==> names[i] != names[j]
  {
    if names != [] {
      var x, rest := names[0], names[1..];
      OnceMeansDistinct(rest);
      assert names == [x] + rest;
      assert multiset(names) == multiset{x} + multiset(rest);
      assert x in rest <==> multiset(rest)[x] > 0;
      assert x in rest <==> exists j :: 1 <= j < |names| && names[j] == x by {
        assert forall j :: 1 <= j < |names| ==> names[j] == rest[j - 1];
      }
      OnceExtends(names, x, rest);
    }
  }

  lemma OnceExtends(names: seq<string>, x: string, rest: seq<string>)
    requires names == [x] + rest
    ensures Once(names) <==> Once(rest) && x !in rest
  {
    assert multiset(names) == multiset{x} + multiset(rest);
    if Once(names) {
      forall y ensures multiset(rest)[y] <= 1 { assert multiset(names)[y] <= 1; }
      assert multiset(names)[x] <= 1;
    }
    if Once(rest) && x !in rest {
      forall y ensures multiset(names)[y] <= 1 { assert multiset(rest)[y] <= 1; }
    }
  }

  lemma {:induction false} InsertLeafNames(ls: seq<Leaf>, l: Leaf)
    ensures multiset(LeafNames(InsertLeaf(ls, l))) == multiset(LeafNames(ls)) + multiset{l.name}
  {
    if ls == [] || KeyLess(l.name, ls[0].name) {
      NamesPrepend(l, ls);
    } else {
      InsertLeafNames(ls[1..], l);
      NamesPrepend(ls[0], ls[1..]);
      NamesPrepend(ls[0], InsertLeaf(ls[1..], l));
      assert ls == [ls[0]] + ls[1..];
    }
  }

  lemma NamesPrepend(l: Leaf, ls: seq<Leaf>)
    ensures multiset(LeafNames([l] + ls)) == multiset{l.name} + multiset(LeafNames(ls))
  {
    assert LeafNames([l] + ls) == [l.name] + LeafNames(ls);
  }

  lemma {:induction false} SortLeavesNames(ls: seq<Leaf>)
    ensures multiset(LeafNames(SortLeaves(ls))) == multiset(LeafNames(ls))
  {
    if ls != [] {
      var front, last := ls[..|ls| - 1], ls[|ls| - 1];
      SortLeavesNames(front);
      InsertLeafNames(SortLeaves(front), last);
      assert LeafNames(ls) == LeafNames(front) + [last.name];
    } else {
      assert LeafNames(SortLeaves(ls)) == LeafNames(ls);
    }
  }

  lemma DropFieldName(fields: seq<Field>, k: nat)
    requires k < |fields|
    ensures multiset(FieldNames(fields)) == multiset(FieldNames(Without(fields, k))) + multiset{fields[k].name}
  {
    var a, b := FieldNames(fields[..k]), FieldNames(fields[k + 1..]);
    assert FieldNames(fields) == a + [fields[k].name] + b;
    assert FieldNames(Without(fields, k)) == a + b;
  }

  lemma {:induction false} NamesPermute(fields: seq<Field>, fields': seq<Field>)
    requires multiset(fields) == multiset(fields')
    ensures multiset(FieldNames(fields)) == multiset(FieldNames(fields'))
    decreases |fields|
  {
    if fields == [] {
      assert |multiset(fields')| == 0;
    } else {
      assert fields[0] in multiset(fields');
      var k :| 0 <= k < |fields'| && fields'[k] == fields[0];
      WithoutMultiset(fields, 0);
      WithoutMultiset(fields', k);
      assert multiset(Without(fields, 0)) == multiset(fields) - multiset{fields[0]};
      assert multiset(Without(fields', k)) == multiset(fields') - multiset{fields[0]};
      NamesPermute(Without(fields, 0), Without(fields', k));
      DropFieldName(fields, 0);
      DropFieldName(fields', k);
    }
  }

  // ---- what the tree commits to ----

  lemma DistinctNamesOnce(fields: seq<Field>)
    ensures DistinctNames(fields) <==> Once(FieldNames(fields))
  {
    var names := FieldNames(fields);
    OnceMeansDistinct(names);
    if DistinctNames(fields) {
      forall i, j | 0 <= i < j < |names| ensures names[i] != names[j] { assert fields[i].name != fields[j].name; }
    }
    if Once(names) {
      forall i, j | 0 <= i < j < |fields| ensures fields[i].name != fields[j].name { assert names[i] != names[j]; }
    }
  }

  lemma SortedOnce(ls: seq<Leaf>)
    ensures NeighbourDuplicate(SortLeaves(ls)).None? <==> Once(LeafNames(ls))
  {
    SortLeavesAscends(ls);
    SortLeavesNames(ls);
    DuplicatesAreNeighbours(SortLeaves(ls));
    SortedDistinct(SortLeaves(ls));
  }

  /** Leaves exist exactly for well-formed fields with distinct names. */
  lemma LeavesExact(fields: seq<Field>)
    ensures Leaves(fields).Ok? <==> (forall f :: f in fields ==> GoodField(f)) && DistinctNames(fields)
  {
    FieldLeavesGood(fields);
    if FieldLeaves(fields).Ok? {
      var ls := FieldLeaves(fields).value;
      SortedOnce(ls);
      assert LeafNames(ls) == FieldNames(fields);
      DistinctNamesOnce(fields);
    }
  }

  ghost predicate IsLeafOf(fields: seq<Field>, l: Leaf) {
    exists i :: 0 <= i < |fields| && l == LeafOf(fields[i])
  }

  /** The leaves are those of the fields, in ascending order of their names. */
  lemma LeavesList(fields: seq<Field>)
    requires Leaves(fields).Ok?
    ensures |Leaves(fields).value| == |fields| && NamesAscend(Leaves(fields).value)
    ensures forall l :: l in Leaves(fields).value <==> IsLeafOf(fields, l)
  {
    FieldLeavesGood(fields);
    var ls := FieldLeaves(fields).value;
    var sorted := SortLeaves(ls);
    SortLeavesAscends(ls);
    DuplicatesAreNeighbours(sorted);
    SortLeavesMultiset(ls);
    forall l ensures l in sorted <==> IsLeafOf(fields, l) {
      assert l in sorted <==> l in multiset(sorted);
      assert l in ls <==> l in multiset(ls);
    }
  }

  lemma SortedDistinct(ls: seq<Leaf>)
    requires NamesWeaklyAscend(ls)
    ensures NamesAscend(ls) <==> Once(LeafNames(ls))
  {
    var names := LeafNames(ls);
    OnceMeansDistinct(names);
    if NamesAscend(ls) {
      forall i, j | 0 <= i < j < |names| ensures names[i] != names[j] {
        assert KeyLess(ls[i].name, ls[j].name);
        LexIrreflexive(Bytes(names[i]));
      }
    }
    if Once(names) {
      forall i, j | 0 <= i < j < |ls| ensures KeyLess(ls[i].name, ls[j].name) {
        assert names[i] != names[j];
        KeyTotal(ls[i].name, ls[j].name);
      }
    }
  }

  lemma SameNameSameLeaf(fields: seq<Field>, l: Leaf, m: Leaf)
    requires DistinctNames(fields) && IsLeafOf(fields, l) && IsLeafOf(fields, m) && l.name == m.name
    ensures l == m
  {
    var i :| 0 <= i < |fields| && l == LeafOf(fields[i]);
    var j :| 0 <= j < |fields| && m == LeafOf(fields[j]);
    assert i == j;
  }

  lemma LeafOfPermuted(fields: seq<Field>, fields': seq<Field>, l: Leaf)
    requires multiset(fields) == multiset(fields') && IsLeafOf(fields, l)
    ensures IsLeafOf(fields', l)
  {
    var i :| 0 <= i < |fields| && l == LeafOf(fields[i]);
    assert fields[i] in multiset(fields');
    assert fields[i] in fields';
  }

  lemma PermutedShape(fields: seq<Field>, fields': seq<Field>)
    requires multiset(fields) == multiset(fields')
    ensures (forall f :: f in fields ==> GoodField(f)) <==> (forall f :: f in fields' ==> GoodField(f))
    ensures DistinctNames(fields) <==> DistinctNames(fields')
    ensures |fields| == |fields'|
  {
    forall f ensures f in fields <==> f in fields' {
      assert f in fields <==> f in multiset(fields);
      assert f in fields' <==> f in multiset(fields');
    }
    NamesPermute(fields, fields');
    DistinctNamesOnce(fields);
    DistinctNamesOnce(fields');
    assert |multiset(fields)| == |multiset(fields')|;
  }

  /** Two ascending lists of leaves of the same fields are the same list. */
  lemma SameLeaves(fields: seq<Field>, ls: seq<Leaf>, ms: seq<Leaf>)
    requires DistinctNames(fields) && NamesAscend(ls) && NamesAscend(ms)
    requires (forall l :: l in ls <==> IsLeafOf(fields, l)) && (forall l :: l in ms <==> IsLeafOf(fields, l))
    ensures ls == ms
  {
    var a, b := LeafNames(ls), LeafNames(ms);
    forall k ensures k in a <==> k in b {
      if k in a { NameListed(ls, ms, k); }
      if k in b { NameListed(ms, ls, k); }
    }
    AscendingListingUnique(a, b);
    forall i | 0 <= i < |ls| ensures ls[i] == ms[i] {
      assert a[i] == b[i];
      assert ls[i] in ls && ms[i] in ms;
      SameNameSameLeaf(fields, ls[i], ms[i]);
    }
  }

  lemma NameListed(ls: seq<Leaf>, ms: seq<Leaf>, k: string)
    requires k in LeafNames(ls) && forall l :: l in ls ==> l in ms
    ensures k in LeafNames(ms)
  {
    var i :| 0 <= i < |ls| && LeafNames(ls)[i] == k;
    assert ls[i] in ms;
    var j :| 0 <= j < |ms| && ms[j] == ls[i];
    assert LeafNames(ms)[j] == k;
  }

  /** The root does not depend on the order in which the fields are given. */
  lemma RootPermutationInvariant(fields: seq<Field>, fields': seq<Field>)
    requires multiset(fields) == multiset(fields')
    ensures Root(fields).Ok? <==> Root(fields').Ok?
    ensures Root(fields).Ok? ==> Root(fields) == Root(fields')
  {
    LeavesExact(fields);
    LeavesExact(fields');
    PermutedShape(fields, fields');
    if Leaves(fields).Ok? {
      LeavesList(fields);
      LeavesList(fields');
      forall l ensures IsLeafOf(fields, l) <==> IsLeafOf(fields', l) {
        if IsLeafOf(fields, l) { LeafOfPermuted(fields, fields', l); }
        if IsLeafOf(fields', l) { LeafOfPermuted(fields', fields, l); }
      }
      SameLeaves(fields, Leaves(fields).value, Leaves(fields').value);
    }
  }

  // ---- proofs about fields ----

  ghost function LeafPosition(ls: seq<Leaf>, name: string): Option<nat> {
    if ls == [] then None
    else if ls[0].name == name then Some(0)
    else match LeafPosition(ls[1..], name)
      case None => None
      case Some(i) => Some(i + 1)
  }

  lemma {:induction false} LeafPositionFinds(ls: seq<Leaf>, name: string)
    ensures LeafPosition(ls, name).None? <==> name !in LeafNames(ls)
    ensures LeafPosition(ls, name).Some? ==>
              LeafPosition(ls, name).value < |ls| && ls[LeafPosition(ls, name).value].name == name
  {
    if ls != [] {
      LeafPositionFinds(ls[1..], name);
      assert LeafNames(ls) == [ls[0].name] + LeafNames(ls[1..]);
    }
  }

  /** The audit path of the named field, with the root. */
  ghost function LeafPath(fields: seq<Field>, name: string): Result<(seq<PathStep>, Digest)> {
    match Leaves(fields)
    case Err(e) => Err(e)
    case Ok(ls) =>
      LeafPositionFinds(ls, name);
      match LeafPosition(ls, name)
      case None => Err(FieldNotFound(name))
      case Some(i) =>
        var (root, path) := MerkleRootAndPath(Hashes(ls), i);
        Ok((path, root))
  }

  lemma NameOfField(fields: seq<Field>, f: Field)
    requires Leaves(fields).Ok? && f in fields
    ensures f.name in LeafNames(Leaves(fields).value) && LeafOf(f) in Leaves(fields).value
  {
    LeavesList(fields);
    var i :| 0 <= i < |fields| && fields[i] == f;
    assert IsLeafOf(fields, LeafOf(f));
    var ls := Leaves(fields).value;
    var j :| 0 <= j < |ls| && ls[j] == LeafOf(f);
    assert LeafNames(ls)[j] == f.name;
  }

  /** For every field of an accepted list the path exists, comes with the root, and verifies. */
  lemma FieldProofComplete(fields: seq<Field>, f: Field)
    requires Root(fields).Ok? && f in fields
    ensures LeafPath(fields, f.name).Ok?
    ensures LeafPath(fields, f.name).value.1 == Root(fields).value
    ensures Recompute(LeafOf(f).hash, LeafPath(fields, f.name).value.0) == Root(fields).value
  {
    var ls := Leaves(fields).value;
    NameOfField(fields, f);
    LeafPositionFinds(ls, f.name);
    var i := LeafPosition(ls, f.name).value;
    LeavesExact(fields);
    LeavesList(fields);
    assert ls[i] in ls;
    SameNameSameLeaf(fields, ls[i], LeafOf(f));
    PathLeadsToRoot(Hashes(ls), i);
  }

  /** A path that verifies for a named value against the root of fields proves that exactly this
      field, with exactly this value, is among them. */
  lemma FieldProofSound(fields: seq<Field>, f: Field, path: seq<PathStep>)
    requires Root(fields).Ok? && GoodField(f)
    requires Recompute(LeafOf(f).hash, path) == Root(fields).value
    ensures f in fields
  {
    var ls := Leaves(fields).value;
    LeavesList(fields);
    LeavesExact(fields);
    forall h | h in Hashes(ls) ensures h.LeafHash? {
      var j :| 0 <= j < |ls| && Hashes(ls)[j] == h;
      assert ls[j] in ls;
      assert IsLeafOf(fields, ls[j]);
    }
    var i := AcceptedPathIsAuditPath(Hashes(ls), LeafOf(f).hash, path);
    assert ls[i] in ls;
    assert IsLeafOf(fields, ls[i]);
    var k :| 0 <= k < |fields| && ls[i] == LeafOf(fields[k]);
    assert fields[k] in fields;
    CanonicalInjective(fields[k].value, f.value);
  }

  /** With distinct names no field occurs twice. */
  lemma {:induction false} FieldsOnce(fields: seq<Field>, f: Field)
    requires DistinctNames(fields)
    ensures multiset(fields)[f] == if f in fields then 1 else 0
  {
    if fields != [] {
      var front, last := fields[..|fields| - 1], fields[|fields| - 1];
      assert fields == front + [last];
      FieldsOnce(front, f);
      assert last !in front by {
        forall i | 0 <= i < |front| ensures front[i].name != last.name { assert fields[i] == front[i]; }
      }
    }
  }

  /** A field under the root of g is a field of g. */
  lemma RootHolds(fields: seq<Field>, others: seq<Field>, f: Field)
    requires Root(fields).Ok? && Root(others) == Root(fields) && f in fields
    ensures f in others
  {
    FieldProofComplete(fields, f);
    LeavesExact(fields);
    FieldProofSound(others, f, LeafPath(fields, f.name).value.0);
  }

  /** The root binds the header: two headers have the same root exactly when they have the same fields,
      whatever the order. */
  lemma RootBinds(fields: seq<Field>, others: seq<Field>)
    requires Root(fields).Ok? && Root(others).Ok?
    ensures Root(fields) == Root(others) <==> multiset(fields) == multiset(others)
  {
    if multiset(fields) == multiset(others) {
      RootPermutationInvariant(fields, others);
    }
    if Root(fields) == Root(others) {
      LeavesExact(fields);
      LeavesExact(others);
      forall f: Field ensures multiset(fields)[f] == multiset(others)[f] {
        FieldsOnce(fields, f);
        FieldsOnce(others, f);
        if f in fields { RootHolds(fields, others, f); }
        if f in others { RootHolds(others, fields, f); }
      }
    }
  }
}
