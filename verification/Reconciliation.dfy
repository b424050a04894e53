/** The one-round filter reconciliation protocol of benches/math/invertible_filter.rs:
    the sender's filter, the receiver's probe and split, the sender's symmetric difference. */
module Reconciliation {
  import opened CuckooFilters
  import opened ProbeFilters
  import opened QuotientFilter
  import opened Sequences
  import opened Wrappers

  datatype Kind = BloomKind | CuckooKind | CqfKind | RemainderProbeKind

  datatype Filter =
    | Bloom(bloom: BloomFilter)
    | Cuckoo(cuckoo: CuckooFilter)
    | Cqf(cqf: CountingQuotientFilter)
    | RemainderProbe(probe: RemainderProbeFilter)

  /** The sizes and hash functions a filter is created with, all of them free here. */
  datatype Config = Config(bloomBits: nat, bloomHashes: nat, position: (nat, nat) -> nat,
                           fingerprintBits: nat, mix: nat -> nat, quotientBits: nat, probeBits: nat)
  {
    predicate Ok() {
      && bloomBits >= 64 && bloomHashes >= 1
      && 8 <= fingerprintBits <= 16
      && 1 <= quotientBits <= 16
      && 1 <= probeBits <= 17
    }
  }

  ghost function Objects(f: Filter): set<object> {
    match f
    case Bloom(b) => {b}
    case Cuckoo(c) => {c}
    case Cqf(q) => {q}
    case RemainderProbe(p) => {p}
  }

  /** The filter is in a reachable state and has accepted this hash and kept it. */
  ghost predicate Holds(f: Filter, hash: nat)
    reads Objects(f)
  {
    match f
    case Bloom(b) => b.Valid() && hash in b.accepted
    case Cuckoo(c) => c.Valid() && hash in c.accepted && c.dropped == []
    case Cqf(q) => q.Valid() && hash in q.accepted
    case RemainderProbe(p) => p.Valid() && hash in p.accepted
  }

  ghost predicate Usable(f: Filter)
    reads Objects(f)
  {
    match f
    case Bloom(b) => b.Valid()
    case Cuckoo(c) => c.Valid()
    case Cqf(q) => q.Valid()
    case RemainderProbe(p) => p.Valid()
  }

  /** What each kind of filter admits: for Bloom, that accepted hashes account for every probe; for the
      cuckoo filter, the fingerprint in a home or in the stash; for the quotient filter, an accepted hash
      that agrees in the kept bits; for the remainder table, the remainder before any free slot. */
  ghost predicate Admits(f: Filter, hash: nat)
    requires Usable(f)
    reads Objects(f)
  {
    match f
    case Bloom(b) => forall i: nat :: i < b.numHashes ==> b.ProbedBy(b.accepted, b.position(hash, i) % b.numBits)
    case Cuckoo(c) => Findable(c.shape, c.buckets, c.stash[..c.stashLen], hash)
    case Cqf(q) => exists i :: 0 <= i < |q.accepted| && q.Alike(q.accepted[i], hash)
    case RemainderProbe(p) => Reaches(p.rem, p.occupied, p.Remainder(hash), p.HomeSlot(hash))
  }

  method FilterContains(f: Filter, hash: nat) returns (r: bool)
    requires Usable(f)
    ensures r <==> Admits(f, hash)
    ensures Holds(f, hash) ==> r
  {
    match f
    case Bloom(b) => r := b.Contains(hash);
    case Cuckoo(c) => r := c.Contains(hash);
    case Cqf(q) => r := q.Contains(hash);
    case RemainderProbe(p) => r := p.Contains(hash);
  }

  ghost predicate HoldsAll(f: Filter, elements: seq<nat>, hash: nat -> nat)
    reads Objects(f)
  {
    Usable(f) && forall v :: v in elements ==> Holds(f, hash(v))
  }

  /** Builds a filter of the given kind over elements.  Only the cuckoo filter can fail, and only with
      more elements than a bucket and the stash hold; the source panics then. */
  method BuildFilter(kind: Kind, elements: seq<nat>, hash: nat -> nat, cfg: Config) returns (r: Option<Filter>)
    requires cfg.Ok() && |elements| <= MAX_CAPACITY
    ensures r.Some? ==> HoldsAll(r.value, elements, hash) && fresh(Objects(r.value))
    ensures r.None? ==> kind.CuckooKind? && |elements| > BUCKET + STASH
  {
    match kind
    case BloomKind =>
      var f := BuildBloom(elements, hash, cfg);
      r := Some(Bloom(f));
    case CuckooKind =>
      var f := BuildCuckoo(elements, hash, cfg);
      r := if f.Some? then Some(Cuckoo(f.value)) else None;
    case CqfKind =>
      var f := BuildCqf(elements, hash, cfg);
      r := Some(Cqf(f));
    case RemainderProbeKind =>
      var f := BuildRemainderProbe(elements, hash, cfg);
      r := Some(RemainderProbe(f));
  }

  function AtLeastOne(n: nat): nat {
    if n < 1 then 1 else n
  }

  method BuildBloom(elements: seq<nat>, hash: nat -> nat, cfg: Config) returns (f: BloomFilter)
    requires cfg.Ok()
    ensures fresh(f) && f.Valid() && forall v :: v in elements ==> hash(v) in f.accepted
  {
    f := new BloomFilter(AtLeastOne(|elements|), cfg.bloomBits, cfg.bloomHashes, cfg.position);
    for i := 0 to |elements|
      invariant fresh(f) && f.Valid() && |f.accepted| == i && f.capacity == AtLeastOne(|elements|)
      invariant forall j :: 0 <= j < i ==> hash(elements[j]) in f.accepted
    {
      var ok := f.Insert(hash(elements[i]));
    }
  }

  method BuildRemainderProbe(elements: seq<nat>, hash: nat -> nat, cfg: Config) returns (f: RemainderProbeFilter)
    requires cfg.Ok()
    ensures fresh(f) && f.Valid() && forall v :: v in elements ==> hash(v) in f.accepted
  {
    f := new RemainderProbeFilter(AtLeastOne(|elements|), cfg.probeBits);
    for i := 0 to |elements|
      invariant fresh(f) && f.Valid() && |f.accepted| == i && f.capacity == AtLeastOne(|elements|)
      invariant forall j :: 0 <= j < i ==> hash(elements[j]) in f.accepted
    {
      var ok := f.Insert(hash(elements[i]));
    }
  }

  method BuildCqf(elements: seq<nat>, hash: nat -> nat, cfg: Config) returns (f: CountingQuotientFilter)
    requires cfg.Ok() && |elements| <= MAX_CAPACITY
    ensures fresh(f) && f.Valid() && forall v :: v in elements ==> hash(v) in f.accepted
  {
    f := new CountingQuotientFilter(AtLeastOne(|elements|), cfg.quotientBits);
    AddAll(f, elements, hash);
  }

  method AddAll(f: CountingQuotientFilter, elements: seq<nat>, hash: nat -> nat)
    requires f.Valid() && f.accepted == [] && |elements| <= f.capacity
    modifies f
    ensures f.Valid() && forall v :: v in elements ==> hash(v) in f.accepted
  {
    for i := 0 to |elements|
      invariant f.Valid() && |f.accepted| == i
      invariant forall j :: 0 <= j < i ==> hash(elements[j]) in f.accepted
    {
      DistinctAtMost(f.prints);
      var ok := f.Insert(hash(elements[i]));
    }
  }

  lemma {:induction false} DistinctAtMost(log: seq<Fingerprint>)
    ensures |Distinct(log)| <= |log|
  {
    if log == [] {
      assert Distinct(log) == {};
    } else {
      var front, last := log[..|log| - 1], log[|log| - 1];
      assert log == front + [last];
      DistinctAtMost(front);
      DistinctAppend(front, last);
    }
  }

  method BuildCuckoo(elements: seq<nat>, hash: nat -> nat, cfg: Config) returns (r: Option<CuckooFilter>)
    requires cfg.Ok()
    ensures r.Some? ==> fresh(r.value) && r.value.Valid() && r.value.dropped == []
    ensures r.Some? ==> forall v :: v in elements ==> hash(v) in r.value.accepted
    ensures r.None? ==> |elements| > BUCKET + STASH
  {
    var f := new CuckooFilter(AtLeastOne(|elements|), cfg.fingerprintBits, cfg.mix);
    var ok := OfferAll(f, elements, hash);
    r := if ok then Some(f) else None;
  }

  /** Offers the elements in turn, up to the first refusal. */
  method OfferAll(f: CuckooFilter, elements: seq<nat>, hash: nat -> nat) returns (ok: bool)
    requires f.Valid() && f.accepted == [] && f.dropped == [] && |elements| <= f.capacity
    modifies f
    ensures f.Valid()
    ensures ok ==> f.dropped == [] && forall v :: v in elements ==> hash(v) in f.accepted
    ensures !ok ==> |elements| > BUCKET + STASH
  {
    for i := 0 to |elements|
      invariant f.Valid() && f.dropped == [] && |f.accepted| == i
      invariant forall j :: 0 <= j < i ==> hash(elements[j]) in f.accepted
    {
      ok := OfferTo(f, hash(elements[i]));
      if !ok {
        return;
      }
    }
    ok := true;
  }

  /** One insertion below capacity: it fails only with a full home bucket and a full stash. */
  method OfferTo(f: CuckooFilter, h: nat) returns (ok: bool)
    requires f.Valid() && f.dropped == [] && |f.accepted| < f.capacity
    modifies f
    ensures f.Valid()
    ensures ok ==> f.dropped == [] && f.accepted == old(f.accepted) + [h]
    ensures !ok ==> |old(f.accepted)| >= BUCKET + STASH
  {
    ghost var buckets := f.buckets;
    ok := f.Insert(h);
    if !ok { FullBucket(buckets, f.shape.Primary(h)); }
  }

  // ---- the protocol ----

  method BinarySearch(s: seq<nat>, x: nat) returns (found: bool)
    requires Ascending(s)
    ensures found <==> x in s
  {
    var lo, hi := 0, |s|;
    while lo < hi
      invariant 0 <= lo <= hi <= |s|
      invariant forall i :: 0 <= i < |s| && !(lo <= i < hi) ==> s[i] != x
    {
      var mid := (lo + hi) / 2;
      if s[mid] == x {
        return true;
      } else if s[mid] < x {
        lo := mid + 1;
      } else {
        hi := mid;
      }
    }
    found := false;
  }

  /** The receiver's answer: its values the filter admits, and its values the filter excludes. */
  method ProbeRemote(f: Filter, remote: seq<nat>, ghost local: seq<nat>, hash: nat -> nat)
    returns (candidates: seq<nat>, receiverOnly: seq<nat>)
    requires HoldsAll(f, local, hash) && Ascending(remote)
    ensures Ascending(candidates) && Ascending(receiverOnly)
    ensures forall x :: x in remote <==> x in candidates || x in receiverOnly
    ensures forall x :: x in receiverOnly ==> x !in local && x !in candidates
    ensures forall x :: x in remote ==> (x in candidates <==> Admits(f, hash(x)))
  {
    candidates, receiverOnly := [], [];
    for i := 0 to |remote|
      invariant Ascending(candidates) && Ascending(receiverOnly)
      invariant forall x :: x in candidates || x in receiverOnly ==> x in remote[..i]
      invariant forall j :: 0 <= j < i ==> remote[j] in candidates || remote[j] in receiverOnly
      invariant forall x :: x in receiverOnly ==> x !in local && x !in candidates && !Admits(f, hash(x))
      invariant forall x :: x in candidates ==> Admits(f, hash(x))
    {
      var v := remote[i];
      assert v !in remote[..i] && forall x :: x in remote[..i] ==> x < v;
      var admitted := FilterContains(f, hash(v));
      if admitted {
        AscendingAppend(candidates, v);
        candidates := candidates + [v];
      } else {
        AscendingAppend(receiverOnly, v);
        receiverOnly := receiverOnly + [v];
      }
    }
  }

  /** The values of a that are not in b, in order. */
  method Missing(a: seq<nat>, b: seq<nat>) returns (out: seq<nat>)
    requires Ascending(a) && Ascending(b)
    ensures Ascending(out) && forall x :: x in out <==> x in a && x !in b
  {
    out := [];
    for i := 0 to |a|
      invariant Ascending(out)
      invariant forall x :: x in out ==> x in a[..i] && x !in b
      invariant forall j :: 0 <= j < i && a[j] !in b ==> a[j] in out
    {
      assert forall x :: x in a[..i] ==> x < a[i];
      var found := BinarySearch(b, a[i]);
      if !found {
        AscendingAppend(out, a[i]);
        out := out + [a[i]];
      }
    }
  }

  ghost predicate Distinctive(s: seq<nat>) {
    forall i, j :: 0 <= i < j < |s| ==> s[i] != s[j]
  }

  /** The whole round: exactly the symmetric difference, each value once, whatever false positives the
      filter has. */
  method Reconcile(f: Filter, local: seq<nat>, remote: seq<nat>, hash: nat -> nat) returns (diff: seq<nat>)
    requires Ascending(local) && Ascending(remote) && HoldsAll(f, local, hash)
    ensures forall x :: x in diff <==> (x in local) != (x in remote)
    ensures Distinctive(diff)
  {
    var candidates, receiverOnly := ProbeRemote(f, remote, local, hash);
    var senderOnly := Missing(local, candidates);
    var falsePositives := Missing(candidates, local);
    diff := senderOnly + falsePositives + receiverOnly;
    assert forall x :: x in diff <==> x in senderOnly || x in falsePositives || x in receiverOnly;
    Disjoint(senderOnly, falsePositives, receiverOnly);
  }

  lemma Disjoint(a: seq<nat>, b: seq<nat>, c: seq<nat>)
    requires Ascending(a) && Ascending(b) && Ascending(c)
    requires forall x :: x in a ==> x !in b && x !in c
    requires forall x :: x in b ==> x !in c
    ensures Distinctive(a + b + c)
  {
    var s := a + b + c;
    forall i, j | 0 <= i < j < |s| ensures s[i] != s[j] {
      if i < |a| { assert s[i] in a; } else if i < |a| + |b| { assert s[i] in b; }
      if |a| + |b| <= j { assert s[j] in c; } else if |a| <= j { assert s[j] in b; }
    }
  }
}
