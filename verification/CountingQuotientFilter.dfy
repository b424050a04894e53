/** The counting quotient filter of benches/math/filters.rs: remainders and
    counts packed into runs on a ring of slots, with three metadata bitmaps. */
module QuotientFilter {
  import opened Division
  import opened PowersOfTwo
  import opened QuotientLayout
  import opened Ring

  const MAX_COUNT: nat := 65535

  datatype Fingerprint = Fingerprint(quotient: nat, remainder: nat)

  function Capped(n: nat): nat {
    if n <= MAX_COUNT then n else MAX_COUNT
  }

  function Occurrences(log: seq<Fingerprint>, f: Fingerprint): nat {
    multiset(log)[f]
  }

  // ---- what the slots say about the inserts accepted so far ----

  ghost predicate EntryAt(lag: seq<int>, rem: seq<nat>, i: nat, f: Fingerprint)
    requires |rem| == |lag|
  {
    Holds(lag, i, f.quotient) && rem[i] == f.remainder
  }

  /** The slots hold exactly the fingerprints of log, each in one slot, with its
      number of occurrences capped at 65535 as its count. */
  ghost predicate Represents(lag: seq<int>, rem: seq<nat>, cnt: seq<nat>, log: seq<Fingerprint>) {
    && |rem| == |cnt| == |lag|
    && (forall i: nat, f :: EntryAt(lag, rem, i, f) ==> f in log && cnt[i] == Capped(Occurrences(log, f)))
    && (forall f :: f in log ==> exists i: nat :: EntryAt(lag, rem, i, f))
    && (forall i: nat, j: nat, f :: EntryAt(lag, rem, i, f) && EntryAt(lag, rem, j, f) ==> i == j)
  }

  lemma OccurrencesAppend(log: seq<Fingerprint>, f: Fingerprint, g: Fingerprint)
    ensures Occurrences(log + [f], g) == Occurrences(log, g) + if f == g then 1 else 0
  {
  }

  lemma RepresentsBump(lag: seq<int>, rem: seq<nat>, cnt: seq<nat>, log: seq<Fingerprint>, i: nat, f: Fingerprint)
    requires Represents(lag, rem, cnt, log) && EntryAt(lag, rem, i, f)
    ensures Represents(lag, rem, cnt[i := Capped(cnt[i] + 1)], log + [f])
  {
    var cnt', log' := cnt[i := Capped(cnt[i] + 1)], log + [f];
    forall j: nat, g | EntryAt(lag, rem, j, g)
      ensures g in log' && cnt'[j] == Capped(Occurrences(log', g))
    {
      OccurrencesAppend(log, f, g);
      if g == f { assert j == i; }
    }
  }

  /** The primed slots hold the old entries, moved by src, and one new entry f with count 1 in slot s. */
  ghost predicate AddsEntry(lag: seq<int>, rem: seq<nat>, cnt: seq<nat>,
                            lag': seq<int>, rem': seq<nat>, cnt': seq<nat>,
                            src: seq<nat>, s: nat, f: Fingerprint)
  {
    && |rem| == |cnt| == |lag| == |rem'| == |cnt'| == |lag'| == |src|
    && EntryAt(lag', rem', s, f) && cnt'[s] == 1
    && (forall g :: EntryAt(lag', rem', s, g) ==> g == f)
    && (forall i: nat, g :: i != s && EntryAt(lag', rem', i, g) ==>
          EntryAt(lag, rem, src[i], g) && cnt'[i] == cnt[src[i]])
    && (forall i, j :: 0 <= i < |src| && 0 <= j < |src| && i != s && j != s && src[i] == src[j] ==> i == j)
    && (forall i: nat, g :: EntryAt(lag, rem, i, g) ==> exists j: nat :: EntryAt(lag', rem', j, g))
  }

  lemma RepresentsAdd(lag: seq<int>, rem: seq<nat>, cnt: seq<nat>,
                      lag': seq<int>, rem': seq<nat>, cnt': seq<nat>,
                      src: seq<nat>, s: nat, f: Fingerprint, log: seq<Fingerprint>)
    requires AddsEntry(lag, rem, cnt, lag', rem', cnt', src, s, f)
    requires Represents(lag, rem, cnt, log) && f !in log
    ensures Represents(lag', rem', cnt', log + [f])
  {
    var log' := log + [f];
    forall i: nat, g | EntryAt(lag', rem', i, g)
      ensures g in log' && cnt'[i] == Capped(Occurrences(log', g)) && (i != s ==> g in log)
    {
      OccurrencesAppend(log, f, g);
    }
    forall g | g in log' ensures exists i: nat :: EntryAt(lag', rem', i, g) {
      if g != f {
        var i: nat :| EntryAt(lag, rem, i, g);
      }
    }
  }

  lemma RepresentsInsert(lag: seq<int>, rem: seq<nat>, cnt: seq<nat>, log: seq<Fingerprint>,
                         b: nat, q: nat, p: nat, e: nat, r: nat)
    requires Represents(lag, rem, cnt, log) && InsertionPoint(lag, b, q, p, e)
    requires Fingerprint(Slot(b, q, |lag|), r) !in log
    ensures var s := Slot(b, p, |lag|);
      Represents(InsertLag(lag, b, q, p, e), ShiftRight(rem, b, p, e)[s := r],
                 ShiftRight(cnt, b, p, e)[s := 1], log + [Fingerprint(Slot(b, q, |lag|), r)])
  {
    var n := |lag|;
    var s, f := Slot(b, p, n), Fingerprint(Slot(b, q, n), r);
    var lag', rem', cnt' :=
      InsertLag(lag, b, q, p, e), ShiftRight(rem, b, p, e)[s := r], ShiftRight(cnt, b, p, e)[s := 1];
    var src := seq(n, i requires 0 <= i < n => Source(b, p, e, n, i));
    InsertHomeAt(lag, b, q, p, e, p);
    assert EntryAt(lag', rem', s, f);
    forall i: nat, g | EntryAt(lag', rem', i, g)
      ensures i == s ==> g == f
      ensures i != s ==> EntryAt(lag, rem, src[i], g) && cnt'[i] == cnt[src[i]]
    {
      InsertedEntryAt(lag, rem, cnt, b, q, p, e, r, i, g);
    }
    forall i: nat, j: nat | i < n && j < n && i != s && j != s && src[i] == src[j] ensures i == j {
      SourceInjective(b, p, e, n, i, j);
    }
    forall i: nat, g | EntryAt(lag, rem, i, g) ensures exists j: nat :: EntryAt(lag', rem', j, g) {
      MovedEntry(lag, rem, lag', rem', b, q, p, e, r, i, g);
    }
    RepresentsAdd(lag, rem, cnt, lag', rem', cnt', src, s, f, log);
  }

  /** Where the entry that ends up in slot i came from. */
  ghost function Source(b: nat, p: nat, e: nat, n: nat, i: nat): (j: nat)
    requires b < n && p <= e < n && i < n
    ensures j < n
  {
    var t := Position(b, i, n);
    if p < t <= e then Slot(b, t - 1, n) else i
  }

  lemma SourceInjective(b: nat, p: nat, e: nat, n: nat, i: nat, j: nat)
    requires b < n && p <= e < n && i < n && j < n && i != Slot(b, p, n) && j != Slot(b, p, n)
    requires Source(b, p, e, n, i) == Source(b, p, e, n, j)
    ensures i == j
  {
    assert Slot(b, Position(b, i, n), n) == i && Slot(b, Position(b, j, n), n) == j;
  }

  lemma InsertedEntryAt(lag: seq<int>, rem: seq<nat>, cnt: seq<nat>,
                        b: nat, q: nat, p: nat, e: nat, r: nat, i: nat, g: Fingerprint)
    requires InsertionPoint(lag, b, q, p, e) && |rem| == |cnt| == |lag|
    requires EntryAt(InsertLag(lag, b, q, p, e), ShiftRight(rem, b, p, e)[Slot(b, p, |lag|) := r], i, g)
    ensures i == Slot(b, p, |lag|) ==> g == Fingerprint(Slot(b, q, |lag|), r)
    ensures i != Slot(b, p, |lag|) ==>
              && EntryAt(lag, rem, Source(b, p, e, |lag|, i), g)
              && ShiftRight(cnt, b, p, e)[i] == cnt[Source(b, p, e, |lag|, i)]
  {
    var t := Position(b, i, |lag|);
    InsertHomeAt(lag, b, q, p, e, t);
    ShiftRightAt(rem, b, p, e, t);
    ShiftRightAt(cnt, b, p, e, t);
  }

  lemma MovedEntry(lag: seq<int>, rem: seq<nat>, lag': seq<int>, rem': seq<nat>,
                   b: nat, q: nat, p: nat, e: nat, r: nat, i: nat, g: Fingerprint)
    requires InsertionPoint(lag, b, q, p, e) && |rem| == |lag| && EntryAt(lag, rem, i, g)
    requires lag' == InsertLag(lag, b, q, p, e) && rem' == ShiftRight(rem, b, p, e)[Slot(b, p, |lag|) := r]
    ensures exists j: nat :: EntryAt(lag', rem', j, g)
  {
    var n := |lag|;
    var t := Position(b, i, n);
    var u := if p <= t < e then t + 1 else t;
    InsertHomeAt(lag, b, q, p, e, u);
    ShiftRightAt(rem, b, p, e, u);
    assert Position(b, Slot(b, u, n), n) == u && Position(b, Slot(b, p, n), n) == p;
    assert EntryAt(lag', rem', Slot(b, u, n), g);
  }

  /** Slots that can be allocated: a longer table of 16-bit entries exceeds the address space. */
  const MAX_CAPACITY: nat := 0x1000_0000_0000_0000

  lemma SplitUnique(f: Fingerprint, g: Fingerprint, n: nat)
    requires f.quotient < n && g.quotient < n
    ensures f.quotient + n * f.remainder == g.quotient + n * g.remainder <==> f == g
  {
    if f.remainder < g.remainder { Scale(n, f.remainder + 1, g.remainder); Distribute(n, f.remainder, 1); }
    if g.remainder < f.remainder { Scale(n, g.remainder + 1, f.remainder); Distribute(n, g.remainder, 1); }
  }

  /** Where a fingerprint occurs in the log. */
  ghost function Indices(log: seq<Fingerprint>, f: Fingerprint): set<nat> {
    set i: nat | i < |log| && log[i] == f
  }

  lemma {:induction false} IndexCount(log: seq<Fingerprint>, f: Fingerprint)
    ensures |Indices(log, f)| == Occurrences(log, f)
  {
    if log == [] {
      assert Indices(log, f) == {};
    } else {
      var n := |log| - 1;
      IndexCount(log[..n], f);
      OccurrencesAppend(log[..n], log[n], f);
      assert log == log[..n] + [log[n]];
      assert Indices(log, f) == Indices(log[..n], f) + if log[n] == f then {n} else {};
    }
  }

  ghost function Residues(hashes: seq<nat>, m: nat): set<nat>
    requires m > 0
  {
    set i | 0 <= i < |hashes| :: hashes[i] % m
  }

  lemma ResiduesAppend(hashes: seq<nat>, h: nat, m: nat)
    requires m > 0
    ensures Residues(hashes + [h], m) == Residues(hashes, m) + {h % m}
  {
    var more := hashes + [h];
    assert more[|hashes|] == h;
    forall x | x in Residues(hashes, m) ensures x in Residues(more, m) {
      var i :| 0 <= i < |hashes| && hashes[i] % m == x;
      assert more[i] == hashes[i];
    }
  }

  /** As many fingerprints as there are residues. */
  lemma {:induction false} PrintsCount(prints: seq<Fingerprint>, hashes: seq<nat>, n: nat, m: nat)
    requires n > 0 && m > 0 && |prints| == |hashes|
    requires forall i :: 0 <= i < |hashes| ==>
               prints[i].quotient < n && prints[i].quotient + n * prints[i].remainder == hashes[i] % m
    ensures |Distinct(prints)| == |Residues(hashes, m)|
  {
    if prints == [] {
      assert Distinct(prints) == {} && Residues(hashes, m) == {};
    } else {
      var last := |prints| - 1;
      var ps, hs := prints[..last], hashes[..last];
      PrintsCount(ps, hs, n, m);
      assert prints == ps + [prints[last]] && hashes == hs + [hashes[last]];
      DistinctAppend(ps, prints[last]);
      ResiduesAppend(hs, hashes[last], m);
      NewPrint(ps, hs, prints[last], hashes[last], n, m);
    }
  }

  lemma NewPrint(ps: seq<Fingerprint>, hs: seq<nat>, f: Fingerprint, h: nat, n: nat, m: nat)
    requires m > 0 && |ps| == |hs| && f.quotient < n && f.quotient + n * f.remainder == h % m
    requires forall i :: 0 <= i < |hs| ==>
               ps[i].quotient < n && ps[i].quotient + n * ps[i].remainder == hs[i] % m
    ensures f in Distinct(ps) <==> h % m in Residues(hs, m)
  {
    forall i | 0 <= i < |hs| ensures hs[i] % m == h % m <==> ps[i] == f {
      SplitUnique(ps[i], f, n);
    }
  }

  class CountingQuotientFilter {
    var remainders: seq<nat>
    var counts: seq<nat>
    var occupied: seq<bool>
    var continuation: seq<bool>
    var shifted: seq<bool>
    var len: nat
    const slots: nat
    const capacity: nat
    const remainderBits: nat

    // The lag of every slot, and the hashes of the accepted inserts in order, with their fingerprints.
    ghost var lag: seq<int>
    ghost var prints: seq<Fingerprint>
    ghost var accepted: seq<nat>

    ghost predicate Marked(extra: nat)
      reads this
    {
      |remainders| == |counts| == |lag| == slots && MarkedBy(lag, occupied, continuation, shifted, extra)
    }

    /** The tables hold the fingerprints accepted so far. */
    ghost predicate Packed()
      reads this
    {
      && |lag| == slots && IsPow2(slots) && 1 <= remainderBits <= 16
      && len <= capacity < slots
      && Consistent(lag, remainders, counts, occupied, continuation, shifted, len, prints)
    }

    ghost predicate Valid()
      reads this
    {
      && Packed() && |prints| == |accepted|
      && forall i :: 0 <= i < |accepted| ==> prints[i] == SplitHash(accepted[i])
    }

    /** The number of different fingerprints. */
    ghost function Modulus(): (m: nat)
      requires slots > 0
      ensures m == slots * Pow2(remainderBits) > 0
    {
      SplitModulus(0, slots, Pow2(remainderBits));
      slots * Pow2(remainderBits)
    }

    /** Two hashes that agree in the bits the filter looks at. */
    ghost predicate Alike(a: nat, b: nat)
      requires slots > 0
    {
      a % Modulus() == b % Modulus()
    }

    /** Slots: the least power of two that keeps the load at or below three quarters. */
    constructor (capacity: nat, remainderBits: nat)
      requires 1 <= remainderBits <= 16 && capacity <= MAX_CAPACITY
      ensures Valid() && accepted == []
      ensures this.capacity == capacity && this.remainderBits == remainderBits
      ensures IsPow2(slots) && slots >= 2 && 4 * capacity <= 3 * slots
      ensures forall k: nat :: Pow2(k) >= 2 && 4 * capacity <= 3 * Pow2(k) ==> slots <= Pow2(k)
    {
      var minSlots := (capacity * 4 + 2) / 3;
      var n := NextPowerOfTwo(if minSlots < 2 then 2 else minSlots);
      this.capacity := capacity;
      this.remainderBits := remainderBits;
      slots := n;
      remainders := seq(n, _ => 0);
      counts := seq(n, _ => 0);
      occupied := seq(n, _ => false);
      continuation := seq(n, _ => false);
      shifted := seq(n, _ => false);
      len := 0;
      lag := seq(n, _ => -1);
      prints := [];
      accepted := [];
      new;
      assert UsedSlots(lag) == {};
      assert Distinct(prints) == {};
    }

    /** The quotient and remainder of a hash: its low bits, and the bits just above them. */
    function SplitHash(hash: nat): (f: Fingerprint)
      requires slots > 0
      ensures f.quotient < slots && f.remainder < Pow2(remainderBits)
      ensures f.quotient + slots * f.remainder == hash % Modulus()
    {
      SplitModulus(hash, slots, Pow2(remainderBits));
      Fingerprint(hash % slots, (hash / slots) % Pow2(remainderBits))
    }

    predicate IsEmpty(i: nat)
      requires i < |occupied| && i < |continuation| && i < |shifted|
      reads this
    {
      !occupied[i] && !continuation[i] && !shifted[i]
    }

    method ClusterStart(quotient: nat, ghost b: nat, ghost q: nat, ghost extra: nat)
      returns (start: nat, ghost c: nat)
      requires Marked(extra) && Linear(lag, b)
      requires q < slots && quotient == Slot(b, q, slots) && LagAt(lag, b, q) >= 0
      ensures c <= q && start == Slot(b, c, slots) && LagAt(lag, b, c) == 0
      ensures forall t :: c < t <= q ==> LagAt(lag, b, t) > 0
    {
      start, c := quotient, q;
      while shifted[start]
        invariant c <= q && start == Slot(b, c, slots) && LagAt(lag, b, c) >= 0
        invariant forall t :: c < t <= q ==> LagAt(lag, b, t) > 0
        decreases c
      {
        assert HomeAt(lag, b, c) >= 0;
        assert HomeAt(lag, b, c - 1) <= HomeAt(lag, b, c);
        start, c := Previous(start, slots), c - 1;
      }
    }

    /** Steps past the run that position x0 belongs to. */
    method RunEnd(from_: nat, ghost b: nat, ghost x0: nat, ghost extra: nat) returns (run: nat, ghost x: nat)
      requires Marked(extra) && Linear(lag, b)
      requires x0 < slots && from_ == Slot(b, x0, slots) && LagAt(lag, b, x0) >= 0
      ensures x0 < x < slots && run == Slot(b, x, slots)
      ensures HomeAt(lag, b, x) > HomeAt(lag, b, x0)
      ensures forall t :: x0 <= t < x ==> HomeAt(lag, b, t) == HomeAt(lag, b, x0)
    {
      run, x := Next(from_, slots), x0 + 1;
      while continuation[run]
        invariant x0 < x < slots && run == Slot(b, x, slots)
        invariant forall t :: x0 <= t < x ==> HomeAt(lag, b, t) == HomeAt(lag, b, x0)
        decreases slots - x
      {
        assert Previous(run, slots) == Slot(b, x - 1, slots);
        run, x := Next(run, slots), x + 1;
      }
      assert Previous(run, slots) == Slot(b, x - 1, slots);
      assert HomeAt(lag, b, x - 1) <= HomeAt(lag, b, x);
    }

    /** Finds the first slot of the run of quotient, or, when the quotient has no
        run yet, the slot where its run belongs. */
    method RunStart(quotient: nat, ghost b: nat, ghost q: nat) returns (run: nat, ghost x: nat)
      requires Marked(quotient) && Linear(lag, b)
      requires q < slots && quotient == Slot(b, q, slots) && LagAt(lag, b, q) >= 0
      ensures q <= x < slots && run == Slot(b, x, slots)
      ensures FirstFrom(lag, b, q, q, x)
    {
      var bucket;
      ghost var c;
      bucket, c := ClusterStart(quotient, b, q, quotient);
      run, x := bucket, c;
      ghost var k, m := c, c;   // bucket's position, and the last marked quotient up to it
      ClusterBegins(lag, b, c);
      while bucket != quotient
        invariant c <= m <= k <= q && bucket == Slot(b, k, slots)
        invariant m <= x < slots && run == Slot(b, x, slots)
        invariant FirstFrom(lag, b, c, m, x) && (m < q ==> HomeAt(lag, b, x) == m)
        invariant NoRunBetween(lag, b, m, k)
        invariant k == q ==> m == q
        decreases q - k
      {
        bucket, k := Next(bucket, slots), k + 1;
        if occupied[bucket] {
          run, x := PassRun(run, b, q, c, m, k, x, quotient);
          m := k;
        } else {
          NoRunExtends(lag, b, m, k);
        }
      }
      FirstFromLater(lag, b, c, q, x);
    }

    method PassRun(from_: nat, ghost b: nat, ghost q: nat, ghost c: nat, ghost m: nat, ghost k: nat,
                   ghost x0: nat, ghost extra: nat) returns (run: nat, ghost x: nat)
      requires Marked(extra) && Linear(lag, b) && c <= m < k <= q < slots
      requires m <= x0 < slots && from_ == Slot(b, x0, slots)
      requires forall t :: c <= t <= q ==> LagAt(lag, b, t) >= 0
      requires FirstFrom(lag, b, c, m, x0) && HomeAt(lag, b, x0) == m
      requires NoRunBetween(lag, b, m, k - 1)
      requires k < q ==> HasRun(lag, Slot(b, k, slots))
      ensures k <= x < slots && run == Slot(b, x, slots)
      ensures FirstFrom(lag, b, c, k, x) && (k < q ==> HomeAt(lag, b, x) == k)
      ensures NoRunBetween(lag, b, k, k)
    {
      run, x := RunEnd(from_, b, x0, extra);
      NextRun(lag, b, q, c, m, k, x0, x);
    }

    /** The slot holding fingerprint f, if there is one. */
    method FindRemainder(f: Fingerprint) returns (found: bool, slot: nat)
      requires Packed() && f.quotient < slots
      ensures found <==> f in prints
      ensures found ==> EntryAt(lag, remainders, slot, f)
    {
      slot := 0;
      found := occupied[f.quotient];
      if found {
        ghost var b := LinearExists(lag);
        found, slot := ScanRun(f, b, Position(b, f.quotient, slots));
      }
    }

    method ScanRun(f: Fingerprint, ghost b: nat, ghost q: nat) returns (found: bool, slot: nat)
      requires Marked(slots) && Linear(lag, b)
      requires q < slots && f.quotient == Slot(b, q, slots) && HasRun(lag, f.quotient)
      ensures found ==> EntryAt(lag, remainders, slot, f)
      ensures !found ==> forall i: nat :: !EntryAt(lag, remainders, i, f)
    {
      RunStartsUsed(lag, b, q);
      ghost var x;
      slot, x := RunStart(f.quotient, b, q);
      FirstOfRun(lag, b, q, x);
      ghost var first := x;
      while true
        invariant q <= x < slots && slot == Slot(b, x, slots) && HomeAt(lag, b, x) == q
        invariant first <= x
        invariant forall t :: first <= t < x ==> remainders[Slot(b, t, slots)] != f.remainder
        decreases slots - x
      {
        HomeIsLinear(lag, b, x);
        if remainders[slot] == f.remainder {
          return true, slot;
        }
        var next := Next(slot, slots);
        if !continuation[next] {
          NotInRun(lag, remainders, f, b, q, first, x);
          return false, slot;
        }
        assert Previous(next, slots) == slot;
        slot, x := next, x + 1;
      }
    }

    /** The first empty slot at or after insertion. */
    method NextEmpty(insertion: nat, ghost b: nat, ghost p: nat, ghost extra: nat)
      returns (empty: nat, ghost e: nat)
      requires Marked(extra) && Linear(lag, b)
      requires extra < slots && lag[extra] >= 0
      requires p < slots && insertion == Slot(b, p, slots)
      ensures p <= e < slots && empty == Slot(b, e, slots) && LagAt(lag, b, e) == -1
      ensures forall t :: p <= t < e ==> LagAt(lag, b, t) >= 0
    {
      empty, e := insertion, p;
      UsedIfMarked(lag, b, e);
      while !IsEmpty(empty)
        invariant p <= e < slots && empty == Slot(b, e, slots)
        invariant LagAt(lag, b, e) >= 0 <==> HasRun(lag, empty) || IsShifted(lag, empty)
        invariant IsContinuation(lag, empty) ==> IsShifted(lag, empty)
        invariant forall t :: p <= t < e ==> LagAt(lag, b, t) >= 0
        decreases slots - e
      {
        empty, e := Next(empty, slots), e + 1;
        UsedIfMarked(lag, b, e);
      }
      assert HomeAt(lag, b, e) <= e + 1;
    }

    /** Moves the entries from insertion up to the empty slot one slot to the right. */
    method ShiftRightFrom(insertion: nat, empty_: nat, ghost b: nat, ghost p: nat, ghost e: nat)
      requires |remainders| == |counts| == |continuation| == |shifted| == slots
      requires b < slots && p <= e < slots && insertion == Slot(b, p, slots) && empty_ == Slot(b, e, slots)
      modifies this`remainders, this`counts, this`continuation, this`shifted
      ensures remainders == ShiftRight(old(remainders), b, p, e)
      ensures counts == ShiftRight(old(counts), b, p, e)
      ensures continuation == ShiftRight(old(continuation), b, p, e)
      ensures shifted == MarkStretch(old(shifted), b, p, e)
    {
      var empty := empty_;
      ghost var t := e;
      ShiftNone(remainders, b, e);
      ShiftNone(counts, b, e);
      ShiftNone(continuation, b, e);
      assert shifted == MarkStretch(shifted, b, e, e);
      while empty != insertion
        invariant p <= t <= e && empty == Slot(b, t, slots)
        invariant remainders == ShiftRight(old(remainders), b, t, e)
        invariant counts == ShiftRight(old(counts), b, t, e)
        invariant continuation == ShiftRight(old(continuation), b, t, e)
        invariant shifted == MarkStretch(old(shifted), b, t, e)
        decreases t
      {
        var source := Previous(empty, slots);
        ShiftOneMore(old(remainders), b, t, e);
        ShiftOneMore(old(counts), b, t, e);
        ShiftOneMore(old(continuation), b, t, e);
        MarkOneMore(old(shifted), b, t, e);
        assert source == Slot(b, t - 1, slots);
        remainders := remainders[empty := remainders[source]];
        counts := counts[empty := counts[source]];
        continuation := continuation[empty := continuation[source]];
        shifted := shifted[empty := true];
        empty, t := source, t - 1;
      }
    }

    /** The slot where a new entry of quotient goes: the end of its run, or the place its run belongs. */
    method InsertionSlot(quotient: nat, hadRun: bool, ghost b: nat, ghost q: nat) returns (insertion: nat, ghost p: nat)
      requires Marked(quotient) && Linear(lag, b)
      requires q < slots && quotient == Slot(b, q, slots) && LagAt(lag, b, q) >= 0
      requires hadRun <==> HasRun(lag, quotient)
      ensures q <= p < slots && insertion == Slot(b, p, slots)
      ensures HomeAt(lag, b, p) > q && (p > 0 ==> HomeAt(lag, b, p - 1) <= q)
    {
      insertion, p := RunStart(quotient, b, q);
      if hadRun {
        FirstOfRun(lag, b, q, p);
        while continuation[Next(insertion, slots)]
          invariant q <= p < slots && insertion == Slot(b, p, slots) && HomeAt(lag, b, p) == q
          decreases slots - p
        {
          insertion, p := Next(insertion, slots), p + 1;
          assert Previous(insertion, slots) == Slot(b, p - 1, slots);
        }
        insertion, p := Next(insertion, slots), p + 1;
        assert Previous(insertion, slots) == Slot(b, p - 1, slots);
      } else {
        RunBelongsAt(lag, b, q, p);
      }
    }

    /** Equal fingerprints mean alike hashes. */
    lemma SplitAlike(a: nat, b: nat)
      requires slots > 0
      ensures SplitHash(a) == SplitHash(b) <==> Alike(a, b)
    {
      SplitUnique(SplitHash(a), SplitHash(b), slots);
    }

    lemma PrintsAlike(hash: nat)
      requires Valid()
      ensures SplitHash(hash) in prints <==> exists i :: 0 <= i < |accepted| && Alike(accepted[i], hash)
    {
      forall i | 0 <= i < |accepted| ensures prints[i] == SplitHash(hash) <==> Alike(accepted[i], hash) {
        SplitAlike(accepted[i], hash);
      }
    }

    /** Inserts a value by its hash.  A fingerprint that is already present has its
        count raised; a new one is refused only when the filter is full. */
    method Insert(hash: nat) returns (ok: bool)
      requires Valid()
      modifies this
      ensures Valid()
      ensures ok <==> (exists i :: 0 <= i < |old(accepted)| && Alike(old(accepted)[i], hash)) || old(len) < capacity
      ensures accepted == if ok then old(accepted) + [hash] else old(accepted)
    {
      PrintsAlike(hash);
      ok := InsertPrint(SplitHash(hash));
      if ok {
        accepted := accepted + [hash];
      }
    }

    method InsertPrint(f: Fingerprint) returns (ok: bool)
      requires Packed() && f.quotient < slots
      modifies this
      ensures Packed() && accepted == old(accepted)
      ensures ok <==> f in old(prints) || old(len) < capacity
      ensures prints == if ok then old(prints) + [f] else old(prints)
    {
      var found, slot := FindRemainder(f);
      if found {
        Bump(slot, f);
        return true;
      }
      if len >= capacity {
        return false;
      }
      AddEntry(f);
      ok := true;
    }

    /** Membership: exactly when some accepted insert agrees in quotient and remainder. */
    method Contains(hash: nat) returns (r: bool)
      requires Valid()
      ensures r <==> exists i :: 0 <= i < |accepted| && Alike(accepted[i], hash)
    {
      PrintsAlike(hash);
      var slot;
      r, slot := FindRemainder(SplitHash(hash));
    }

    /** The accepted inserts that agree with the hash. */
    ghost function Matches(hash: nat): set<nat>
      requires slots > 0
      reads this
    {
      set i: nat | i < |accepted| && Alike(accepted[i], hash)
    }

    /** How many accepted inserts agree in quotient and remainder, capped at 65535. */
    method Count(hash: nat) returns (r: nat)
      requires Valid()
      ensures r == if |Matches(hash)| <= 65535 then |Matches(hash)| else 65535
    {
      var f := SplitHash(hash);
      var found, slot := FindRemainder(f);
      r := if found then counts[slot] else 0;
      IndexCount(prints, f);
      assert Indices(prints, f) == Matches(hash) by {
        forall i: nat | i < |accepted| ensures prints[i] == f <==> Alike(accepted[i], hash) {
          SplitAlike(accepted[i], hash);
        }
      }
    }

    /** The number of different fingerprints accepted. */
    function Len(): (r: nat)
      requires Valid()
      reads this
      ensures r == |Residues(accepted, Modulus())| <= capacity
    {
      LenMeans();
      len
    }

    lemma LenMeans()
      requires Valid()
      ensures len == |Residues(accepted, Modulus())| <= capacity
    {
      forall i | 0 <= i < |accepted|
        ensures prints[i].quotient < slots
        ensures prints[i].quotient + slots * prints[i].remainder == accepted[i] % Modulus()
      {
        assert prints[i] == SplitHash(accepted[i]);
      }
      PrintsCount(prints, accepted, slots, Modulus());
    }

    method Bump(slot: nat, ghost f: Fingerprint)
      requires Packed() && EntryAt(lag, remainders, slot, f)
      modifies this`counts, this`prints
      ensures Packed() && prints == old(prints) + [f]
    {
      RepresentsBump(lag, remainders, counts, prints, slot, f);
      DistinctAppend(prints, f);
      assert Distinct(prints) + {f} == Distinct(prints);
      counts := counts[slot := if counts[slot] < MAX_COUNT then counts[slot] + 1 else MAX_COUNT];
      prints := prints + [f];
    }

    /** Marks quotient as occupied and clears the slot its new entry belongs in. */
    method MakeRoom(quotient: nat, ghost b: nat, ghost q: nat)
      returns (insertion: nat, hadRun: bool, ghost p: nat, ghost e: nat)
      requires Marked(slots) && Linear(lag, b) && q < slots && quotient == Slot(b, q, slots)
      modifies this`remainders, this`counts, this`continuation, this`shifted, this`occupied
      ensures InsertionPoint(lag, b, q, p, e) && insertion == Slot(b, p, slots)
      ensures hadRun == old(occupied)[quotient] && occupied == old(occupied)[quotient := true]
      ensures remainders == ShiftRight(old(remainders), b, p, e)
      ensures counts == ShiftRight(old(counts), b, p, e)
      ensures continuation == ShiftRight(old(continuation), b, p, e)
      ensures shifted == MarkStretch(old(shifted), b, p, e)
    {
      insertion, p, e := quotient, q, q;
      hadRun := occupied[quotient];
      UsedIfMarked(lag, b, q);
      if IsEmpty(quotient) {
        occupied := occupied[quotient := true];
        EmptyHome(lag, b, q);
        ShiftNone(remainders, b, q);
        ShiftNone(counts, b, q);
        ShiftNone(continuation, b, q);
        assert MarkStretch(shifted, b, q, q) == shifted;
      } else {
        occupied := occupied[quotient := true];
        insertion, p := InsertionSlot(quotient, hadRun, b, q);
        var empty;
        empty, e := NextEmpty(insertion, b, p, quotient);
        ShiftRightFrom(insertion, empty, b, p, e);
      }
    }

    method AddEntry(f: Fingerprint)
      requires Packed() && f.quotient < slots && f !in prints && len < capacity
      modifies this
      ensures Packed() && prints == old(prints) + [f] && accepted == old(accepted)
    {
      ghost var b := LinearExists(lag);
      ghost var q := Position(b, f.quotient, slots);
      var insertion, hadRun;
      ghost var p, e;
      insertion, hadRun, p, e := MakeRoom(f.quotient, b, q);
      ConsistentInsert(lag, old(remainders), old(counts), old(occupied), old(continuation), old(shifted),
                       old(len), prints, b, q, p, e, f.remainder);
      WriteEntry(insertion, hadRun, f, InsertLag(lag, b, q, p, e));
    }

    /** Writes the entry into the slot that was made free for it. */
    method WriteEntry(insertion: nat, hadRun: bool, f: Fingerprint, ghost lags: seq<int>)
      requires |lags| == slots && IsPow2(slots) && 1 <= remainderBits <= 16 && len < capacity < slots
      requires insertion < |remainders| == |counts| == |continuation| == |shifted|
      requires Consistent(lags, remainders[insertion := f.remainder], counts[insertion := 1], occupied,
                          continuation[insertion := hadRun], shifted[insertion := insertion != f.quotient],
                          len + 1, prints + [f])
      modifies this
      ensures Packed() && prints == old(prints) + [f] && accepted == old(accepted)
    {
      remainders := remainders[insertion := f.remainder];
      counts := counts[insertion := 1];
      continuation := continuation[insertion := hadRun];
      shifted := shifted[insertion := insertion != f.quotient];
      len := len + 1;
      lag := lags;
      prints := prints + [f];
    }
  }

  /** The shifted bitmap with the positions (p, e] set. */
  function MarkStretch(s: seq<bool>, b: nat, p: nat, e: nat): (r: seq<bool>)
    requires b < |s| && p <= e < |s|
    ensures |r| == |s|
  {
    seq(|s|, i requires 0 <= i < |s| => p < Position(b, i, |s|) <= e || s[i])
  }

  lemma MarkOneMore(s: seq<bool>, b: nat, t: nat, e: nat)
    requires b < |s| && 0 < t <= e < |s|
    ensures MarkStretch(s, b, t, e)[Slot(b, t, |s|) := true] == MarkStretch(s, b, t - 1, e)
  {
    assert Position(b, Slot(b, t, |s|), |s|) == t;
    assert forall i: nat :: i < |s| && Position(b, i, |s|) == t ==> i == Slot(b, t, |s|);
  }

  /** The bitmaps describe the lags; quotient extra may be marked although it has no run yet. */
  ghost predicate MarkedBy(lag: seq<int>, occ: seq<bool>, cont: seq<bool>, sh: seq<bool>, extra: nat) {
    && |occ| == |cont| == |sh| == |lag|
    && (forall i :: 0 <= i < |lag| ==> sh[i] == IsShifted(lag, i))
    && (forall i :: 0 <= i < |lag| ==> cont[i] == IsContinuation(lag, i))
    && (forall i :: 0 <= i < |lag| ==> (occ[i] <==> HasRun(lag, i) || i == extra))
  }

  lemma InsertMarks(lag: seq<int>, b: nat, q: nat, p: nat, e: nat, occ: seq<bool>, cont: seq<bool>, sh: seq<bool>)
    requires MarkedBy(lag, occ, cont, sh, |lag|) && InsertionPoint(lag, b, q, p, e)
    ensures var home, s := Slot(b, q, |lag|), Slot(b, p, |lag|);
      MarkedBy(InsertLag(lag, b, q, p, e), occ[home := true], ShiftRight(cont, b, p, e)[s := occ[home]],
               MarkStretch(sh, b, p, e)[s := s != home], |lag|)
  {
    var n, home, s, lag' := |lag|, Slot(b, q, |lag|), Slot(b, p, |lag|), InsertLag(lag, b, q, p, e);
    var cont', sh' := ShiftRight(cont, b, p, e)[s := occ[home]], MarkStretch(sh, b, p, e)[s := s != home];
    forall i | 0 <= i < n ensures sh'[i] == IsShifted(lag', i) && cont'[i] == IsContinuation(lag', i) {
      InsertFlagsAt(lag, b, q, p, e, Position(b, i, n));
      ShiftRightAt(cont, b, p, e, Position(b, i, n));
    }
    forall i | 0 <= i < n ensures occ[home := true][i] <==> HasRun(lag', i) || i == n {
      InsertRuns(lag, b, q, p, e, i);
    }
  }

  ghost predicate Consistent(lag: seq<int>, rem: seq<nat>, cnt: seq<nat>,
                             occ: seq<bool>, cont: seq<bool>, sh: seq<bool>, len: nat, log: seq<Fingerprint>)
  {
    && WellLagged(lag)
    && MarkedBy(lag, occ, cont, sh, |lag|)
    && Represents(lag, rem, cnt, log)
    && |UsedSlots(lag)| == len == |Distinct(log)|
  }

  lemma ConsistentInsert(lag: seq<int>, rem: seq<nat>, cnt: seq<nat>,
                         occ: seq<bool>, cont: seq<bool>, sh: seq<bool>, len: nat, log: seq<Fingerprint>,
                         b: nat, q: nat, p: nat, e: nat, r: nat)
    requires Consistent(lag, rem, cnt, occ, cont, sh, len, log) && InsertionPoint(lag, b, q, p, e)
    requires Fingerprint(Slot(b, q, |lag|), r) !in log
    ensures var home, s := Slot(b, q, |lag|), Slot(b, p, |lag|);
      Consistent(InsertLag(lag, b, q, p, e), ShiftRight(rem, b, p, e)[s := r], ShiftRight(cnt, b, p, e)[s := 1],
                 occ[home := true], ShiftRight(cont, b, p, e)[s := occ[home]],
                 MarkStretch(sh, b, p, e)[s := s != home], len + 1, log + [Fingerprint(home, r)])
  {
    RepresentsInsert(lag, rem, cnt, log, b, q, p, e, r);
    InsertMarks(lag, b, q, p, e, occ, cont, sh);
    InsertKeepsLags(lag, b, q, p, e);
    InsertUsedSlots(lag, b, q, p, e);
    DistinctAppend(log, Fingerprint(Slot(b, q, |lag|), r));
  }

  /** An unused home slot is its own insertion point. */
  lemma EmptyHome(lag: seq<int>, b: nat, q: nat)
    requires Linear(lag, b) && q < |lag| && LagAt(lag, b, q) < 0
    ensures InsertionPoint(lag, b, q, q, q)
  {
    assert HomeAt(lag, b, q) <= q + 1;
    if q > 0 { assert HomeAt(lag, b, q - 1) <= q; }
  }

  lemma RunBelongsAt(lag: seq<int>, b: nat, q: nat, p: nat)
    requires Linear(lag, b) && q < |lag| && !HasRun(lag, Slot(b, q, |lag|))
    requires FirstFrom(lag, b, q, q, p)
    ensures HomeAt(lag, b, p) > q && (p > 0 ==> HomeAt(lag, b, p - 1) <= q)
  {
    HasRunLinear(lag, b, q);
    if p > 0 { assert HomeAt(lag, b, p - 1) <= p; }
  }

  /** A slot whose three marks are clear is unused, and conversely. */
  lemma UsedIfMarked(lag: seq<int>, b: nat, t: nat)
    requires Linear(lag, b) && t < |lag|
    ensures LagAt(lag, b, t) >= 0 <==> HasRun(lag, Slot(b, t, |lag|)) || IsShifted(lag, Slot(b, t, |lag|))
    ensures IsContinuation(lag, Slot(b, t, |lag|)) ==> IsShifted(lag, Slot(b, t, |lag|))
  {
    HasRunLinear(lag, b, t);
    if LagAt(lag, b, t) == 0 { assert HomeAt(lag, b, t) == t; }
    if u :| t <= u < |lag| && HomeAt(lag, b, u) == t { assert HomeAt(lag, b, t) <= HomeAt(lag, b, u); }
  }

  lemma DistinctAppend(log: seq<Fingerprint>, f: Fingerprint)
    ensures Distinct(log + [f]) == Distinct(log) + {f}
  {
  }

  ghost function Distinct(log: seq<Fingerprint>): set<Fingerprint> {
    set f | f in log
  }

  /** The home slot of a quotient that has a run is in use. */
  lemma RunStartsUsed(lag: seq<int>, b: nat, q: nat)
    requires Linear(lag, b) && q < |lag| && HasRun(lag, Slot(b, q, |lag|))
    ensures LagAt(lag, b, q) >= 0
  {
    HasRunLinear(lag, b, q);
    var t :| q <= t < |lag| && HomeAt(lag, b, t) == q;
    assert HomeAt(lag, b, q) <= HomeAt(lag, b, t);
  }

  /** x is the first position from c on whose home is at least m. */
  ghost predicate FirstFrom(lag: seq<int>, b: nat, c: nat, m: nat, x: nat) {
    && b < |lag| && c <= x < |lag|
    && HomeAt(lag, b, x) >= m
    && forall t :: c <= t < x ==> HomeAt(lag, b, t) < m
  }

  ghost predicate NoRunBetween(lag: seq<int>, b: nat, m: nat, k: nat)
    requires b < |lag|
  {
    forall t :: 0 <= t < |lag| && m < HomeAt(lag, b, t) <= k ==> LagAt(lag, b, t) == -1
  }

  lemma ClusterBegins(lag: seq<int>, b: nat, c: nat)
    requires Linear(lag, b) && c < |lag| && LagAt(lag, b, c) == 0
    ensures HomeAt(lag, b, c) == c && FirstFrom(lag, b, c, c, c) && NoRunBetween(lag, b, c, c)
  {
  }

  lemma FirstFromLater(lag: seq<int>, b: nat, c: nat, q: nat, x: nat)
    requires FirstFrom(lag, b, c, q, x) && c <= q <= x
    ensures FirstFrom(lag, b, q, q, x)
  {
  }

  lemma NoRunExtends(lag: seq<int>, b: nat, m: nat, k: nat)
    requires Linear(lag, b) && m < k < |lag| && NoRunBetween(lag, b, m, k - 1)
    requires !HasRun(lag, Slot(b, k, |lag|))
    ensures NoRunBetween(lag, b, m, k)
  {
    HasRunLinear(lag, b, k);
  }

  /** The run after the run of m is the run of the next marked quotient k, or where it belongs. */
  lemma NextRun(lag: seq<int>, b: nat, q: nat, c: nat, m: nat, k: nat, x0: nat, x: nat)
    requires Linear(lag, b) && c <= m < k <= q < |lag| && x0 < x < |lag|
    requires forall t :: c <= t <= q ==> LagAt(lag, b, t) >= 0
    requires FirstFrom(lag, b, c, m, x0) && HomeAt(lag, b, x0) == m && m <= x0
    requires HomeAt(lag, b, x) > m && forall t :: x0 <= t < x ==> HomeAt(lag, b, t) == m
    requires NoRunBetween(lag, b, m, k - 1)
    requires k < q ==> HasRun(lag, Slot(b, k, |lag|))
    ensures FirstFrom(lag, b, c, k, x) && k <= x && (k < q ==> HomeAt(lag, b, x) == k)
    ensures NoRunBetween(lag, b, k, k)
  {
    if k < q {
      HasRunLinear(lag, b, k);
      var t :| k <= t < |lag| && HomeAt(lag, b, t) == k;
      assert t >= x;
      assert HomeAt(lag, b, x) <= HomeAt(lag, b, t);
    }
  }

  lemma FirstOfRun(lag: seq<int>, b: nat, q: nat, x: nat)
    requires Linear(lag, b) && q <= x < |lag| && HasRun(lag, Slot(b, q, |lag|))
    requires FirstFrom(lag, b, q, q, x)
    ensures HomeAt(lag, b, x) == q
  {
    HasRunLinear(lag, b, q);
    var t :| q <= t < |lag| && HomeAt(lag, b, t) == q;
    assert HomeAt(lag, b, x) <= HomeAt(lag, b, t);
  }

  lemma NotInRun(lag: seq<int>, rem: seq<nat>, f: Fingerprint, b: nat, q: nat, first: nat, x: nat)
    requires |rem| == |lag| && Linear(lag, b)
    requires q <= x < |lag| && HomeAt(lag, b, x) == q && f.quotient == Slot(b, q, |lag|)
    requires FirstFrom(lag, b, q, q, first)
    requires !IsContinuation(lag, Next(Slot(b, x, |lag|), |lag|))
    requires forall t :: first <= t <= x ==> rem[Slot(b, t, |lag|)] != f.remainder
    ensures forall i: nat :: !EntryAt(lag, rem, i, f)
  {
    forall i: nat ensures !EntryAt(lag, rem, i, f) {
      if EntryAt(lag, rem, i, f) {
        PastRun(lag, b, q, first, x, Position(b, i, |lag|));
      }
    }
  }

  /** When the slot after x does not continue the run of q, every entry of that run is at or before x. */
  lemma PastRun(lag: seq<int>, b: nat, q: nat, first: nat, x: nat, t: nat)
    requires Linear(lag, b) && q <= x < |lag| && HomeAt(lag, b, x) == q && t < |lag|
    requires FirstFrom(lag, b, q, q, first)
    requires !IsContinuation(lag, Next(Slot(b, x, |lag|), |lag|))
    requires Holds(lag, Slot(b, t, |lag|), Slot(b, q, |lag|))
    ensures first <= t <= x
  {
    HomeIsLinear(lag, b, t);
    assert HomeAt(lag, b, t) == q;
    if x + 1 < |lag| {
      assert Previous(Slot(b, x + 1, |lag|), |lag|) == Slot(b, x, |lag|);
      assert HomeAt(lag, b, x + 1) > q;
    }
  }
}
