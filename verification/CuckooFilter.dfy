/** The cuckoo filter of benches/math/filters.rs: 16-bit fingerprints in
    four-slot buckets, each with two homes, relocated by kicks and backed by a
    small stash. */
module CuckooFilters {
  import opened Bitwise
  import opened Division
  import opened PowersOfTwo

  const BUCKET: nat := 4
  const MAX_KICKS: nat := 500
  const STASH: nat := 8

  /** What is fixed when a filter is created; mix is the hash of a fingerprint. */
  datatype Shape = Shape(tableBits: nat, fingerprintBits: nat, mix: nat -> nat)
  {
    function TableLen(): (r: nat)
      ensures r >= 1
    {
      Pow2(tableBits)
    }

    /** The bits of the hash above the lowest sixteen.  Never 0: 0 marks a free slot. */
    function Fingerprint(hash: nat): (fp: nat)
      ensures fp > 0
    {
      var raw := hash / 65536 % 65536 % Pow2(fingerprintBits);
      if raw < 1 then 1 else raw
    }

    /** A fingerprint and the sixteen bits below it make the low bits of the hash, except that 1 also
        stands for 0. */
    lemma FingerprintBits(hash: nat)
      requires fingerprintBits <= 16
      ensures var fp, low := Fingerprint(hash), hash % (65536 * Pow2(fingerprintBits));
        hash % 65536 + 65536 * fp == low || (fp == 1 && low < 65536)
    {
      SplitModulus(hash, 65536, Pow2(fingerprintBits));
      WordSize();
      Truncate(hash / 65536, fingerprintBits, 16, 65536);
    }

    function Primary(hash: nat): (b: nat)
      ensures b < TableLen() && (hash - b) % TableLen() == 0
    {
      var b := hash % TableLen();
      Remainder(hash - b, TableLen(), hash / TableLen(), 0);
      b
    }

    /** The other home of a fingerprint that is at home in bucket index. */
    function Alt(index: nat, fp: nat): (b: nat)
      ensures b < TableLen()
    {
      Xor(index, mix(fp) % TableLen()) % TableLen()
    }

    /** The two homes of a fingerprint differ by its own hash. */
    lemma AltDistance(index: nat, fp: nat)
      requires index < TableLen()
      ensures Xor(index, Alt(index, fp)) == mix(fp) % TableLen()
    {
      var m := mix(fp) % TableLen();
      XorBound(index, m, tableBits);
      SmallMod(Xor(index, m), TableLen());
      XorComm(index, m);
      XorTwice(m, index);
      XorComm(index, Xor(m, index));
    }

    ghost predicate Home(hash: nat, b: nat) {
      b == Primary(hash) || b == Alt(Primary(hash), Fingerprint(hash))
    }

    /** On a table whose length is a power of two, moving twice brings a fingerprint back. */
    lemma AltInvolution(index: nat, fp: nat)
      requires index < TableLen()
      ensures Alt(Alt(index, fp), fp) == index
    {
      var m := mix(fp) % TableLen();
      XorBound(index, m, tableBits);
      XorTwice(index, m);
      SmallMod(Xor(index, m), TableLen());
      SmallMod(index, TableLen());
    }

    /** The two homes of a value are each other's alternates. */
    lemma HomesSwap(hash: nat, b: nat)
      requires Home(hash, b)
      ensures Home(hash, Alt(b, Fingerprint(hash)))
    {
      AltInvolution(Primary(hash), Fingerprint(hash));
    }
  }

  /** Cutting to k bits after cutting to more is cutting to k bits. */
  lemma Truncate(x: nat, k: nat, j: nat, w: nat)
    requires k <= j && w > 0
    ensures w == Pow2(j) ==> x % w % Pow2(k) == x % Pow2(k)
  {
    var p, q := Pow2(k), Pow2(j - k);
    Pow2Add(k, j - k);
    SplitModulus(x, p, q);
    Remainder(x % Pow2(j), p, x / p % q, x % p);
  }

  lemma WordSize()
    ensures Pow2(16) == 65536
  {
    assert Pow2(4) == 16;
    assert Pow2(8) == 256;
    assert Pow2(12) == 4096;
  }

  lemma {:induction false} Pow2Add(a: nat, b: nat)
    ensures Pow2(a + b) == Pow2(a) * Pow2(b)
  {
    if b > 0 {
      Pow2Add(a, b - 1);
      Distribute(Pow2(a), Pow2(b - 1), Pow2(b - 1));
    }
  }

  lemma SmallMod(x: nat, n: nat)
    requires x < n
    ensures x % n == x
  {
  }

  /** The table is the least power of two of which twenty cover the need. */
  ghost predicate LeastTable(need: nat, bits: nat) {
    20 * Pow2(bits) >= need && forall k: nat :: 20 * Pow2(k) >= need ==> Pow2(k) >= Pow2(bits)
  }

  /** Rounding a twentieth up before the search for a power of two finds the least one that fits. */
  lemma RoundedUp(need: nat, bits: nat)
    requires bits == NextExponent((need + 19) / 20)
    ensures LeastTable(need, bits)
  {
    forall k: nat | 20 * Pow2(k) >= need ensures Pow2(k) >= Pow2(bits) {
      if k >= bits { Pow2Monotone(bits, k); }
    }
  }

  // ---- where a value is found ----

  type Buckets = seq<seq<nat>>

  ghost predicate WellSized(s: Shape, buckets: Buckets) {
    |buckets| == s.TableLen() && forall b :: 0 <= b < |buckets| ==> |buckets[b]| == BUCKET
  }

  function Put(buckets: Buckets, b: nat, slot: nat, fp: nat): (r: Buckets)
    requires b < |buckets| && slot < |buckets[b]|
    ensures |r| == |buckets| && |r[b]| == |buckets[b]| && r[b][slot] == fp
  {
    var row: seq<nat> := buckets[b][slot := fp];
    buckets[b := row]
  }

  ghost predicate InBuckets(s: Shape, buckets: Buckets, hash: nat)
    requires WellSized(s, buckets)
  {
    exists b: nat :: b < |buckets| && s.Home(hash, b) && s.Fingerprint(hash) in buckets[b]
  }

  /** Fingerprint fp, lifted out of the table and due in bucket b, stands for this value. */
  ghost predicate InHand(s: Shape, fp: nat, b: nat, hash: nat) {
    s.Fingerprint(hash) == fp && s.Home(hash, b)
  }

  /** Swapping the fingerprint in hand with the one in a slot of its bucket: every value that was in
      the table or in hand is in the table, or is now in hand at its other home. */
  lemma KickKeeps(s: Shape, buckets: Buckets, b: nat, slot: nat, fp: nat, hash: nat)
    requires WellSized(s, buckets) && b < |buckets| && slot < BUCKET
    requires InBuckets(s, buckets, hash) || InHand(s, fp, b, hash)
    ensures var victim, buckets' := buckets[b][slot], Put(buckets, b, slot, fp);
      WellSized(s, buckets') &&
      (InBuckets(s, buckets', hash) || InHand(s, victim, s.Alt(b, victim), hash))
  {
    var victim, buckets' := buckets[b][slot], Put(buckets, b, slot, fp);
    var own := s.Fingerprint(hash);
    if InHand(s, fp, b, hash) {
      assert buckets'[b][slot] == own;
      assert InBuckets(s, buckets', hash);
    } else {
      var c: nat :| c < |buckets| && s.Home(hash, c) && own in buckets[c];
      if c != b {
        assert own in buckets'[c];
      } else {
        var i :| 0 <= i < BUCKET && buckets[b][i] == own;
        if i == slot {
          s.HomesSwap(hash, b);
        } else {
          assert buckets'[b][i] == own;
          assert InBuckets(s, buckets', hash);
        }
      }
    }
  }

  /** Writing a fingerprint into a free slot of its bucket puts the values it stands for into the table. */
  lemma FillKeeps(s: Shape, buckets: Buckets, b: nat, slot: nat, fp: nat, hash: nat)
    requires WellSized(s, buckets) && b < |buckets| && slot < BUCKET && buckets[b][slot] == 0
    requires InBuckets(s, buckets, hash) || InHand(s, fp, b, hash)
    ensures var buckets' := Put(buckets, b, slot, fp);
      WellSized(s, buckets') && InBuckets(s, buckets', hash)
  {
    var buckets' := Put(buckets, b, slot, fp);
    var own := s.Fingerprint(hash);
    if InHand(s, fp, b, hash) {
      assert buckets'[b][slot] == own;
    } else {
      var c: nat :| c < |buckets| && s.Home(hash, c) && own in buckets[c];
      if c == b {
        var i :| 0 <= i < BUCKET && buckets[b][i] == own;
        assert buckets'[b][i] == own;
      }
    }
  }

  // ---- how many fingerprints the table holds ----

  function UsedIn(row: seq<nat>): nat {
    if row == [] then 0 else UsedIn(row[1..]) + if row[0] == 0 then 0 else 1
  }

  function Filled(buckets: Buckets): nat {
    if buckets == [] then 0 else UsedIn(buckets[0]) + Filled(buckets[1..])
  }

  lemma {:induction false} UsedInUpdate(row: seq<nat>, i: nat, fp: nat)
    requires i < |row| && fp != 0
    ensures UsedIn(row[i := fp]) == UsedIn(row) + if row[i] == 0 then 1 else 0
  {
    if i > 0 {
      assert row[i := fp][1..] == row[1..][i - 1 := fp];
      UsedInUpdate(row[1..], i - 1, fp);
    } else {
      assert row[i := fp][1..] == row[1..];
    }
  }

  /** Filling a free slot adds one fingerprint; replacing one by another adds none. */
  lemma {:induction false} FilledPut(buckets: Buckets, b: nat, slot: nat, fp: nat)
    requires b < |buckets| && slot < |buckets[b]| && fp != 0
    ensures Filled(Put(buckets, b, slot, fp)) == Filled(buckets) + if buckets[b][slot] == 0 then 1 else 0
  {
    var r := Put(buckets, b, slot, fp);
    if b > 0 {
      assert r[1..] == Put(buckets[1..], b - 1, slot, fp);
      FilledPut(buckets[1..], b - 1, slot, fp);
    } else {
      assert r[1..] == buckets[1..];
      UsedInUpdate(buckets[0], slot, fp);
    }
  }

  lemma {:induction false} UsedInAll(row: seq<nat>)
    requires 0 !in row
    ensures UsedIn(row) == |row|
  {
    if row != [] {
      assert row[0] in row;
      UsedInAll(row[1..]);
    }
  }

  /** A full bucket counts in full. */
  lemma {:induction false} FullBucket(buckets: Buckets, b: nat)
    requires b < |buckets| && 0 !in buckets[b]
    ensures Filled(buckets) >= |buckets[b]|
  {
    if b == 0 { UsedInAll(buckets[0]); } else { FullBucket(buckets[1..], b - 1); }
  }

  lemma {:induction false} UsedInNone(row: seq<nat>)
    requires forall i :: 0 <= i < |row| ==> row[i] == 0
    ensures UsedIn(row) == 0
  {
    if row != [] { UsedInNone(row[1..]); }
  }

  lemma {:induction false} FilledNone(n: nat, row: seq<nat>)
    requires UsedIn(row) == 0
    ensures Filled(seq(n, _ => row)) == 0
  {
    if n > 0 {
      assert seq(n, _ => row)[1..] == seq(n - 1, _ => row);
      FilledNone(n - 1, row);
    }
  }

  /** A fingerprint lifted out of the table by a failed insert, with the bucket it was due in. */
  type Loss = (nat, nat)

  ghost predicate Lost(s: Shape, dropped: seq<Loss>, hash: nat) {
    exists i :: 0 <= i < |dropped| && InHand(s, dropped[i].0, dropped[i].1, hash)
  }

  ghost predicate Findable(s: Shape, buckets: Buckets, stash: seq<nat>, hash: nat)
    requires WellSized(s, buckets)
  {
    InBuckets(s, buckets, hash) || s.Fingerprint(hash) in stash
  }

  /** Every value of log is findable, lost, or stands behind the fingerprint in hand. */
  ghost predicate Kept(s: Shape, buckets: Buckets, stash: seq<nat>, dropped: seq<Loss>, hand: seq<Loss>,
                       log: seq<nat>)
  {
    && WellSized(s, buckets)
    && forall h :: h in log ==> Findable(s, buckets, stash, h) || Lost(s, dropped, h) || Lost(s, hand, h)
  }

  /** Nothing is stored that was never offered: every fingerprint in the table is that of an offered value at home. */
  ghost predicate Genuine(s: Shape, buckets: Buckets, stash: seq<nat>, offered: seq<nat>) {
    && WellSized(s, buckets)
    && (forall b: nat, i: nat :: b < |buckets| && i < BUCKET && buckets[b][i] != 0 ==>
        Owed(s, offered, buckets[b][i], b))
    && (forall i :: 0 <= i < |stash| ==> Offered(s, offered, stash[i]))
  }

  /** Some offered value has this fingerprint. */
  ghost predicate Offered(s: Shape, offered: seq<nat>, fp: nat) {
    exists h :: h in offered && s.Fingerprint(h) == fp
  }

  ghost predicate Owed(s: Shape, offered: seq<nat>, fp: nat, b: nat) {
    exists h :: h in offered && InHand(s, fp, b, h)
  }

  lemma KeptKick(s: Shape, buckets: Buckets, stash: seq<nat>, dropped: seq<Loss>, b: nat, slot: nat, fp: nat,
                 log: seq<nat>)
    requires b < |buckets| && slot < BUCKET
    requires Kept(s, buckets, stash, dropped, [(fp, b)], log)
    ensures var victim := buckets[b][slot];
      Kept(s, Put(buckets, b, slot, fp), stash, dropped, [(victim, s.Alt(b, victim))], log)
  {
    var victim := buckets[b][slot];
    var buckets', hand' := Put(buckets, b, slot, fp), [(victim, s.Alt(b, victim))];
    forall h | h in log ensures Findable(s, buckets', stash, h) || Lost(s, dropped, h) || Lost(s, hand', h) {
      if InBuckets(s, buckets, h) || InHand(s, fp, b, h) {
        KickKeeps(s, buckets, b, slot, fp, h);
        assert hand'[0] == (victim, s.Alt(b, victim));
      }
    }
  }

  lemma KeptFill(s: Shape, buckets: Buckets, stash: seq<nat>, dropped: seq<Loss>, b: nat, slot: nat, fp: nat,
                 log: seq<nat>)
    requires b < |buckets| && slot < BUCKET && WellSized(s, buckets) && buckets[b][slot] == 0
    requires Kept(s, buckets, stash, dropped, [(fp, b)], log)
    ensures Kept(s, Put(buckets, b, slot, fp), stash, dropped, [], log)
  {
    var buckets' := Put(buckets, b, slot, fp);
    forall h | h in log ensures Findable(s, buckets', stash, h) || Lost(s, dropped, h) {
      if InBuckets(s, buckets, h) || InHand(s, fp, b, h) {
        FillKeeps(s, buckets, b, slot, fp, h);
      }
    }
  }

  lemma KeptStash(s: Shape, buckets: Buckets, stash: seq<nat>, dropped: seq<Loss>, fp: nat, b: nat, log: seq<nat>)
    requires Kept(s, buckets, stash, dropped, [(fp, b)], log)
    ensures Kept(s, buckets, stash + [fp], dropped, [], log)
  {
  }

  lemma KeptDrop(s: Shape, buckets: Buckets, stash: seq<nat>, dropped: seq<Loss>, fp: nat, b: nat, log: seq<nat>)
    requires Kept(s, buckets, stash, dropped, [(fp, b)], log)
    ensures Kept(s, buckets, stash, dropped + [(fp, b)], [], log)
  {
    var dropped' := dropped + [(fp, b)];
    forall h | h in log ensures Findable(s, buckets, stash, h) || Lost(s, dropped', h) {
      if Lost(s, [(fp, b)], h) {
        assert InHand(s, dropped'[|dropped|].0, dropped'[|dropped|].1, h);
      } else if Lost(s, dropped, h) {
        var i :| 0 <= i < |dropped| && InHand(s, dropped[i].0, dropped[i].1, h);
        assert dropped'[i] == dropped[i];
      }
    }
  }

  lemma KeptOffer(s: Shape, buckets: Buckets, stash: seq<nat>, dropped: seq<Loss>, log: seq<nat>, hash: nat, b: nat)
    requires Kept(s, buckets, stash, dropped, [], log) && s.Home(hash, b)
    ensures Kept(s, buckets, stash, dropped, [(s.Fingerprint(hash), b)], log + [hash])
  {
    var hand := [(s.Fingerprint(hash), b)];
    assert InHand(s, hand[0].0, hand[0].1, hash);
  }

  lemma GenuinePut(s: Shape, buckets: Buckets, stash: seq<nat>, offered: seq<nat>, b: nat, slot: nat, fp: nat)
    requires Genuine(s, buckets, stash, offered) && b < |buckets| && slot < BUCKET && Owed(s, offered, fp, b)
    ensures Genuine(s, Put(buckets, b, slot, fp), stash, offered)
    ensures var victim := buckets[b][slot]; victim != 0 ==> Owed(s, offered, victim, s.Alt(b, victim))
  {
    var victim := buckets[b][slot];
    if victim != 0 {
      var h :| h in offered && InHand(s, victim, b, h);
      s.HomesSwap(h, b);
    }
  }

  lemma GenuineOffer(s: Shape, buckets: Buckets, stash: seq<nat>, offered: seq<nat>, hash: nat, b: nat)
    requires Genuine(s, buckets, stash, offered) && s.Home(hash, b)
    ensures Genuine(s, buckets, stash, offered + [hash])
    ensures Owed(s, offered + [hash], s.Fingerprint(hash), b)
  {
    assert InHand(s, s.Fingerprint(hash), b, hash);
    forall c: nat, fp | Owed(s, offered, fp, c) ensures Owed(s, offered + [hash], fp, c) {
      var h :| h in offered && InHand(s, fp, c, h);
      assert h in offered + [hash];
    }
    forall i | 0 <= i < |stash| ensures Offered(s, offered + [hash], stash[i]) {
      assert Offered(s, offered, stash[i]);
      var h :| h in offered && s.Fingerprint(h) == stash[i];
      assert h in offered + [hash];
    }
  }

  lemma GenuineStash(s: Shape, buckets: Buckets, stash: seq<nat>, offered: seq<nat>, fp: nat, b: nat)
    requires Genuine(s, buckets, stash, offered) && Owed(s, offered, fp, b)
    ensures Genuine(s, buckets, stash + [fp], offered)
  {
  }

  // ---- what an insertion does to the table ----

  /** The table while a fingerprint is lifted out of it, due in a bucket. */
  datatype Moving = Moving(buckets: Buckets, at: nat, hand: nat)
  {
    ghost predicate Full() {
      at < |buckets| && 0 !in buckets[at]
    }
  }

  /** One relocation: the hand goes into the given slot of its bucket, and what was there is lifted out
      and due in its other home; no other slot changes. */
  ghost predicate Relocates(s: Shape, x: Moving, slot: nat, y: Moving) {
    && x.at < |x.buckets| && slot < |x.buckets[x.at]|
    && y.hand == x.buckets[x.at][slot] && y.at == s.Alt(x.at, y.hand)
    && |y.buckets| == |x.buckets|
    && (forall b :: 0 <= b < |x.buckets| && b != x.at ==> y.buckets[b] == x.buckets[b])
    && |y.buckets[x.at]| == |x.buckets[x.at]|
    && forall i :: 0 <= i < |x.buckets[x.at]| ==> y.buckets[x.at][i] == if i == slot then x.hand else x.buckets[x.at][i]
  }

  /** The i-th relocation uses slot i modulo the bucket size, and every bucket met before the last
      is full. */
  ghost predicate Relocations(s: Shape, trace: seq<Moving>) {
    && |trace| > 0
    && (forall i :: 0 <= i < |trace| - 1 ==> Relocates(s, trace[i], i % BUCKET, trace[i + 1]))
    && forall i :: 0 <= i < |trace| - 1 ==> trace[i].Full()
  }

  lemma RelocationsGrow(s: Shape, trace: seq<Moving>, y: Moving)
    requires Relocations(s, trace) && trace[|trace| - 1].Full()
    requires Relocates(s, trace[|trace| - 1], (|trace| - 1) % BUCKET, y)
    ensures Relocations(s, trace + [y])
  {
  }

  /** The hand is written into the first free slot of its bucket. */
  ghost predicate Settles(x: Moving, after: Buckets) {
    exists slot: nat :: SettlesAt(x, slot, after)
  }

  ghost predicate SettlesAt(x: Moving, slot: nat, after: Buckets) {
    && x.at < |x.buckets| && slot < |x.buckets[x.at]| && x.buckets[x.at][slot] == 0
    && (forall i :: 0 <= i < slot ==> x.buckets[x.at][i] != 0)
    && after == Put(x.buckets, x.at, slot, x.hand)
  }

  /** Relocations end where a bucket has a free slot, or after the last one allowed. */
  ghost predicate KickedIn(s: Shape, x: Moving, trace: seq<Moving>, after: Buckets) {
    && Relocations(s, trace) && trace[0] == x && 1 < |trace| <= MAX_KICKS + 1
    && Settles(trace[|trace| - 1], after)
  }

  ghost predicate KickedOut(s: Shape, x: Moving, trace: seq<Moving>, after: Buckets) {
    && Relocations(s, trace) && trace[0] == x && |trace| == MAX_KICKS + 1
    && trace[MAX_KICKS].Full() && trace[MAX_KICKS].buckets == after
  }

  /** With both homes full: the kicks find a free slot; or else the last hand goes to the stash, if there
      is room, and is refused if there is none. */
  ghost predicate Evicted(s: Shape, x: Moving, trace: seq<Moving>, after: Buckets,
                          stash: seq<nat>, stash': seq<nat>, ok: bool)
  {
    || (ok && KickedIn(s, x, trace, after) && stash' == stash)
    || (&& KickedOut(s, x, trace, after)
        && ok == (|stash| < STASH)
        && stash' == if ok then stash + [trace[MAX_KICKS].hand] else stash)
  }

  /** The whole effect of an insertion that is below capacity. */
  ghost predicate Inserted(s: Shape, hash: nat, before: Buckets, after: Buckets, stash: seq<nat>, stash': seq<nat>,
                           ok: bool)
  {
    var fp, idx := s.Fingerprint(hash), s.Primary(hash);
    var alt := s.Alt(idx, fp);
    if !Moving(before, idx, fp).Full() then ok && Settles(Moving(before, idx, fp), after) && stash' == stash
    else if !Moving(before, alt, fp).Full() then ok && Settles(Moving(before, alt, fp), after) && stash' == stash
    else exists trace :: Evicted(s, Moving(before, idx, fp), trace, after, stash, stash', ok)
  }

  class CuckooFilter {
    var buckets: Buckets
    var stash: seq<nat>
    var stashLen: nat
    var len: nat
    const shape: Shape
    const capacity: nat

    // Hashes of the inserts that returned true, of all inserts that got past the capacity check,
    // and the fingerprints that failed inserts left without a slot.
    ghost var accepted: seq<nat>
    ghost var offered: seq<nat>
    ghost var dropped: seq<Loss>

    ghost predicate Valid()
      reads this
    {
      && |stash| == STASH && stashLen <= STASH && len == |accepted| <= capacity
      && Kept(shape, buckets, stash[..stashLen], dropped, [], accepted)
      && Genuine(shape, buckets, stash[..stashLen], offered)
      && (dropped == [] ==> offered == accepted)
      && Filled(buckets) + stashLen + |dropped| == |offered|
    }

    constructor (capacity: nat, fingerprintBits: nat, mix: nat -> nat)
      requires 8 <= fingerprintBits <= 16
      ensures Valid() && accepted == [] && dropped == [] && this.capacity == capacity
      ensures shape.fingerprintBits == fingerprintBits && shape.mix == mix
      ensures LeastTable((capacity + 3) / 4 * 21, shape.tableBits)
    {
      var tableBits := NextExponent(((capacity + 3) / 4 * 21 + 19) / 20);
      RoundedUp((capacity + 3) / 4 * 21, tableBits);
      shape := Shape(tableBits, fingerprintBits, mix);
      var row: seq<nat> := seq(BUCKET, _ => 0);
      buckets := seq(Pow2(tableBits), _ => row);
      UsedInNone(row);
      FilledNone(Pow2(tableBits), row);
      stash := seq(STASH, _ => 0);
      stashLen, len := 0, 0;
      this.capacity := capacity;
      accepted, offered, dropped := [], [], [];
    }

    /** Writes fp into the first free slot of bucket b, if there is one. */
    method PlaceIn(b: nat, fp: nat) returns (ok: bool)
      requires WellSized(shape, buckets) && b < |buckets|
      modifies this`buckets
      ensures !ok ==> buckets == old(buckets) && 0 !in buckets[b]
      ensures ok ==> exists slot: nat :: slot < BUCKET && SettlesAt(Moving(old(buckets), b, fp), slot, buckets)
    {
      for slot := 0 to BUCKET
        invariant buckets == old(buckets) && forall i :: 0 <= i < slot ==> buckets[b][i] != 0
      {
        if buckets[b][slot] == 0 {
          buckets := Put(buckets, b, slot, fp);
          assert SettlesAt(Moving(old(buckets), b, fp), slot, buckets);
          return true;
        }
      }
      ok := false;
    }

    /** Writes the fingerprint in hand into its bucket, if a slot is free. */
    method Settle(b: nat, fp: nat, ghost log: seq<nat>) returns (ok: bool)
      requires |stash| == STASH && stashLen <= STASH && b < |buckets|
      requires Kept(shape, buckets, stash[..stashLen], dropped, [(fp, b)], log)
      requires Genuine(shape, buckets, stash[..stashLen], offered) && Owed(shape, offered, fp, b)
      modifies this`buckets
      ensures Genuine(shape, buckets, stash[..stashLen], offered)
      ensures ok ==> Kept(shape, buckets, stash[..stashLen], dropped, [], log)
      ensures ok ==> Filled(buckets) == Filled(old(buckets)) + 1
      ensures !ok ==> buckets == old(buckets) && 0 !in buckets[b]
      ensures ok ==> Settles(Moving(old(buckets), b, fp), buckets)
    {
      ok := PlaceIn(b, fp);
      if ok {
        ghost var slot: nat :| slot < BUCKET && SettlesAt(Moving(old(buckets), b, fp), slot, buckets);
        KeptFill(shape, old(buckets), stash[..stashLen], dropped, b, slot, fp, log);
        GenuinePut(shape, old(buckets), stash[..stashLen], offered, b, slot, fp);
        FilledPut(old(buckets), b, slot, fp);
      }
    }

    /** One relocation of the fingerprint in hand. */
    method Relocate(b: nat, slot: nat, fp: nat, ghost log: seq<nat>) returns (victim: nat, next: nat)
      requires |stash| == STASH && stashLen <= STASH && b < |buckets| && slot < BUCKET && 0 !in buckets[b]
      requires Kept(shape, buckets, stash[..stashLen], dropped, [(fp, b)], log)
      requires Genuine(shape, buckets, stash[..stashLen], offered) && Owed(shape, offered, fp, b)
      modifies this`buckets
      ensures Relocates(shape, Moving(old(buckets), b, fp), slot, Moving(buckets, next, victim))
      ensures next < |buckets| && Kept(shape, buckets, stash[..stashLen], dropped, [(victim, next)], log)
      ensures Genuine(shape, buckets, stash[..stashLen], offered) && Owed(shape, offered, victim, next)
      ensures Filled(buckets) == Filled(old(buckets))
    {
      assert buckets[b][slot] in buckets[b];
      KeptKick(shape, buckets, stash[..stashLen], dropped, b, slot, fp, log);
      GenuinePut(shape, buckets, stash[..stashLen], offered, b, slot, fp);
      FilledPut(buckets, b, slot, fp);
      victim := buckets[b][slot];
      buckets := Put(buckets, b, slot, fp);
      next := shape.Alt(b, victim);
    }

    /** Up to 500 relocations: each puts the fingerprint in hand into its bucket and lifts another one
        out, until one finds a free slot. */
    method Kick(b: nat, fp: nat, ghost log: seq<nat>)
      returns (ok: bool, victim: nat, ghost at: nat, ghost trace: seq<Moving>)
      requires |stash| == STASH && stashLen <= STASH && b < |buckets| && 0 !in buckets[b]
      requires Kept(shape, buckets, stash[..stashLen], dropped, [(fp, b)], log)
      requires Genuine(shape, buckets, stash[..stashLen], offered) && Owed(shape, offered, fp, b)
      modifies this`buckets
      ensures Genuine(shape, buckets, stash[..stashLen], offered)
      ensures ok ==> Kept(shape, buckets, stash[..stashLen], dropped, [], log)
      ensures !ok ==> Kept(shape, buckets, stash[..stashLen], dropped, [(victim, at)], log)
      ensures !ok ==> Owed(shape, offered, victim, at)
      ensures Filled(buckets) == Filled(old(buckets)) + if ok then 1 else 0
      ensures ok ==> KickedIn(shape, Moving(old(buckets), b, fp), trace, buckets)
      ensures !ok ==> KickedOut(shape, Moving(old(buckets), b, fp), trace, buckets) && victim == trace[MAX_KICKS].hand
    {
      var current: nat := b;
      victim := fp;
      trace := [Moving(buckets, b, fp)];
      for i := 0 to MAX_KICKS
        invariant current < |buckets| && 0 !in buckets[current]
        invariant Kept(shape, buckets, stash[..stashLen], dropped, [(victim, current)], log)
        invariant Genuine(shape, buckets, stash[..stashLen], offered) && Owed(shape, offered, victim, current)
        invariant Filled(buckets) == Filled(old(buckets))
        invariant |trace| == i + 1 && trace[0] == Moving(old(buckets), b, fp)
        invariant trace[i] == Moving(buckets, current, victim) && Relocations(shape, trace)
      {
        victim, current := Relocate(current, i % BUCKET, victim, log);
        ghost var now := Moving(buckets, current, victim);
        RelocationsGrow(shape, trace, now);
        trace := trace + [now];
        ok := Settle(current, victim, log);
        if ok {
          at := current;
          return;
        }
      }
      ok, at := false, current;
    }

    /** Kicks; then the stash; then, with a full stash, the fingerprint in hand is gone. */
    method KickOrStash(b: nat, fp: nat, ghost log: seq<nat>) returns (ok: bool, ghost trace: seq<Moving>)
      requires |stash| == STASH && stashLen <= STASH && b < |buckets| && 0 !in buckets[b]
      requires Kept(shape, buckets, stash[..stashLen], dropped, [(fp, b)], log)
      requires Genuine(shape, buckets, stash[..stashLen], offered) && Owed(shape, offered, fp, b)
      modifies this`buckets, this`stash, this`stashLen, this`dropped
      ensures |stash| == STASH && stashLen <= STASH
      ensures Kept(shape, buckets, stash[..stashLen], dropped, [], log)
      ensures Genuine(shape, buckets, stash[..stashLen], offered)
      ensures Filled(buckets) + stashLen + |dropped| == old(Filled(buckets) + stashLen + |dropped|) + 1
      ensures ok ==> dropped == old(dropped)
      ensures !ok ==> old(stashLen) == STASH && |dropped| == |old(dropped)| + 1 && old(dropped) <= dropped
      ensures Evicted(shape, Moving(old(buckets), b, fp), trace, buckets,
                      old(stash[..stashLen]), stash[..stashLen], ok)
    {
      var victim;
      ghost var at;
      ok, victim, at, trace := Kick(b, fp, log);
      if !ok {
        if stashLen < STASH {
          KeptStash(shape, buckets, stash[..stashLen], dropped, victim, at, log);
          GenuineStash(shape, buckets, stash[..stashLen], offered, victim, at);
          assert stash[stashLen := victim][..stashLen + 1] == stash[..stashLen] + [victim];
          stash := stash[stashLen := victim];
          stashLen := stashLen + 1;
          ok := true;
        } else {
          KeptDrop(shape, buckets, stash[..stashLen], dropped, victim, at, log);
          dropped := dropped + [(victim, at)];
        }
      }
    }

    /** The part of an insertion after the capacity check: both homes in turn, then the kicks. */
    method Place(hash: nat, ghost log: seq<nat>) returns (ok: bool)
      requires |stash| == STASH && stashLen <= STASH && |offered| > 0 && offered[|offered| - 1] == hash
      requires Kept(shape, buckets, stash[..stashLen], dropped, [], log)
      requires Genuine(shape, buckets, stash[..stashLen], offered[..|offered| - 1])
      modifies this`buckets, this`stash, this`stashLen, this`dropped
      ensures |stash| == STASH && stashLen <= STASH
      ensures Kept(shape, buckets, stash[..stashLen], dropped, [], log + [hash])
      ensures Genuine(shape, buckets, stash[..stashLen], offered)
      ensures Filled(buckets) + stashLen + |dropped| == old(Filled(buckets) + stashLen + |dropped|) + 1
      ensures ok ==> dropped == old(dropped)
      ensures !ok ==> old(stashLen) == STASH && |dropped| == |old(dropped)| + 1 && old(dropped) <= dropped
      ensures Inserted(shape, hash, old(buckets), buckets, old(stash[..stashLen]), stash[..stashLen], ok)
    {
      var fp, idx := shape.Fingerprint(hash), shape.Primary(hash);
      OfferAt(hash, idx, log);
      ok := Settle(idx, fp, log + [hash]);
      if !ok {
        var alt := shape.Alt(idx, fp);
        OfferAt(hash, alt, log);
        ok := Settle(alt, fp, log + [hash]);
      }
      if !ok {
        OfferAt(hash, idx, log);
        ghost var trace;
        ok, trace := KickOrStash(idx, fp, log + [hash]);
      }
    }

    lemma OfferAt(hash: nat, b: nat, log: seq<nat>)
      requires |stash| == STASH && stashLen <= STASH && |offered| > 0 && offered[|offered| - 1] == hash
      requires Kept(shape, buckets, stash[..stashLen], dropped, [], log) && shape.Home(hash, b)
      requires Genuine(shape, buckets, stash[..stashLen], offered[..|offered| - 1])
      ensures Kept(shape, buckets, stash[..stashLen], dropped, [(shape.Fingerprint(hash), b)], log + [hash])
      ensures Genuine(shape, buckets, stash[..stashLen], offered) && Owed(shape, offered, shape.Fingerprint(hash), b)
    {
      assert offered == offered[..|offered| - 1] + [hash];
      GenuineOffer(shape, buckets, stash[..stashLen], offered[..|offered| - 1], hash, b);
      KeptOffer(shape, buckets, stash[..stashLen], dropped, log, hash, b);
    }

    /** Inserts a value by its hash.  A refusal for lack of capacity changes nothing; a refusal after
        the kicks, with a full stash, leaves exactly one fingerprint without a slot. */
    method Insert(hash: nat) returns (ok: bool)
      requires Valid()
      modifies this
      ensures Valid()
      ensures ok ==> accepted == old(accepted) + [hash] && dropped == old(dropped)
      ensures !ok ==> accepted == old(accepted)
      ensures !ok && old(len) >= capacity ==>
                buckets == old(buckets) && stash == old(stash) && dropped == old(dropped) && offered == old(offered)
      ensures !ok && old(len) < capacity ==>
                old(stashLen) == STASH && |dropped| == |old(dropped)| + 1 && old(dropped) <= dropped
      ensures old(len) >= capacity ==> !ok
      ensures old(len) < capacity ==>
                Inserted(shape, hash, old(buckets), buckets, old(stash[..stashLen]), stash[..stashLen], ok)
    {
      if len >= capacity {
        return false;
      }
      ghost var log := accepted + [hash];
      offered := offered + [hash];
      ok := Place(hash, accepted);
      if ok {
        len := len + 1;
        accepted := log;
      }
    }

    /** Looks in both homes and in the stash. */
    method Contains(hash: nat) returns (r: bool)
      requires Valid()
      ensures r <==> Findable(shape, buckets, stash[..stashLen], hash)
      ensures hash in accepted ==> r || Lost(shape, dropped, hash)
      ensures hash in accepted && dropped == [] ==> r
      ensures r ==> Offered(shape, offered, shape.Fingerprint(hash))
    {
      var fp, idx := shape.Fingerprint(hash), shape.Primary(hash);
      var alt := shape.Alt(idx, fp);
      r := fp in buckets[idx] || fp in buckets[alt] || fp in stash[..stashLen];
      FindableWhere(shape, buckets, stash[..stashLen], hash);
      if r {
        FoundIsOwed(shape, buckets, stash[..stashLen], offered, hash);
      }
    }
  }

  lemma FindableWhere(s: Shape, buckets: Buckets, stash: seq<nat>, hash: nat)
    requires WellSized(s, buckets)
    ensures var fp := s.Fingerprint(hash);
      Findable(s, buckets, stash, hash) <==>
      fp in buckets[s.Primary(hash)] || fp in buckets[s.Alt(s.Primary(hash), fp)] || fp in stash
  {
    var fp := s.Fingerprint(hash);
    assert s.Home(hash, s.Primary(hash)) && s.Home(hash, s.Alt(s.Primary(hash), fp));
  }

  lemma FoundIsOwed(s: Shape, buckets: Buckets, stash: seq<nat>, offered: seq<nat>, hash: nat)
    requires Genuine(s, buckets, stash, offered) && Findable(s, buckets, stash, hash)
    ensures Offered(s, offered, s.Fingerprint(hash))
  {
    var fp := s.Fingerprint(hash);
    if InBuckets(s, buckets, hash) {
      var b: nat :| b < |buckets| && s.Home(hash, b) && fp in buckets[b];
      var i: nat :| i < BUCKET && buckets[b][i] == fp;
      assert Owed(s, offered, buckets[b][i], b);
      var h :| h in offered && InHand(s, fp, b, h);
    }
  }
}
