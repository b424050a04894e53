/** The linear-probed remainder table and the Bloom filter of benches/math/filters.rs. */
module ProbeFilters {
  import opened Counting
  import Division
  import opened PowersOfTwo
  import opened Ring

  // ---- remainder probing ----

  /** A lookup from q sees remainder r before any free slot. */
  ghost predicate Reaches(rem: seq<nat>, occupied: seq<bool>, r: nat, q: nat)
  {
    && |rem| == |occupied| && q < |rem|
    && exists k: nat :: k < |rem| && MatchAt(rem, occupied, r, q, k)
  }

  ghost predicate MatchAt(rem: seq<nat>, occupied: seq<bool>, r: nat, q: nat, k: nat)
    requires |rem| == |occupied| && q < |rem| && k < |rem|
  {
    && occupied[Slot(q, k, |rem|)] && rem[Slot(q, k, |rem|)] == r
    && forall j: nat :: j < k ==> occupied[Slot(q, j, |rem|)]
  }

  ghost function OccupiedSlots(occupied: seq<bool>): set<nat> {
    set i: nat | i < |occupied| && occupied[i]
  }

  lemma ReachesFill(rem: seq<nat>, occupied: seq<bool>, i: nat, v: nat, r: nat, q: nat)
    requires Reaches(rem, occupied, r, q) && i < |rem| && !occupied[i]
    ensures Reaches(rem[i := v], occupied[i := true], r, q)
  {
    var k: nat :| k < |rem| && MatchAt(rem, occupied, r, q, k);
    assert MatchAt(rem[i := v], occupied[i := true], r, q, k);
  }

  lemma FullTable(occupied: seq<bool>)
    requires forall i :: 0 <= i < |occupied| ==> occupied[i]
    ensures |OccupiedSlots(occupied)| == |occupied|
  {
    assert OccupiedSlots(occupied) == Below(|occupied|);
  }

  /** Remainder r lies in slot i, and every slot from q to there is occupied. */
  ghost predicate LeadsTo(rem: seq<nat>, occupied: seq<bool>, r: nat, q: nat, i: nat) {
    && |rem| == |occupied| && q < |rem| && i < |rem| && rem[i] == r
    && exists k: nat :: k < |rem| && Stretch(occupied, q, k, i)
  }

  ghost predicate Stretch(occupied: seq<bool>, q: nat, k: nat, i: nat)
    requires q < |occupied| && k < |occupied|
  {
    Slot(q, k, |occupied|) == i && forall j: nat :: j <= k ==> occupied[Slot(q, j, |occupied|)]
  }

  lemma LeadsToFill(rem: seq<nat>, occupied: seq<bool>, i: nat, v: nat, r: nat, q: nat, at: nat)
    requires LeadsTo(rem, occupied, r, q, at) && i < |rem| && !occupied[i]
    ensures LeadsTo(rem[i := v], occupied[i := true], r, q, at)
  {
    var k: nat :| k < |rem| && Stretch(occupied, q, k, at);
    assert occupied[Slot(q, k, |occupied|)];
    assert Stretch(occupied[i := true], q, k, at);
  }

  /** Slot pos is the first free slot from q on, and r is in none before it. */
  ghost predicate FirstFree(rem: seq<nat>, occupied: seq<bool>, r: nat, q: nat, pos: nat) {
    && |rem| == |occupied| && q < |rem|
    && exists k: nat :: k < |rem| && FreeAt(rem, occupied, r, q, k) && pos == Slot(q, k, |rem|)
  }

  ghost predicate FreeAt(rem: seq<nat>, occupied: seq<bool>, r: nat, q: nat, k: nat)
    requires |rem| == |occupied| && q < |rem| && k < |rem|
  {
    && !occupied[Slot(q, k, |rem|)]
    && forall j: nat :: j < k ==> occupied[Slot(q, j, |rem|)] && rem[Slot(q, j, |rem|)] != r
  }

  /** A remainder written into the first free slot is found from its home, and lies there. */
  lemma FillFirstFree(rem: seq<nat>, occupied: seq<bool>, r: nat, q: nat, pos: nat)
    requires FirstFree(rem, occupied, r, q, pos)
    ensures !occupied[pos] && Reaches(rem[pos := r], occupied[pos := true], r, q)
    ensures LeadsTo(rem[pos := r], occupied[pos := true], r, q, pos)
  {
    var k: nat :| k < |rem| && FreeAt(rem, occupied, r, q, k) && pos == Slot(q, k, |rem|);
    assert MatchAt(rem[pos := r], occupied[pos := true], r, q, k);
    assert Stretch(occupied[pos := true], q, k, pos);
  }

  /** Setting the lowest bit forgets that bit and nothing else. */
  lemma OddAgree(x: nat, y: nat)
    ensures var r, s := if x % 2 == 0 then x + 1 else x, if y % 2 == 0 then y + 1 else y;
      r == s <==> x / 2 == y / 2
  {
  }

  class RemainderProbeFilter {
    var rem: seq<nat>
    var occupied: seq<bool>
    var len: nat
    const slots: nat
    const capacity: nat
    const remainderBits: nat
    ghost var accepted: seq<nat>

    /** A table with a free slot. */
    ghost predicate Open()
      reads this
    {
      |rem| == |occupied| == slots && 1 <= remainderBits <= 17 && |OccupiedSlots(occupied)| < slots
    }

    ghost predicate Valid()
      reads this
    {
      && Open() && |OccupiedSlots(occupied)| == len <= capacity < slots
      && len <= |accepted|
      && (forall h :: h in accepted ==> Reaches(rem, occupied, Remainder(h), HomeSlot(h)))
      && AllOwned(accepted, rem, occupied)
    }

    /** The remainder in this slot is that of an accepted hash, whose home leads to the slot. */
    ghost predicate OwnedBy(log: seq<nat>, rem: seq<nat>, occupied: seq<bool>, i: nat)
      requires remainderBits <= 64 && slots > 0
    {
      exists h :: h in log && LeadsTo(rem, occupied, Remainder(h), HomeSlot(h), i)
    }

    ghost predicate AllOwned(log: seq<nat>, rem: seq<nat>, occupied: seq<bool>)
      requires remainderBits <= 64 && slots > 0
    {
      forall i: nat {:trigger OwnedBy(log, rem, occupied, i)} ::
        i < |occupied| && occupied[i] ==> OwnedBy(log, rem, occupied, i)
    }

    constructor (capacity: nat, remainderBits: nat)
      requires 1 <= remainderBits <= 17
      ensures Valid() && accepted == [] && this.capacity == capacity && this.remainderBits == remainderBits
      ensures slots >= 64 && 10 * slots >= 11 * capacity && (slots == 64 || 10 * (slots - 1) < 11 * capacity)
    {
      var n := (11 * capacity + 9) / 10;
      var size := if n < 64 then 64 else n;
      slots := size;
      this.capacity := capacity;
      this.remainderBits := remainderBits;
      rem := seq(size, _ => 0);
      occupied := seq(size, _ => false);
      len := 0;
      accepted := [];
      new;
      assert OccupiedSlots(occupied) == {};
    }

    /** The top bits of the hash, made odd. */
    function Remainder(hash: nat): (r: nat)
      requires remainderBits <= 64
      ensures r % 2 == 1
    {
      var top := hash / Pow2(64 - remainderBits);
      if top % 2 == 0 then top + 1 else top
    }

    /** Two hashes have one remainder if and only if their bits above the lowest remainder bit agree. */
    lemma RemainderAgree(a: nat, b: nat)
      requires 1 <= remainderBits <= 64
      ensures Remainder(a) == Remainder(b) <==> a / Pow2(65 - remainderBits) == b / Pow2(65 - remainderBits)
    {
      var unit := Pow2(64 - remainderBits);
      Halve(a, unit);
      Halve(b, unit);
      OddAgree(a / unit, b / unit);
    }

    /** The bits below the remainder, cut down to the table. */
    function HomeSlot(hash: nat): (q: nat)
      requires remainderBits <= 64 && slots > 0
      ensures q < slots
    {
      hash % Pow2(64 - remainderBits) % slots
    }

    /** The whole hash: its upper part, then the rounds of the table, then the home slot. */
    lemma HomeSlotMeans(hash: nat) returns (top: nat, rounds: nat)
      requires remainderBits <= 64 && slots > 0
      ensures hash == Pow2(64 - remainderBits) * top + slots * rounds + HomeSlot(hash)
      ensures hash < Pow2(64 - remainderBits) * top + Pow2(64 - remainderBits)
    {
      var unit := Pow2(64 - remainderBits);
      top := Division.Whole(hash, unit);
      rounds := Division.Whole(hash % unit, slots);
    }

    /** Probes from the home slot: stops at a free slot or at an equal remainder. */
    method Find(hash: nat) returns (pos: nat, stop: bool)
      requires Open()
      ensures pos < slots
      ensures stop <==> Reaches(rem, occupied, Remainder(hash), HomeSlot(hash))
      ensures stop ==> occupied[pos] && rem[pos] == Remainder(hash)
      ensures !stop ==> FirstFree(rem, occupied, Remainder(hash), HomeSlot(hash), pos)
    {
      var r, q := Remainder(hash), HomeSlot(hash);
      pos := q;
      for k := 0 to slots
        invariant k < slots ==> pos == Slot(q, k, slots)
        invariant pos < slots
        invariant forall j: nat :: j < k ==> occupied[Slot(q, j, slots)] && rem[Slot(q, j, slots)] != r
      {
        if !occupied[pos] {
          assert FreeAt(rem, occupied, r, q, k);
          return pos, false;
        }
        if rem[pos] == r {
          assert MatchAt(rem, occupied, r, q, k);
          return pos, true;
        }
        pos := if pos + 1 == slots then 0 else pos + 1;
      }
      NotFull(occupied, q);
      assert false;
    }

    /** Refuses only when the filter already holds capacity remainders.  A remainder that the lookup
        does not reach goes into the first free slot from its home; nothing else changes. */
    method Insert(hash: nat) returns (ok: bool)
      requires Valid()
      modifies this
      ensures Valid()
      ensures ok <==> old(len) < capacity
      ensures accepted == if ok then old(accepted) + [hash] else old(accepted)
      ensures !ok || old(Reaches(rem, occupied, Remainder(hash), HomeSlot(hash))) ==>
                rem == old(rem) && occupied == old(occupied) && len == old(len)
      ensures ok && !old(Reaches(rem, occupied, Remainder(hash), HomeSlot(hash))) ==>
                len == old(len) + 1 &&
                exists pos: nat ::
                  && FirstFree(old(rem), old(occupied), Remainder(hash), HomeSlot(hash), pos)
                  && rem == old(rem)[pos := Remainder(hash)] && occupied == old(occupied)[pos := true]
    {
      if len >= capacity {
        return false;
      }
      var pos, present := Find(hash);
      if present {
        AcceptFound(hash);
      } else {
        AcceptFill(hash, pos);
        assert OccupiedSlots(occupied[pos := true]) == OccupiedSlots(occupied) + {pos};
        rem := rem[pos := Remainder(hash)];
        occupied := occupied[pos := true];
        len := len + 1;
      }
      accepted := accepted + [hash];
      ok := true;
    }

    /** With its remainder within reach, a hash needs no slot of its own. */
    lemma AcceptFound(hash: nat)
      requires Valid()
      ensures AllOwned(accepted + [hash], rem, occupied)
    {
      forall i: nat | i < slots && occupied[i] ensures OwnedBy(accepted + [hash], rem, occupied, i) {
        assert OwnedBy(accepted, rem, occupied, i);
        var h :| h in accepted && LeadsTo(rem, occupied, Remainder(h), HomeSlot(h), i);
        assert h in accepted + [hash];
      }
    }

    /** Filling the first free slot keeps every accepted hash within reach and every slot owned. */
    lemma AcceptFill(hash: nat, pos: nat)
      requires Valid() && FirstFree(rem, occupied, Remainder(hash), HomeSlot(hash), pos)
      ensures var rem', occupied' := rem[pos := Remainder(hash)], occupied[pos := true];
        && (forall h :: h in accepted + [hash] ==> Reaches(rem', occupied', Remainder(h), HomeSlot(h)))
        && AllOwned(accepted + [hash], rem', occupied')
    {
      var rem', occupied' := rem[pos := Remainder(hash)], occupied[pos := true];
      FillFirstFree(rem, occupied, Remainder(hash), HomeSlot(hash), pos);
      forall h | h in accepted ensures Reaches(rem', occupied', Remainder(h), HomeSlot(h)) {
        ReachesFill(rem, occupied, pos, Remainder(hash), Remainder(h), HomeSlot(h));
      }
      forall i: nat | i < slots && occupied'[i] ensures OwnedBy(accepted + [hash], rem', occupied', i) {
        if i == pos {
          assert hash in accepted + [hash];
        } else {
          assert OwnedBy(accepted, rem, occupied, i);
          var h :| h in accepted && LeadsTo(rem, occupied, Remainder(h), HomeSlot(h), i);
          LeadsToFill(rem, occupied, pos, Remainder(hash), Remainder(h), HomeSlot(h), i);
          assert h in accepted + [hash];
        }
      }
    }

    /** Never denies an accepted hash, and admits no hash whose upper bits are those of no accepted one. */
    method Contains(hash: nat) returns (r: bool)
      requires Valid()
      ensures hash in accepted ==> r
      ensures r <==> Reaches(rem, occupied, Remainder(hash), HomeSlot(hash))
      ensures r ==> exists a :: a in accepted && a / Pow2(65 - remainderBits) == hash / Pow2(65 - remainderBits)
    {
      var pos;
      pos, r := Find(hash);
      if r {
        assert OwnedBy(accepted, rem, occupied, pos);
        ghost var a :| a in accepted && LeadsTo(rem, occupied, Remainder(a), HomeSlot(a), pos);
        RemainderAgree(a, hash);
      }
    }
  }

  /** Dividing by twice as much halves the quotient. */
  lemma Halve(x: nat, unit: nat)
    requires unit > 0
    ensures x / (2 * unit) == x / unit / 2
  {
    var q, w := x / unit, x / unit / 2;
    Division.SplitModulus(x, unit, 2);
    Division.Distribute(unit, 2 * w, q % 2);
    var d := x / (2 * unit) - w;
    Division.Distribute(2 * unit, d, w);
    Division.SmallMultiple(2 * unit, d);
  }

  /** A full round of occupied probes means that every slot is occupied. */
  lemma NotFull(occupied: seq<bool>, q: nat)
    requires q < |occupied| && |OccupiedSlots(occupied)| < |occupied|
    ensures exists j: nat :: j < |occupied| && !occupied[Slot(q, j, |occupied|)]
  {
    var n := |occupied|;
    if forall j: nat :: j < n ==> occupied[Slot(q, j, n)] {
      forall i | 0 <= i < n ensures occupied[i] {
        var j: nat := if q <= i then i - q else i - q + n;
        assert Slot(q, j, n) == i;
      }
      FullTable(occupied);
    }
  }

  // ---- Bloom ----

  class BloomFilter {
    var bits: seq<bool>
    var len: nat
    const capacity: nat
    const numBits: nat
    const numHashes: nat
    const position: (nat, nat) -> nat   // the double-hashed position before reduction to the bitmap
    ghost var accepted: seq<nat>

    /** Bit j is one of the first k probe positions of this hash. */
    ghost predicate Probes(hash: nat, k: nat, j: nat)
      requires numBits > 0
    {
      exists i: nat :: i < k && position(hash, i) % numBits == j
    }

    ghost predicate ProbedBy(log: seq<nat>, j: nat)
      requires numBits > 0
    {
      exists h :: h in log && Probes(h, numHashes, j)
    }

    /** The set bits are exactly the probe positions of the accepted hashes. */
    ghost predicate Valid()
      reads this
    {
      && |bits| == numBits >= 64 && len == |accepted| <= capacity
      && forall j: nat :: j < numBits ==> (bits[j] <==> ProbedBy(accepted, j))
    }

    constructor (capacity: nat, numBits: nat, numHashes: nat, position: (nat, nat) -> nat)
      requires numBits >= 64 && numHashes >= 1
      ensures Valid() && accepted == [] && this.capacity == capacity
      ensures this.numBits == numBits && this.numHashes == numHashes && this.position == position
    {
      bits := seq(numBits, _ => false);
      len := 0;
      this.capacity := capacity;
      this.numBits := numBits;
      this.numHashes := numHashes;
      this.position := position;
      accepted := [];
    }

    method Insert(hash: nat) returns (ok: bool)
      requires Valid()
      modifies this
      ensures Valid()
      ensures ok <==> old(len) < capacity
      ensures accepted == if ok then old(accepted) + [hash] else old(accepted)
      ensures !ok ==> bits == old(bits) && len == old(len)
    {
      if len >= capacity {
        return false;
      }
      for i := 0 to numHashes
        invariant |bits| == numBits && accepted == old(accepted) && len == old(len)
        invariant forall j: nat :: j < numBits ==> (bits[j] <==> old(bits)[j] || Probes(hash, i, j))
      {
        MoreProbes(hash, i);
        bits := bits[position(hash, i) % numBits := true];
      }
      MoreProbed(accepted, hash);
      len := len + 1;
      accepted := accepted + [hash];
      ok := true;
    }

    lemma MoreProbes(hash: nat, i: nat)
      requires numBits > 0
      ensures forall j :: Probes(hash, i + 1, j) <==> Probes(hash, i, j) || j == position(hash, i) % numBits
    {
    }

    lemma MoreProbed(log: seq<nat>, hash: nat)
      requires numBits > 0
      ensures forall j :: ProbedBy(log + [hash], j) <==> ProbedBy(log, j) || Probes(hash, numHashes, j)
    {
      forall j ensures ProbedBy(log + [hash], j) <==> ProbedBy(log, j) || Probes(hash, numHashes, j) {
        if ProbedBy(log, j) {
          var h :| h in log && Probes(h, numHashes, j);
          assert h in log + [hash];
        } else if Probes(hash, numHashes, j) {
          assert hash in log + [hash];
        }
      }
    }

    /** True if and only if accepted hashes account for every probe position; so never false for an
        accepted hash. */
    method Contains(hash: nat) returns (r: bool)
      requires Valid()
      ensures r <==> forall i: nat :: i < numHashes ==> ProbedBy(accepted, position(hash, i) % numBits)
      ensures hash in accepted ==> r
    {
      for i := 0 to numHashes
        invariant forall j: nat :: j < i ==> ProbedBy(accepted, position(hash, j) % numBits)
      {
        if !bits[position(hash, i) % numBits] {
          assert Probes(hash, numHashes, position(hash, i) % numBits);
          return false;
        }
      }
      r := true;
    }
  }
}
