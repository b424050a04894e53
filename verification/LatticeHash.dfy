/** The homomorphic state hash (benches/math/lthash_backends.rs and
    src/incremental/lthash/lattice.rs): a vector of 16-bit lanes, the wrapping
    sum of one expanded vector per state entry.

    The expansion of an element to its lanes is free. */
module LatticeHash {
  import opened MapHistory
  import opened Wrappers

  const LANES: nat := 1024
  const LANE_MODULUS: nat := 0x1_0000

  type StateKey = (string, string)
  type State = map<StateKey, string>

  /** The lanes of one entry. */
  type Seed = (StateKey, string, nat) -> nat

  // ---- the reference: one lane's sum over a map, in no particular order ----

  ghost function Total(seed: Seed, m: State, lane: nat): int
    decreases |m|
  {
    if m == map[] then 0
    else
      var k :| k in m;
      assert |m - {k}| < |m| by { Smaller(m, k); }
      Total(seed, m - {k}, lane) + seed(k, m[k], lane)
  }

  lemma Smaller(m: State, k: StateKey)
    requires k in m
    ensures |m - {k}| == |m| - 1
  {
    assert (m - {k}).Keys == m.Keys - {k};
  }

  /** Any entry may be taken out first. */
  lemma {:induction false} TotalWithout(seed: Seed, m: State, k: StateKey, lane: nat)
    requires k in m
    ensures Total(seed, m, lane) == Total(seed, m - {k}, lane) + seed(k, m[k], lane)
    decreases |m|
  {
    var j :| j in m && Total(seed, m, lane) == Total(seed, m - {j}, lane) + seed(j, m[j], lane);
    if j != k {
      Smaller(m, j);
      Smaller(m, k);
      TotalWithout(seed, m - {j}, k, lane);
      TotalWithout(seed, m - {k}, j, lane);
      assert m - {j} - {k} == m - {k} - {j};
    }
  }

  lemma TotalPut(seed: Seed, m: State, k: StateKey, v: string, lane: nat)
    ensures Total(seed, m[k := v], lane) == Total(seed, m - {k}, lane) + seed(k, v, lane)
  {
    TotalWithout(seed, m[k := v], k, lane);
    assert m[k := v] - {k} == m - {k};
  }

  // ---- lane arithmetic ----

  function WrappingAdd(a: nat, b: nat): nat {
    (a + b) % LANE_MODULUS
  }

  function WrappingSub(a: nat, b: nat): nat {
    (a - b) % LANE_MODULUS
  }

  lemma Shift(x: int, b: int)
    ensures (x % LANE_MODULUS + b) % LANE_MODULUS == (x + b) % LANE_MODULUS
    ensures (x % LANE_MODULUS - b) % LANE_MODULUS == (x - b) % LANE_MODULUS
  {
    var q := x / LANE_MODULUS;
    assert x + b == (x % LANE_MODULUS + b) + q * LANE_MODULUS;
    assert x - b == (x % LANE_MODULUS - b) + q * LANE_MODULUS;
    Multiple(x % LANE_MODULUS + b, q);
    Multiple(x % LANE_MODULUS - b, q);
  }

  lemma Multiple(a: int, q: int)
    ensures (a + q * LANE_MODULUS) % LANE_MODULUS == a % LANE_MODULUS
  {
    var d := (a + q * LANE_MODULUS) / LANE_MODULUS - q - a / LANE_MODULUS;
    assert d * LANE_MODULUS == a % LANE_MODULUS - (a + q * LANE_MODULUS) % LANE_MODULUS;
  }

  // ---- the running accumulator ----

  type StateOp = Change<StateKey, string>

  ghost predicate IsTotal(seed: Seed, m: State, lanes: seq<nat>) {
    |lanes| == LANES && forall i: nat :: i < LANES ==> lanes[i] == Total(seed, m, i) % LANE_MODULUS
  }

  /** Lanes that agree with the wrapped sums are determined by the map. */
  lemma TotalUnique(seed: Seed, m: State, a: seq<nat>, b: seq<nat>)
    requires IsTotal(seed, m, a) && IsTotal(seed, m, b)
    ensures a == b
  {
  }

  class Lattice {
    const lanes: array<nat>

    constructor ()
      ensures fresh(lanes) && lanes.Length == LANES
      ensures forall i :: 0 <= i < LANES ==> lanes[i] == 0
    {
      lanes := new nat[LANES](_ => 0);
    }

    method AddSeed(seed: Seed, k: StateKey, v: string)
      requires lanes.Length == LANES
      modifies lanes
      ensures forall i: nat :: i < LANES ==> lanes[i] == WrappingAdd(old(lanes[i]), seed(k, v, i))
    {
      for i := 0 to LANES
        invariant forall j: nat :: j < LANES ==>
                    lanes[j] == if j < i then WrappingAdd(old(lanes[j]), seed(k, v, j)) else old(lanes[j])
      {
        lanes[i] := WrappingAdd(lanes[i], seed(k, v, i));
      }
    }

    method SubSeed(seed: Seed, k: StateKey, v: string)
      requires lanes.Length == LANES
      modifies lanes
      ensures forall i: nat :: i < LANES ==> lanes[i] == WrappingSub(old(lanes[i]), seed(k, v, i))
    {
      for i := 0 to LANES
        invariant forall j: nat :: j < LANES ==>
                    lanes[j] == if j < i then WrappingSub(old(lanes[j]), seed(k, v, j)) else old(lanes[j])
      {
        lanes[i] := WrappingSub(lanes[i], seed(k, v, i));
      }
    }

    /** Adds an entry that the map did not have. */
    method Insert(seed: Seed, ghost m: State, k: StateKey, v: string)
      requires IsTotal(seed, m, lanes[..]) && k !in m
      modifies lanes
      ensures IsTotal(seed, m[k := v], lanes[..])
    {
      AddSeed(seed, k, v);
      forall i: nat | i < LANES ensures lanes[i] == Total(seed, m[k := v], i) % LANE_MODULUS {
        TotalPut(seed, m, k, v, i);
        assert m - {k} == m;
        Shift(Total(seed, m, i), seed(k, v, i));
      }
    }

    /** Takes out an entry that the map has. */
    method Delete(seed: Seed, ghost m: State, k: StateKey, v: string)
      requires IsTotal(seed, m, lanes[..]) && k in m && m[k] == v
      modifies lanes
      ensures IsTotal(seed, m - {k}, lanes[..])
    {
      SubSeed(seed, k, v);
      forall i: nat | i < LANES ensures lanes[i] == Total(seed, m - {k}, i) % LANE_MODULUS {
        TotalWithout(seed, m, k, i);
        Shift(Total(seed, m, i), seed(k, v, i));
      }
    }
  }

  // ---- building from a list ----

  /** One lane's sum over a list of entries as it stands. */
  ghost function ListTotal(seed: Seed, entries: seq<(StateKey, string)>, lane: nat): int {
    if entries == [] then 0
    else
      var (k, v) := entries[|entries| - 1];
      ListTotal(seed, entries[..|entries| - 1], lane) + seed(k, v, lane)
  }

  ghost predicate IsListTotal(seed: Seed, entries: seq<(StateKey, string)>, lanes: seq<nat>) {
    |lanes| == LANES && forall i: nat :: i < LANES ==> lanes[i] == ListTotal(seed, entries, i) % LANE_MODULUS
  }

  /** Builds the accumulator of a list of entries; when the list is one of a map, in whatever order,
      the accumulator is the map's. */
  method BuildLattice(seed: Seed, entries: seq<(StateKey, string)>) returns (r: Lattice)
    ensures fresh(r) && fresh(r.lanes) && IsListTotal(seed, entries, r.lanes[..])
    ensures forall m :: Lists(entries, m) ==> IsTotal(seed, m, r.lanes[..])
  {
    r := new Lattice();
    for n := 0 to |entries|
      invariant fresh(r) && fresh(r.lanes) && IsListTotal(seed, entries[..n], r.lanes[..])
    {
      assert entries[..n + 1][..n] == entries[..n];
      ghost var before := r.lanes[..];
      r.AddSeed(seed, entries[n].0, entries[n].1);
      forall i: nat | i < LANES ensures r.lanes[i] == ListTotal(seed, entries[..n + 1], i) % LANE_MODULUS {
        assert before[i] == ListTotal(seed, entries[..n], i) % LANE_MODULUS;
        Shift(ListTotal(seed, entries[..n], i), seed(entries[n].0, entries[n].1, i));
      }
    }
    assert entries[..|entries|] == entries;
    forall m | Lists(entries, m) ensures IsTotal(seed, m, r.lanes[..]) {
      forall i: nat | i < LANES ensures ListTotal(seed, entries, i) == Total(seed, m, i) {
        ListingTotal(seed, entries, m, i);
      }
    }
  }

  /** Every listing of a map has the map's sum. */
  lemma {:induction false} ListingTotal(seed: Seed, entries: seq<(StateKey, string)>, m: State, lane: nat)
    requires Lists(entries, m)
    ensures ListTotal(seed, entries, lane) == Total(seed, m, lane)
    decreases |entries|
  {
    if entries == [] {
      assert m.Keys == {};
      assert m == map[];
    } else {
      var front, k := entries[..|entries| - 1], entries[|entries| - 1].0;
      ListsFront(entries, m);
      ListingTotal(seed, front, m - {k}, lane);
      TotalWithout(seed, m, k, lane);
    }
  }

  lemma ListsFront(entries: seq<(StateKey, string)>, m: State)
    requires Lists(entries, m) && entries != []
    ensures var k := entries[|entries| - 1].0; k in m && Lists(entries[..|entries| - 1], m - {k})
  {
    var front, e := entries[..|entries| - 1], entries[|entries| - 1];
    assert entries == front + [e];
    KeysAppend(front, e);
    assert forall i :: 0 <= i < |front| ==> front[i] == entries[i];
    assert e.0 !in Keys(front);
  }

  lemma KeysAppend(entries: seq<(StateKey, string)>, e: (StateKey, string))
    ensures Keys(entries + [e]) == Keys(entries) + {e.0}
  {
    var more := entries + [e];
    assert more[|entries|] == e;
    forall x | x in Keys(entries) ensures x in Keys(more) {
      var j :| 0 <= j < |entries| && entries[j].0 == x;
      assert more[j].0 == x;
    }
  }

  function Keys(entries: seq<(StateKey, string)>): set<StateKey> {
    set i | 0 <= i < |entries| :: entries[i].0
  }

  /** Each entry of the map once. */
  ghost predicate Lists(entries: seq<(StateKey, string)>, m: State) {
    && (forall i, j :: 0 <= i < j < |entries| ==> entries[i].0 != entries[j].0)
    && (forall i :: 0 <= i < |entries| ==> entries[i].0 in m && m[entries[i].0] == entries[i].1)
    && m.Keys == Keys(entries)
  }

  /** A state map with its accumulator. */
  class LiveState {
    var state: State
    const lattice: Lattice

    ghost predicate Valid(seed: Seed)
      reads this, lattice, lattice.lanes
    {
      IsTotal(seed, state, lattice.lanes[..])
    }

    constructor (seed: Seed, entries: seq<(StateKey, string)>, m: State)
      requires Lists(entries, m)
      ensures state == m && Valid(seed) && fresh(lattice) && fresh(lattice.lanes)
    {
      state := m;
      var built := BuildLattice(seed, entries);
      lattice := built;
    }

    /** One mutation of both: a displaced value is subtracted before the new one is added. */
    method ApplyOp(seed: Seed, op: StateOp)
      requires Valid(seed)
      modifies this, lattice.lanes
      ensures Changes(old(state), op, state) && Valid(seed)
    {
      ghost var m := state;
      match op
      case Put(k, v) =>
        var displaced := if k in state then Some(state[k]) else None;
        state := state[k := v];
        if displaced.Some? {
          lattice.Delete(seed, m, k, displaced.value);
          lattice.Insert(seed, m - {k}, k, v);
          assert (m - {k})[k := v] == state;
        } else {
          lattice.Insert(seed, m, k, v);
        }
      case Remove(k) =>
        if k in state {
          var removed := state[k];
          state := state - {k};
          lattice.Delete(seed, m, k, removed);
        }
    }

    /** Over every run of mutations each key holds what its last mutation left, and the accumulator stays
        the one of the current map. */
    method Run(seed: Seed, ops: seq<StateOp>)
      requires Valid(seed)
      modifies this, lattice.lanes
      ensures Leads(old(state), ops, state) && Valid(seed)
    {
      LeadsNowhere(state);
      for i := 0 to |ops|
        invariant Valid(seed) && Leads(old(state), ops[..i], state)
      {
        ghost var now := state;
        ApplyOp(seed, ops[i]);
        LeadsNext(old(state), ops[..i], now, ops[i], state);
        assert ops[..i] + [ops[i]] == ops[..i + 1];
      }
      assert ops[..|ops|] == ops;
    }

    /** Building from any listing of the current map gives the running lanes, whatever run led to it. */
    method Rebuilt(seed: Seed, entries: seq<(StateKey, string)>) returns (r: Lattice)
      requires Valid(seed) && Lists(entries, state)
      ensures fresh(r) && r.lanes[..] == lattice.lanes[..]
    {
      r := BuildLattice(seed, entries);
      TotalUnique(seed, state, r.lanes[..], lattice.lanes[..]);
    }
  }
}
