/** State-group chains (benches/db/state_groups.rs): full snapshots and one-row
    deltas against a parent, against the flat map they stand for. */
module StateGroups {
  import opened MapHistory
  import opened Wrappers

  const SNAPSHOT_EVERY: nat := 100

  type Key = string
  type Value = string
  type State = map<Key, Value>
  type Row = (Key, Value)

  datatype Group = Snapshot(state: State) | Delta(parent: nat, row: Row)

  /** Parents come before their deltas. */
  ghost predicate Grounded(groups: seq<Group>) {
    forall i :: 0 <= i < |groups| && groups[i].Delta? ==> groups[i].parent < i
  }

  /** The whole state a group stands for. */
  ghost function StateAt(groups: seq<Group>, i: nat): State
    requires Grounded(groups) && i < |groups|
  {
    match groups[i]
    case Snapshot(m) => m
    case Delta(p, row) => StateAt(groups, p)[row.0 := row.1]
  }

  /** The number of groups from i back to the nearest snapshot, both counted. */
  ghost function ToSnapshot(groups: seq<Group>, i: nat): nat
    requires Grounded(groups) && i < |groups|
  {
    match groups[i]
    case Snapshot(_) => 1
    case Delta(p, _) => ToSnapshot(groups, p) + 1
  }

  /** The number of groups a lookup of k visits from i: back to the first delta of k or snapshot. */
  ghost function Visits(groups: seq<Group>, i: nat, k: Key): nat
    requires Grounded(groups) && i < |groups|
  {
    match groups[i]
    case Snapshot(_) => 1
    case Delta(p, row) => if row.0 == k then 1 else Visits(groups, p, k) + 1
  }

  lemma {:induction false} VisitsBounded(groups: seq<Group>, i: nat, k: Key)
    requires Grounded(groups) && i < |groups|
    ensures 1 <= Visits(groups, i, k) <= ToSnapshot(groups, i)
    decreases i
  {
    if groups[i].Delta? { VisitsBounded(groups, groups[i].parent, k); }
  }

  function Get(m: State, k: Key): (r: Option<Value>)
    ensures r.Some? <==> k in m
    ensures r.Some? ==> r.value == m[k]
  {
    if k in m then Some(m[k]) else None
  }

  /** Walks back from a group until a delta of the key or a snapshot. */
  method ChainLookup(groups: seq<Group>, i: nat, k: Key) returns (v: Option<Value>, hops: nat)
    requires Grounded(groups) && i < |groups|
    ensures v == Get(StateAt(groups, i), k)
    ensures hops == Visits(groups, i, k) <= ToSnapshot(groups, i)
  {
    VisitsBounded(groups, i, k);
    var idx: nat := i;
    hops := 0;
    while true
      invariant idx < |groups| && Get(StateAt(groups, idx), k) == Get(StateAt(groups, i), k)
      invariant hops + Visits(groups, idx, k) == Visits(groups, i, k)
      decreases idx
    {
      hops := hops + 1;
      match groups[idx]
      case Snapshot(m) => return Get(m, k), hops;
      case Delta(p, row) =>
        if row.0 == k {
          return Some(row.1), hops;
        }
        idx := p;
    }
  }

  /** The flat map after a stream of mutations. */
  ghost function Flat(m: State, rows: seq<Row>): State {
    if rows == [] then m
    else Flat(m, rows[..|rows| - 1])[rows[|rows| - 1].0 := rows[|rows| - 1].1]
  }

  /** In it each key has the value of its last mutation, or its first value. */
  lemma {:induction false} FlatLeads(m: State, rows: seq<Row>)
    ensures Leads(m, Puts(rows), Flat(m, rows))
  {
    if rows == [] {
      LeadsNowhere(m);
      assert Puts(rows) == [];
    } else {
      var front, row := rows[..|rows| - 1], rows[|rows| - 1];
      FlatLeads(m, front);
      assert Puts(rows) == Puts(front) + [Put(row.0, row.1)];
      LeadsNext(m, Puts(front), Flat(m, front), Put(row.0, row.1), Flat(m, rows));
    }
  }

  lemma {:induction false} AppendKeeps(groups: seq<Group>, g: Group, i: nat)
    requires Grounded(groups) && Grounded(groups + [g]) && i < |groups|
    ensures StateAt(groups + [g], i) == StateAt(groups, i)
    ensures ToSnapshot(groups + [g], i) == ToSnapshot(groups, i)
    decreases i
  {
    assert (groups + [g])[i] == groups[i];
    if groups[i].Delta? { AppendKeeps(groups, g, groups[i].parent); }
  }

  /** Group i stands for the flat map after i mutations. */
  ghost predicate Tracks(groups: seq<Group>, m: State, rows: seq<Row>) {
    && Grounded(groups) && |groups| == |rows| + 1
    && forall i: nat :: i < |groups| ==> StateAt(groups, i) == Flat(m, rows[..i])
  }

  lemma TracksNext(groups: seq<Group>, m: State, rows: seq<Row>, row: Row, g: Group)
    requires Tracks(groups, m, rows)
    requires g == Delta(|groups| - 1, row) || g == Snapshot(Flat(m, rows)[row.0 := row.1])
    ensures Tracks(groups + [g], m, rows + [row])
    ensures forall i: nat :: i < |groups| ==> ToSnapshot(groups + [g], i) == ToSnapshot(groups, i)
  {
    var more, next := groups + [g], rows + [row];
    assert Grounded(more);
    forall i: nat | i < |groups|
      ensures StateAt(more, i) == Flat(m, next[..i]) && ToSnapshot(more, i) == ToSnapshot(groups, i)
    {
      AppendKeeps(groups, g, i);
      assert next[..i] == rows[..i];
    }
    assert rows[..|rows|] == rows && next[..|groups|] == next;
    LastState(groups, Flat(m, rows), row, g);
    FlatNext(m, rows, row);
  }

  lemma FlatNext(m: State, rows: seq<Row>, row: Row)
    ensures Flat(m, rows + [row]) == Flat(m, rows)[row.0 := row.1]
  {
    assert (rows + [row])[..|rows|] == rows;
  }

  lemma LastState(groups: seq<Group>, flat: State, row: Row, g: Group)
    requires |groups| > 0 && Grounded(groups) && Grounded(groups + [g]) && StateAt(groups, |groups| - 1) == flat
    requires g == Delta(|groups| - 1, row) || g == Snapshot(flat[row.0 := row.1])
    ensures StateAt(groups + [g], |groups|) == flat[row.0 := row.1]
  {
    AppendKeeps(groups, g, |groups| - 1);
    assert (groups + [g])[|groups|] == g;
  }

  /** In group i each key has the value of its last row up to there, or its first value. */
  lemma GroupLeads(groups: seq<Group>, m: State, rows: seq<Row>, i: nat)
    requires Tracks(groups, m, rows) && i < |groups|
    ensures Leads(m, Puts(rows[..i]), StateAt(groups, i))
  {
    FlatLeads(m, rows[..i]);
  }

  /** A chain without further snapshots. */
  method WriteUnbounded(m: State, rows: seq<Row>) returns (groups: seq<Group>)
    ensures Tracks(groups, m, rows)
    ensures forall i: nat :: i < |groups| ==> ToSnapshot(groups, i) == i + 1
  {
    groups := [Snapshot(m)];
    for s := 0 to |rows|
      invariant Tracks(groups, m, rows[..s])
      invariant forall i: nat :: i < |groups| ==> ToSnapshot(groups, i) == i + 1
    {
      assert rows[..s + 1] == rows[..s] + [rows[s]];
      var g := Delta(|groups| - 1, rows[s]);
      TracksNext(groups, m, rows[..s], rows[s], g);
      assert (groups + [g])[|groups|] == g;
      groups := groups + [g];
    }
    assert rows[..|rows|] == rows;
  }

  /** Every SNAPSHOT_EVERY-th group is a snapshot, so none is further than that from one. */
  ghost predicate Spaced(groups: seq<Group>) {
    Grounded(groups) && forall i: nat :: i < |groups| ==> ToSnapshot(groups, i) == i % SNAPSHOT_EVERY + 1
  }

  lemma SpacedNext(groups: seq<Group>, g: Group)
    requires Spaced(groups) && |groups| > 0
    requires if |groups| % SNAPSHOT_EVERY == 0 then g.Snapshot? else g.Delta? && g.parent == |groups| - 1
    ensures Spaced(groups + [g])
  {
    var more := groups + [g];
    assert Grounded(more);
    forall i: nat | i < |groups| ensures ToSnapshot(more, i) == i % SNAPSHOT_EVERY + 1 {
      AppendKeeps(groups, g, i);
    }
    assert more[|groups|] == g;
  }

  /** A chain with a snapshot after every SNAPSHOT_EVERY mutations. */
  method WriteBounded(m: State, rows: seq<Row>) returns (groups: seq<Group>)
    ensures Tracks(groups, m, rows)
    ensures Spaced(groups)
  {
    groups := [Snapshot(m)];
    var flat := m;
    for s := 0 to |rows|
      invariant Tracks(groups, m, rows[..s]) && flat == Flat(m, rows[..s])
      invariant Spaced(groups)
    {
      assert rows[..s + 1] == rows[..s] + [rows[s]];
      flat := flat[rows[s].0 := rows[s].1];
      var g := if (s + 1) % SNAPSHOT_EVERY == 0 then Snapshot(flat) else Delta(|groups| - 1, rows[s]);
      TracksNext(groups, m, rows[..s], rows[s], g);
      SpacedNext(groups, g);
      groups := groups + [g];
    }
    assert rows[..|rows|] == rows;
  }
}
