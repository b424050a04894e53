/** The auth difference of several forks of room state, computed from persisted
    closures in two ways (benches/state/auth_difference_mtxdb.rs).

    A state map sends each state key to an event; the closure of an event is the
    set of its auth ancestors.  Both are free. */
module AuthDifference {
  import opened Wrappers

  type EventId = nat
  type StateMap = map<string, EventId>
  type Closure = EventId -> set<EventId>

  /** An event with its auth ancestors. */
  function WithAncestors(closure: Closure, id: EventId): set<EventId> {
    {id} + closure(id)
  }

  /** The full auth chain of the entries under the given keys. */
  ghost function Chain(closure: Closure, state: StateMap, keys: set<string>): set<EventId> {
    set k, x | k in keys && k in state && x in WithAncestors(closure, state[k]) :: x
  }

  /** The event is an entry of the state, or an auth ancestor of an entry. */
  ghost predicate Reached(closure: Closure, state: StateMap, x: EventId) {
    exists k :: k in state && (x == state[k] || x in closure(state[k]))
  }

  lemma ChainReaches(closure: Closure, state: StateMap, x: EventId)
    ensures x in Chain(closure, state, state.Keys) <==> Reached(closure, state, x)
  {
    if Reached(closure, state, x) {
      var k :| k in state && (x == state[k] || x in closure(state[k]));
      assert x in WithAncestors(closure, state[k]);
    }
  }

  ghost predicate InSome(closure: Closure, forks: seq<StateMap>, x: EventId) {
    exists i :: 0 <= i < |forks| && Reached(closure, forks[i], x)
  }

  ghost predicate InAll(closure: Closure, forks: seq<StateMap>, x: EventId) {
    forall i :: 0 <= i < |forks| ==> Reached(closure, forks[i], x)
  }

  /** The events that some fork reaches and some other does not. */
  ghost predicate IsDifference(closure: Closure, forks: seq<StateMap>, r: set<EventId>) {
    forall x :: x in r <==> InSome(closure, forks, x) && !InAll(closure, forks, x)
  }

  /** A state event that some other fork does not reach is in the difference, and with it every auth
      ancestor of its own which that fork does not reach either. */
  lemma ConflictsDiffer(closure: Closure, forks: seq<StateMap>, r: set<EventId>, i: nat, k: string, j: nat)
    requires IsDifference(closure, forks, r) && i < |forks| && k in forks[i] && j < |forks|
    ensures !Reached(closure, forks[j], forks[i][k]) ==> forks[i][k] in r
    ensures forall x :: x in closure(forks[i][k]) && !Reached(closure, forks[j], x) ==> x in r
  {
    assert Reached(closure, forks[i], forks[i][k]);
    forall x | x in closure(forks[i][k]) ensures Reached(closure, forks[i], x) {
      assert k in forks[i] && x in closure(forks[i][k]);
    }
  }

  /** An entry that all forks share is never in the difference, nor is any auth ancestor of it. */
  lemma AgreedNeverDiffer(closure: Closure, forks: seq<StateMap>, r: set<EventId>, k: string, id: EventId)
    requires IsDifference(closure, forks, r)
    requires forall i :: 0 <= i < |forks| ==> k in forks[i] && forks[i][k] == id
    ensures id !in r && closure(id) !! r
  {
    forall x | x == id || x in closure(id) ensures InAll(closure, forks, x) {
      forall i | 0 <= i < |forks| ensures Reached(closure, forks[i], x) {
        assert k in forks[i] && (x == forks[i][k] || x in closure(forks[i][k]));
      }
    }
  }

  lemma ChainAdd(closure: Closure, state: StateMap, keys: set<string>, k: string)
    requires k in state
    ensures Chain(closure, state, keys + {k}) == Chain(closure, state, keys) + WithAncestors(closure, state[k])
  {
  }

  /** The chain of the entries under the given keys, one closure read at a time. */
  method ChainOf(closure: Closure, state: StateMap, keys: set<string>) returns (r: set<EventId>)
    requires keys <= state.Keys
    ensures r == Chain(closure, state, keys)
  {
    r := {};
    var rest := keys;
    while rest != {}
      invariant rest <= keys && r == Chain(closure, state, keys - rest)
      decreases |rest|
    {
      var k :| k in rest;
      ChainAdd(closure, state, keys - rest, k);
      assert keys - (rest - {k}) == keys - rest + {k};
      r := r + WithAncestors(closure, state[k]);
      rest := rest - {k};
    }
    assert keys - {} == keys;
  }

  /** Union and intersection of the given chains, started by the first. */
  ghost predicate Folded(chains: seq<set<EventId>>, union: set<EventId>, inter: set<EventId>) {
    forall x ::
      && (x in union <==> exists i :: 0 <= i < |chains| && x in chains[i])
      && (x in inter <==> forall i :: 0 <= i < |chains| ==> x in chains[i])
  }

  lemma FoldedNext(chains: seq<set<EventId>>, c: set<EventId>, union: set<EventId>, inter: set<EventId>)
    requires |chains| > 0 && Folded(chains, union, inter)
    ensures Folded(chains + [c], union + c, inter * c)
  {
    var more := chains + [c];
    forall x
      ensures x in union + c <==> exists i :: 0 <= i < |more| && x in more[i]
      ensures x in inter * c <==> forall i :: 0 <= i < |more| ==> x in more[i]
    {
      if x in union {
        var i :| 0 <= i < |chains| && x in chains[i];
        assert x in more[i];
      }
      if x in c { assert x in more[|chains|]; }
      if forall i :: 0 <= i < |more| ==> x in more[i] {
        assert x in more[|chains|];
        assert forall i :: 0 <= i < |chains| ==> more[i] == chains[i];
      }
    }
  }

  lemma FoldedOne(c: set<EventId>)
    ensures Folded([c], c, c)
  {
    assert [c][0] == c;
  }

  ghost function FullChains(closure: Closure, forks: seq<StateMap>): (r: seq<set<EventId>>)
    ensures |r| == |forks|
  {
    seq(|forks|, i requires 0 <= i < |forks| => Chain(closure, forks[i], forks[i].Keys))
  }

  lemma FullIsDifference(closure: Closure, forks: seq<StateMap>, union: set<EventId>, inter: set<EventId>)
    requires Folded(FullChains(closure, forks), union, inter)
    ensures IsDifference(closure, forks, union - inter)
  {
    var full := FullChains(closure, forks);
    forall x
      ensures x in union <==> InSome(closure, forks, x)
      ensures x in inter <==> InAll(closure, forks, x)
    {
      forall i | 0 <= i < |forks| ensures x in full[i] <==> Reached(closure, forks[i], x) {
        ChainReaches(closure, forks[i], x);
      }
    }
  }

  /** Reads every fork's closures in full; None stands for an empty state map. */
  method PlainDifference(closure: Closure, forks: seq<StateMap>) returns (r: Option<set<EventId>>)
    ensures r.None? <==> map[] in forks
    ensures r.Some? ==> IsDifference(closure, forks, r.value)
  {
    var union, inter := {}, {};
    ghost var full := FullChains(closure, forks);
    for i := 0 to |forks|
      invariant map[] !in forks[..i]
      invariant i > 0 ==> Folded(full[..i], union, inter)
      invariant i == 0 ==> union == {}
    {
      var state := forks[i];
      if |state| == 0 {
        assert forks[i] == map[];
        return None;
      }
      var chain := ChainOf(closure, state, state.Keys);
      assert full[..i + 1] == full[..i] + [chain];
      if i == 0 {
        assert full[..1] == [chain];
        FoldedOne(chain);
        union, inter := chain, chain;
      } else {
        FoldedNext(full[..i], chain, union, inter);
        union, inter := union + chain, inter * chain;
      }
    }
    assert full[..|forks|] == full;
    if |forks| > 0 { FullIsDifference(closure, forks, union, inter); }
    r := Some(union - inter);
  }

  // ---- the merged form ----

  /** All later forks agree with this entry. */
  predicate Unconflicted(forks: seq<StateMap>, k: string, id: EventId)
    requires |forks| > 0
  {
    forall i :: 1 <= i < |forks| ==> k in forks[i] && forks[i][k] == id
  }

  /** The keys whose entry all forks share. */
  function AgreedKeys(forks: seq<StateMap>): set<string>
    requires |forks| > 0
  {
    set k | k in forks[0] && Unconflicted(forks, k, forks[0][k])
  }

  ghost function Conflicts(closure: Closure, forks: seq<StateMap>): (r: seq<set<EventId>>)
    requires |forks| > 0
    ensures |r| == |forks|
  {
    seq(|forks|, i requires 0 <= i < |forks| => Chain(closure, forks[i], forks[i].Keys - AgreedKeys(forks)))
  }

  /** Each full chain is the agreed part together with the fork's conflicted part. */
  lemma ChainSplits(closure: Closure, forks: seq<StateMap>, i: nat)
    requires i < |forks|
    ensures Chain(closure, forks[i], forks[i].Keys) ==
            Chain(closure, forks[0], AgreedKeys(forks)) + Conflicts(closure, forks)[i]
  {
    var agreed := AgreedKeys(forks);
    assert forall k :: k in agreed ==> k in forks[i] && forks[i][k] == forks[0][k];
    var whole, part := Chain(closure, forks[i], forks[i].Keys), Conflicts(closure, forks)[i];
    forall x | x in whole ensures x in Chain(closure, forks[0], agreed) + part {
      var k :| k in forks[i] && x in WithAncestors(closure, forks[i][k]);
      if k !in agreed { assert k in forks[i].Keys - agreed; }
    }
  }

  /** Subtracting the agreed part once, after merging the conflicted parts, changes nothing. */
  lemma MergedIsDifference(closure: Closure, forks: seq<StateMap>, union: set<EventId>, inter: set<EventId>)
    requires |forks| > 0 && Folded(Conflicts(closure, forks), union, inter)
    ensures IsDifference(closure, forks, union - inter - Chain(closure, forks[0], AgreedKeys(forks)))
  {
    var agreed, parts := Chain(closure, forks[0], AgreedKeys(forks)), Conflicts(closure, forks);
    forall x ensures x in union - inter - agreed <==> InSome(closure, forks, x) && !InAll(closure, forks, x) {
      forall i: nat | i < |forks| ensures Reached(closure, forks[i], x) <==> x in agreed + parts[i] {
        ChainSplits(closure, forks, i);
        ChainReaches(closure, forks[i], x);
      }
      if x in agreed { assert InAll(closure, forks, x); }
    }
  }

  /** Reads the closures of the agreed entries once. */
  method MergedDifference(closure: Closure, forks: seq<StateMap>) returns (r: set<EventId>)
    requires |forks| > 0
    ensures IsDifference(closure, forks, r)
  {
    var agreedKeys := AgreedKeys(forks);
    var agreed := ChainOf(closure, forks[0], agreedKeys);
    var union, inter := {}, {};
    ghost var parts := Conflicts(closure, forks);
    for i := 0 to |forks|
      invariant i > 0 ==> Folded(parts[..i], union, inter)
      invariant i == 0 ==> union == {}
    {
      var chain := ChainOf(closure, forks[i], forks[i].Keys - agreedKeys);
      assert parts[..i + 1] == parts[..i] + [chain];
      if i == 0 {
        assert parts[..1] == [chain];
        FoldedOne(chain);
        union, inter := chain, chain;
      } else {
        FoldedNext(parts[..i], chain, union, inter);
        union, inter := union + chain, inter * chain;
      }
    }
    assert parts[..|forks|] == parts;
    MergedIsDifference(closure, forks, union, inter);
    r := union - inter - agreed;
  }
}
