/** The slot layout of a quotient filter, as a sequence of lags.

    A table of n slots is a ring.  Each used slot holds one entry, and the
    entry's lag is how far to the right of its quotient (its home slot) it
    sits; an unused slot has lag -1.  The whole run/cluster structure of the
    filter is one local law: walking right, the lag grows by at most one.

    Most reasoning is done on a linear reading of the ring that starts just
    after an unused slot.  In that reading the home positions never decrease,
    and no run crosses the end. */
module QuotientLayout {
  import opened Counting
  import opened Ring

  // ---- lags on the ring ----

  ghost predicate WellLagged(lag: seq<int>) {
    forall i :: 0 <= i < |lag| ==> -1 <= lag[i] < |lag| && lag[Next(i, |lag|)] <= lag[i] + 1
  }

  /** The quotient of the entry stored in slot i. */
  ghost function Home(lag: seq<int>, i: nat): (q: int)
    requires i < |lag| && 0 <= lag[i] < |lag|
    ensures 0 <= q < |lag|
  {
    if lag[i] <= i then i - lag[i] else i - lag[i] + |lag|
  }

  ghost predicate Holds(lag: seq<int>, i: nat, q: nat)
  {
    i < |lag| && 0 <= lag[i] < |lag| && Home(lag, i) == q
  }

  /** Quotient q has a run: some slot holds an entry whose home is q. */
  ghost predicate HasRun(lag: seq<int>, q: nat) {
    exists i :: Holds(lag, i, q)
  }

  ghost predicate IsShifted(lag: seq<int>, i: nat)
    requires i < |lag|
  {
    lag[i] > 0
  }

  ghost predicate IsContinuation(lag: seq<int>, i: nat)
    requires i < |lag|
  {
    lag[i] > 0 && lag[i] == lag[Previous(i, |lag|)] + 1
  }

  ghost function UsedSlots(lag: seq<int>): set<nat> {
    set i: nat | i < |lag| && lag[i] >= 0
  }

  // ---- the linear reading ----

  ghost function LagAt(lag: seq<int>, b: nat, t: nat): int
    requires b < |lag| && t < |lag|
  {
    lag[Slot(b, t, |lag|)]
  }

  /** The linear home of position t; t + 1 when t is unused. */
  ghost function HomeAt(lag: seq<int>, b: nat, t: nat): int
    requires b < |lag| && t < |lag|
  {
    t - LagAt(lag, b, t)
  }

  /** Reading the ring from slot b, homes never decrease and the last position is unused. */
  ghost predicate Linear(lag: seq<int>, b: nat) {
    && b < |lag|
    && LagAt(lag, b, |lag| - 1) == -1
    && (forall t :: 0 <= t < |lag| ==> 0 <= HomeAt(lag, b, t) <= t + 1)
    && (forall s, t :: 0 <= s <= t < |lag| ==> HomeAt(lag, b, s) <= HomeAt(lag, b, t))
  }

  lemma {:induction false} HomesAscend(lag: seq<int>, b: nat, s: nat, t: nat)
    requires WellLagged(lag) && b < |lag| && s <= t < |lag|
    ensures HomeAt(lag, b, s) <= HomeAt(lag, b, t)
    decreases t - s
  {
    if s < t {
      HomesAscend(lag, b, s, t - 1);
      assert Next(Slot(b, t - 1, |lag|), |lag|) == Slot(b, t, |lag|);
    }
  }

  /** Starting just after an unused slot gives a linear reading. */
  lemma LinearAfterUnused(lag: seq<int>, e: nat)
    requires WellLagged(lag) && e < |lag| && lag[e] == -1
    ensures Linear(lag, Next(e, |lag|))
  {
    var n, b := |lag|, Next(e, |lag|);
    assert Slot(b, n - 1, n) == e;
    forall s, t | 0 <= s <= t < n ensures HomeAt(lag, b, s) <= HomeAt(lag, b, t) {
      HomesAscend(lag, b, s, t);
    }
    assert Slot(b, 0, n) == Next(e, n);
    assert HomeAt(lag, b, 0) >= 0;
  }

  /** A table with fewer entries than slots has an unused slot, hence a linear reading. */
  lemma LinearExists(lag: seq<int>) returns (b: nat)
    requires WellLagged(lag) && |UsedSlots(lag)| < |lag|
    ensures Linear(lag, b)
  {
    var free :| free in Below(|lag|) - UsedSlots(lag) by {
      assert UsedSlots(lag) <= Below(|lag|);
      assert Below(|lag|) - UsedSlots(lag) != {};
    }
    assert free in Below(|lag|);
    assert free !in UsedSlots(lag);
    LinearAfterUnused(lag, free);
    b := Next(free, |lag|);
  }

  /** In a linear reading a used slot's quotient is the slot at its linear home. */
  lemma {:induction false} HomeIsLinear(lag: seq<int>, b: nat, t: nat)
    requires Linear(lag, b) && t < |lag| && LagAt(lag, b, t) >= 0
    ensures LagAt(lag, b, t) <= t
    ensures HomeAt(lag, b, t) >= 0 && Home(lag, Slot(b, t, |lag|)) == Slot(b, HomeAt(lag, b, t), |lag|)
  {
  }

  /** Quotient runs, read linearly. */
  lemma HasRunLinear(lag: seq<int>, b: nat, q: nat)
    requires Linear(lag, b) && q < |lag|
    ensures HasRun(lag, Slot(b, q, |lag|)) <==>
            exists t :: q <= t < |lag| && HomeAt(lag, b, t) == q
  {
    var n := |lag|;
    if HasRun(lag, Slot(b, q, n)) {
      var i :| Holds(lag, i, Slot(b, q, n));
      var t := Position(b, i, n);
      HomeIsLinear(lag, b, t);
      assert HomeAt(lag, b, t) == q;
    }
    if t :| q <= t < n && HomeAt(lag, b, t) == q {
      HomeIsLinear(lag, b, t);
      assert Holds(lag, Slot(b, t, n), Slot(b, q, n));
    }
  }

  // ---- inserting one entry ----

  /** Where an entry with linear quotient q goes: p is the first position whose
      home lies beyond q, and e the first unused position from p on. */
  ghost predicate InsertionPoint(lag: seq<int>, b: nat, q: nat, p: nat, e: nat) {
    && Linear(lag, b)
    && q <= p <= e < |lag|
    && HomeAt(lag, b, p) > q
    && (p > 0 ==> HomeAt(lag, b, p - 1) <= q)
    && (forall t :: p <= t < e ==> LagAt(lag, b, t) >= 0)
    && LagAt(lag, b, e) == -1
  }

  /** s with the stretch of positions [p, e) moved one to the right; position p keeps its value. */
  function ShiftRight<T>(s: seq<T>, b: nat, p: nat, e: nat): (r: seq<T>)
    requires b < |s| && p <= e < |s|
    ensures |r| == |s|
  {
    seq(|s|, i requires 0 <= i < |s| =>
      var t := Position(b, i, |s|);
      if p < t <= e then s[Slot(b, t - 1, |s|)] else s[i])
  }

  lemma ShiftRightAt<T>(s: seq<T>, b: nat, p: nat, e: nat, t: nat)
    requires b < |s| && p <= e < |s| && t < |s|
    ensures ShiftRight(s, b, p, e)[Slot(b, t, |s|)] ==
            if p < t <= e then s[Slot(b, t - 1, |s|)] else s[Slot(b, t, |s|)]
  {
    assert Position(b, Slot(b, t, |s|), |s|) == t;
  }

  lemma ShiftNone<T>(s: seq<T>, b: nat, e: nat)
    requires b < |s| && e < |s|
    ensures ShiftRight(s, b, e, e) == s
  {
  }

  lemma ShiftOneMore<T>(s: seq<T>, b: nat, t: nat, e: nat)
    requires b < |s| && 0 < t <= e < |s|
    ensures var now := ShiftRight(s, b, t, e);
      now[Slot(b, t, |s|) := now[Slot(b, t - 1, |s|)]] == ShiftRight(s, b, t - 1, e)
  {
    var n, now := |s|, ShiftRight(s, b, t, e);
    ShiftRightAt(s, b, t, e, t - 1);
    assert Position(b, Slot(b, t, n), n) == t;
    assert forall i: nat :: i < n && Position(b, i, n) == t ==> i == Slot(b, t, n);
  }

  /** The lags after an entry with linear quotient q has been put at p. */
  ghost function InsertLag(lag: seq<int>, b: nat, q: nat, p: nat, e: nat): (r: seq<int>)
    requires b < |lag| && q <= p <= e < |lag|
    ensures |r| == |lag|
  {
    seq(|lag|, i requires 0 <= i < |lag| =>
      var t := Position(b, i, |lag|);
      if t == p then p - q
      else if p < t <= e then lag[Slot(b, t - 1, |lag|)] + 1
      else lag[i])
  }

  lemma InsertLagAt(lag: seq<int>, b: nat, q: nat, p: nat, e: nat, t: nat)
    requires b < |lag| && q <= p <= e < |lag| && t < |lag|
    ensures LagAt(InsertLag(lag, b, q, p, e), b, t) ==
            if t == p then p - q
            else if p < t <= e then LagAt(lag, b, t - 1) + 1
            else LagAt(lag, b, t)
  {
    assert Position(b, Slot(b, t, |lag|), |lag|) == t;
  }

  lemma InsertKeepsLags(lag: seq<int>, b: nat, q: nat, p: nat, e: nat)
    requires InsertionPoint(lag, b, q, p, e)
    ensures WellLagged(InsertLag(lag, b, q, p, e))
  {
    var n, new_ := |lag|, InsertLag(lag, b, q, p, e);
    forall i | 0 <= i < n ensures -1 <= new_[i] < n && new_[Next(i, n)] <= new_[i] + 1 {
      var t := Position(b, i, n);
      InsertLagAt(lag, b, q, p, e, t);
      assert HomeAt(lag, b, t) >= 0;
      if 0 < t { assert HomeAt(lag, b, t - 1) <= t; }
      if t + 1 < n {
        InsertLagAt(lag, b, q, p, e, t + 1);
        assert Slot(b, t + 1, n) == Next(i, n);
        assert HomeAt(lag, b, t) <= HomeAt(lag, b, t + 1);
        if 0 < t { assert HomeAt(lag, b, t - 1) <= HomeAt(lag, b, t); }
      } else {
        InsertLagAt(lag, b, q, p, e, 0);
        assert Slot(b, 0, n) == Next(i, n);
        assert HomeAt(lag, b, 0) >= 0;
      }
    }
  }

  /** After the insertion the entry at p has quotient q and every moved entry keeps its quotient. */
  lemma InsertHomeAt(lag: seq<int>, b: nat, q: nat, p: nat, e: nat, t: nat)
    requires InsertionPoint(lag, b, q, p, e) && t < |lag|
    ensures var r := InsertLag(lag, b, q, p, e);
      && -1 <= LagAt(r, b, t) < |lag|
      && (t == p ==> Holds(r, Slot(b, t, |lag|), Slot(b, q, |lag|)))
      && (p < t <= e ==> LagAt(r, b, t) >= 0 && 0 <= LagAt(lag, b, t - 1) < |lag| &&
                         Home(r, Slot(b, t, |lag|)) == Home(lag, Slot(b, t - 1, |lag|)))
      && (!(p <= t <= e) ==> LagAt(r, b, t) == LagAt(lag, b, t))
  {
    InsertLagAt(lag, b, q, p, e, t);
    assert 0 <= HomeAt(lag, b, t);
    if p < t <= e { assert 0 <= HomeAt(lag, b, t - 1); }
  }

  lemma InsertFlagsAt(lag: seq<int>, b: nat, q: nat, p: nat, e: nat, t: nat)
    requires InsertionPoint(lag, b, q, p, e) && t < |lag|
    ensures var r, i := InsertLag(lag, b, q, p, e), Slot(b, t, |lag|);
      && IsShifted(r, i) == (if t == p then p != q else if p < t <= e then true else IsShifted(lag, i))
      && IsContinuation(r, i) ==
         (if t == p then HasRun(lag, Slot(b, q, |lag|))
          else if p < t <= e then IsContinuation(lag, Slot(b, t - 1, |lag|))
          else IsContinuation(lag, i))
  {
    InsertLagAt(lag, b, q, p, e, t);
    if t == p {
      FirstFlag(lag, b, q, p, e);
    } else if p < t <= e {
      MovedFlag(lag, b, q, p, e, t);
    } else {
      KeptFlag(lag, b, q, p, e, t);
    }
  }

  /** The slot read before position t. */
  lemma SlotBefore(b: nat, t: nat, n: nat)
    requires b < n && t < n
    ensures Previous(Slot(b, t, n), n) == Slot(b, if t == 0 then n - 1 else t - 1, n)
  {
  }

  /** The inserted entry continues a run exactly when its quotient has one. */
  lemma FirstFlag(lag: seq<int>, b: nat, q: nat, p: nat, e: nat)
    requires InsertionPoint(lag, b, q, p, e)
    ensures IsContinuation(InsertLag(lag, b, q, p, e), Slot(b, p, |lag|)) <==> HasRun(lag, Slot(b, q, |lag|))
  {
    var n := |lag|;
    var before := if p == 0 then n - 1 else p - 1;
    InsertLagAt(lag, b, q, p, e, p);
    InsertLagAt(lag, b, q, p, e, before);
    SlotBefore(b, p, n);
    HasRunLinear(lag, b, q);
    assert HomeAt(lag, b, before) <= before + 1;
    if u :| q <= u < n && HomeAt(lag, b, u) == q {
      assert u < p;
      assert HomeAt(lag, b, u) <= HomeAt(lag, b, p - 1);
    }
  }

  /** A moved entry continues its run exactly when it did. */
  lemma MovedFlag(lag: seq<int>, b: nat, q: nat, p: nat, e: nat, t: nat)
    requires InsertionPoint(lag, b, q, p, e) && p < t <= e
    ensures IsContinuation(InsertLag(lag, b, q, p, e), Slot(b, t, |lag|)) <==>
            IsContinuation(lag, Slot(b, t - 1, |lag|))
  {
    var n := |lag|;
    InsertLagAt(lag, b, q, p, e, t);
    InsertLagAt(lag, b, q, p, e, t - 1);
    SlotBefore(b, t, n);
    SlotBefore(b, t - 1, n);
    if t == p + 1 {
      assert p > 0 ==> HomeAt(lag, b, p - 1) <= q;
      assert HomeAt(lag, b, p) > q;
    } else {
      assert LagAt(lag, b, t - 2) >= 0;
    }
  }

  /** An entry that stays keeps its mark. */
  lemma KeptFlag(lag: seq<int>, b: nat, q: nat, p: nat, e: nat, t: nat)
    requires InsertionPoint(lag, b, q, p, e) && t < |lag| && !(p <= t <= e)
    ensures IsContinuation(InsertLag(lag, b, q, p, e), Slot(b, t, |lag|)) <==> IsContinuation(lag, Slot(b, t, |lag|))
  {
    var n := |lag|;
    var before := if t == 0 then n - 1 else t - 1;
    InsertLagAt(lag, b, q, p, e, t);
    InsertLagAt(lag, b, q, p, e, before);
    SlotBefore(b, t, n);
    assert 0 <= HomeAt(lag, b, t) && HomeAt(lag, b, before) <= before + 1;
    if 0 < t { assert HomeAt(lag, b, t - 1) <= HomeAt(lag, b, t); }
  }

  lemma InsertRuns(lag: seq<int>, b: nat, q: nat, p: nat, e: nat, y: nat)
    requires InsertionPoint(lag, b, q, p, e)
    ensures HasRun(InsertLag(lag, b, q, p, e), y) <==> HasRun(lag, y) || y == Slot(b, q, |lag|)
  {
    var r := InsertLag(lag, b, q, p, e);
    if HasRun(r, y) {
      var i :| Holds(r, i, y);
      RunWasThere(lag, b, q, p, e, y, i);
    }
    if HasRun(lag, y) {
      var i :| Holds(lag, i, y);
      RunStays(lag, b, q, p, e, y, i);
    }
    InsertHomeAt(lag, b, q, p, e, p);
  }

  lemma RunStays(lag: seq<int>, b: nat, q: nat, p: nat, e: nat, y: nat, i: nat)
    requires InsertionPoint(lag, b, q, p, e) && Holds(lag, i, y)
    ensures HasRun(InsertLag(lag, b, q, p, e), y)
  {
    var t := Position(b, i, |lag|);
    var t' := if p <= t < e then t + 1 else t;
    InsertHomeAt(lag, b, q, p, e, t');
    assert Holds(InsertLag(lag, b, q, p, e), Slot(b, t', |lag|), y);
  }

  lemma RunWasThere(lag: seq<int>, b: nat, q: nat, p: nat, e: nat, y: nat, i: nat)
    requires InsertionPoint(lag, b, q, p, e) && Holds(InsertLag(lag, b, q, p, e), i, y)
    ensures HasRun(lag, y) || y == Slot(b, q, |lag|)
  {
    var t := Position(b, i, |lag|);
    InsertHomeAt(lag, b, q, p, e, t);
    if p < t <= e { assert Holds(lag, Slot(b, t - 1, |lag|), y); }
    else if t != p { assert Holds(lag, i, y); }
  }

  lemma InsertUsedSlots(lag: seq<int>, b: nat, q: nat, p: nat, e: nat)
    requires InsertionPoint(lag, b, q, p, e)
    ensures UsedSlots(InsertLag(lag, b, q, p, e)) == UsedSlots(lag) + {Slot(b, e, |lag|)}
    ensures Slot(b, e, |lag|) !in UsedSlots(lag)
  {
    var n, r := |lag|, InsertLag(lag, b, q, p, e);
    forall i: nat | i < n ensures r[i] >= 0 <==> lag[i] >= 0 || i == Slot(b, e, n) {
      InsertLagAt(lag, b, q, p, e, Position(b, i, n));
    }
  }
}
