/** Histories of changes to a map, described by the last change of each key. */
module MapHistory {
  datatype Change<K, V> = Put(key: K, value: V) | Remove(key: K)
  {
    /** The key holds the value put, or nothing after a removal. */
    ghost predicate Shows(m: map<K, V>) {
      match this
      case Put(k, v) => k in m && m[k] == v
      case Remove(k) => k !in m
    }
  }

  /** The key holds the same in both maps, or nothing in either. */
  ghost predicate SameAt<K, V>(m: map<K, V>, m': map<K, V>, k: K) {
    (k in m <==> k in m') && (k in m ==> m[k] == m'[k])
  }

  /** One change made: its key shows it, and every other key holds what it held. */
  ghost predicate Changes<K(!new), V>(m: map<K, V>, c: Change<K, V>, m': map<K, V>) {
    c.Shows(m') && forall k :: k != c.key ==> SameAt(m, m', k)
  }

  function Changed<K, V>(m: map<K, V>, c: Change<K, V>): map<K, V> {
    match c
    case Put(k, v) => m[k := v]
    case Remove(k) => m - {k}
  }

  lemma ChangedMeans<K(!new), V>(m: map<K, V>, c: Change<K, V>)
    ensures Changes(m, c, Changed(m, c))
  {
  }

  /** The i-th change is the last one of this key. */
  ghost predicate LastChange<K, V>(cs: seq<Change<K, V>>, k: K, i: nat) {
    i < |cs| && cs[i].key == k && forall j :: i < j < |cs| ==> cs[j].key != k
  }

  ghost predicate Untouched<K, V>(cs: seq<Change<K, V>>, k: K) {
    forall i :: 0 <= i < |cs| ==> cs[i].key != k
  }

  /** Each key shows its last change, or holds what it held at first when there was none. */
  ghost predicate Leads<K(!new), V>(m: map<K, V>, cs: seq<Change<K, V>>, m': map<K, V>) {
    && (forall k, i: nat :: LastChange(cs, k, i) ==> cs[i].Shows(m'))
    && forall k :: Untouched(cs, k) ==> SameAt(m, m', k)
  }

  lemma LeadsNowhere<K(!new), V>(m: map<K, V>)
    ensures Leads(m, [], m)
  {
  }

  lemma LeadsNext<K(!new), V>(m: map<K, V>, cs: seq<Change<K, V>>, now: map<K, V>, c: Change<K, V>, next: map<K, V>)
    requires Leads(m, cs, now) && Changes(now, c, next)
    ensures Leads(m, cs + [c], next)
  {
    var more := cs + [c];
    assert more[|cs|] == c;
    forall k, i: nat | LastChange(more, k, i) ensures more[i].Shows(next) {
      if i < |cs| {
        assert more[|cs|].key != k;
        assert forall j :: i < j < |cs| ==> more[j] == cs[j];
        assert LastChange(cs, k, i);
        assert SameAt(now, next, k);
      }
    }
    forall k | Untouched(more, k) ensures SameAt(m, next, k) {
      assert more[|cs|].key != k;
      assert forall i :: 0 <= i < |cs| ==> more[i] == cs[i];
      assert Untouched(cs, k);
      assert SameAt(m, now, k) && SameAt(now, next, k);
    }
  }

  /** Every key is untouched or has a last change. */
  lemma {:induction false} LastChangeExists<K(!new), V>(cs: seq<Change<K, V>>, k: K)
    requires !Untouched(cs, k)
    ensures exists i: nat :: LastChange(cs, k, i)
    decreases |cs|
  {
    var n := |cs| - 1;
    if cs[n].key == k {
      assert LastChange(cs, k, n);
    } else {
      var front := cs[..n];
      var i :| 0 <= i < |cs| && cs[i].key == k;
      assert front[i].key == k;
      LastChangeExists(front, k);
      var j: nat :| LastChange(front, k, j);
      assert LastChange(cs, k, j);
    }
  }

  /** So the changes decide the map. */
  lemma LeadsUnique<K(!new), V>(m: map<K, V>, cs: seq<Change<K, V>>, a: map<K, V>, b: map<K, V>)
    requires Leads(m, cs, a) && Leads(m, cs, b)
    ensures a == b
  {
    forall k ensures SameAt(a, b, k) {
      if Untouched(cs, k) {
        assert SameAt(m, a, k) && SameAt(m, b, k);
      } else {
        LastChangeExists(cs, k);
        var i: nat :| LastChange(cs, k, i);
        assert cs[i].Shows(a) && cs[i].Shows(b);
      }
    }
    assert forall k :: k in a <==> k in b by { forall k ensures k in a <==> k in b { assert SameAt(a, b, k); } }
    forall k | k in a ensures a[k] == b[k] { assert SameAt(a, b, k); }
  }

  /** The map after a history, one change at a time. */
  function After<K(!new), V>(m: map<K, V>, cs: seq<Change<K, V>>): map<K, V> {
    if cs == [] then m else Changed(After(m, cs[..|cs| - 1]), cs[|cs| - 1])
  }

  lemma AfterNext<K(!new), V>(m: map<K, V>, cs: seq<Change<K, V>>, i: nat)
    requires i < |cs|
    ensures After(m, cs[..i + 1]) == Changed(After(m, cs[..i]), cs[i])
  {
    assert cs[..i + 1][..i] == cs[..i];
  }

  /** Making the changes one at a time leaves what the last change of each key says. */
  lemma {:induction false} AfterLeads<K(!new), V>(m: map<K, V>, cs: seq<Change<K, V>>)
    ensures Leads(m, cs, After(m, cs))
    decreases |cs|
  {
    if cs == [] {
      LeadsNowhere(m);
    } else {
      var front, c := cs[..|cs| - 1], cs[|cs| - 1];
      AfterLeads(m, front);
      ChangedMeans(After(m, front), c);
      LeadsNext(m, front, After(m, front), c, After(m, cs));
      assert front + [c] == cs;
    }
  }

  /** Two histories, one after the other, are one. */
  lemma {:induction false} AfterBoth<K(!new), V>(m: map<K, V>, a: seq<Change<K, V>>, b: seq<Change<K, V>>)
    ensures After(m, a + b) == After(After(m, a), b)
    decreases |b|
  {
    if b == [] {
      assert a + b == a;
    } else {
      AfterBoth(m, a, b[..|b| - 1]);
      assert (a + b)[..|a + b| - 1] == a + b[..|b| - 1];
    }
  }

  /** A stream of entries as changes. */
  function Puts<K, V>(es: seq<(K, V)>): (r: seq<Change<K, V>>)
    ensures |r| == |es| && forall i :: 0 <= i < |es| ==> r[i] == Put(es[i].0, es[i].1)
  {
    seq(|es|, i requires 0 <= i < |es| => Put(es[i].0, es[i].1))
  }
}
