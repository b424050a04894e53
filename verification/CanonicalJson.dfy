/** Matrix Canonical JSON as append_canonical_value of src/merkle.rs writes it:
    no white space, object members in ascending byte order of their keys, and
    integers within the exactly representable range only. */
module CanonicalJson {
  import opened JsonReader
  import opened JsonText
  import opened Sequences
  import opened Wrappers

  const MAX_CANONICAL_INT: int := 0x1f_ffff_ffff_ffff

  /** A JSON number: a 64-bit signed integer, an integer too large for one, or a fraction. */
  datatype Number = Signed(i: int) | Unsigned(u: nat) | Float(bits: nat)

  datatype Value =
    | Null
    | Bool(b: bool)
    | Number(number: Number)
    | String(s: string)
    | Array(items: seq<Value>)
    | Object(members: map<string, Value>)

  datatype JsonError = IntegerRange | UnsupportedNumber

  // ---- the order of keys ----

  predicate LexLess(a: seq<byte>, b: seq<byte>) {
    if b == [] then false
    else if a == [] then true
    else a[0] < b[0] || (a[0] == b[0] && LexLess(a[1..], b[1..]))
  }

  predicate KeyLess(s: string, t: string) {
    LexLess(Bytes(s), Bytes(t))
  }

  ghost predicate FirstDifference(a: seq<byte>, b: seq<byte>, i: nat) {
    i < |a| && i < |b| && a[..i] == b[..i] && a[i] < b[i]
  }

  /** The order is that of dictionaries: a proper prefix comes first, and otherwise the smaller byte
      at the first difference decides. */
  lemma {:induction false} LexMeans(a: seq<byte>, b: seq<byte>)
    ensures LexLess(a, b) <==> a < b || exists i :: FirstDifference(a, b, i)
    decreases |a|
  {
    if a != [] && b != [] {
      var p, q := a[1..], b[1..];
      assert a == [a[0]] + p && b == [b[0]] + q;
      LexMeans(p, q);
      if a[0] < b[0] { assert FirstDifference(a, b, 0); }
      if i: nat :| a[0] == b[0] && FirstDifference(p, q, i) {
        assert a[..i + 1] == [a[0]] + p[..i] && b[..i + 1] == [b[0]] + q[..i];
        assert FirstDifference(a, b, i + 1);
      }
      if i: nat :| i > 0 && FirstDifference(a, b, i) {
        assert a[..i][0] == b[..i][0];
        assert p[..i - 1] == a[..i][1..] && q[..i - 1] == b[..i][1..];
        assert FirstDifference(p, q, i - 1);
      }
    }
  }

  /** Keys are ordered by their bytes. */
  lemma KeyOrder(s: string, t: string)
    ensures KeyLess(s, t) <==> Bytes(s) < Bytes(t) || exists i :: FirstDifference(Bytes(s), Bytes(t), i)
  {
    LexMeans(Bytes(s), Bytes(t));
  }

  lemma {:induction false} LexTotal(a: seq<byte>, b: seq<byte>)
    ensures a == b || LexLess(a, b) || LexLess(b, a)
    decreases |a|
  {
    if a != [] && b != [] {
      LexTotal(a[1..], b[1..]);
      assert a == [a[0]] + a[1..] && b == [b[0]] + b[1..];
    }
  }

  lemma {:induction false} LexTransitive(a: seq<byte>, b: seq<byte>, c: seq<byte>)
    requires LexLess(a, b) && LexLess(b, c)
    ensures LexLess(a, c)
    decreases |a|
  {
    if a != [] && a[0] == b[0] == c[0] {
      LexTransitive(a[1..], b[1..], c[1..]);
    }
  }

  lemma {:induction false} LexIrreflexive(a: seq<byte>)
    ensures !LexLess(a, a)
    decreases |a|
  {
    if a != [] { LexIrreflexive(a[1..]); }
  }

  lemma KeyTotal(s: string, t: string)
    ensures s == t || KeyLess(s, t) || KeyLess(t, s)
  {
    LexTotal(Bytes(s), Bytes(t));
    if Bytes(s) == Bytes(t) { BytesInjective(s, t); }
  }

  lemma KeyTransitive(s: string, t: string, u: string)
    requires KeyLess(s, t) && KeyLess(t, u)
    ensures KeyLess(s, u)
  {
    LexTransitive(Bytes(s), Bytes(t), Bytes(u));
  }

  ghost predicate IsLeast(k: string, keys: set<string>) {
    k in keys && forall j :: j in keys && j != k ==> KeyLess(k, j)
  }

  lemma LeastExtends(x: string, y: string, rest: set<string>)
    requires IsLeast(y, rest) && KeyLess(x, y)
    ensures IsLeast(x, rest + {x})
  {
    forall j | j in rest && j != x ensures KeyLess(x, j) {
      if j != y { KeyTransitive(x, y, j); }
    }
  }

  lemma {:induction false} LeastExists(keys: set<string>)
    requires keys != {}
    ensures exists k :: IsLeast(k, keys)
    decreases |keys|
  {
    var x :| x in keys;
    var rest := keys - {x};
    if rest == {} {
      assert keys == {x};
      assert IsLeast(x, keys);
    } else {
      LeastExists(rest);
      var y :| IsLeast(y, rest);
      KeyTotal(x, y);
      assert keys == rest + {x};
      if KeyLess(x, y) {
        LeastExtends(x, y, rest);
      } else {
        assert IsLeast(y, keys);
      }
    }
  }

  ghost predicate KeysAscend(ks: seq<string>) {
    forall i, j :: 0 <= i < j < |ks| ==> KeyLess(ks[i], ks[j])
  }

  /** The keys in ascending byte order. */
  ghost function SortedKeys(keys: set<string>): (ks: seq<string>)
    ensures KeysAscend(ks) && forall k :: k in ks <==> k in keys
  {
    if keys == {} then []
    else
      LeastExists(keys);
      var k :| IsLeast(k, keys);
      [k] + SortedKeys(keys - {k})
  }

  /** There is only one ascending listing of a set of keys. */
  lemma {:induction false} AscendingListingUnique(ks: seq<string>, js: seq<string>)
    requires KeysAscend(ks) && KeysAscend(js) && forall k :: k in ks <==> k in js
    ensures ks == js
    decreases |ks|
  {
    assert ks != [] ==> ks[0] in ks;
    assert js != [] ==> js[0] in js;
    if ks != [] && js != [] {
      HeadsAgree(ks, js);
      TailKeys(ks);
      TailKeys(js);
      AscendingListingUnique(ks[1..], js[1..]);
      assert ks == [ks[0]] + ks[1..] && js == [js[0]] + js[1..];
    }
  }

  lemma HeadsAgree(ks: seq<string>, js: seq<string>)
    requires KeysAscend(ks) && KeysAscend(js) && ks != [] && js != [] && forall k :: k in ks <==> k in js
    ensures ks[0] == js[0]
  {
    assert ks[0] in js && js[0] in ks;
    var i :| 0 <= i < |js| && js[i] == ks[0];
    var j :| 0 <= j < |ks| && ks[j] == js[0];
    if i > 0 && j > 0 {
      assert KeyLess(js[0], js[i]) && KeyLess(ks[0], ks[j]);
      KeyTransitive(ks[0], js[0], ks[0]);
      LexIrreflexive(Bytes(ks[0]));
    }
  }

  lemma TailKeys(ks: seq<string>)
    requires KeysAscend(ks) && ks != []
    ensures KeysAscend(ks[1..]) && forall k :: k in ks[1..] <==> k in ks && k != ks[0]
  {
    forall k | k in ks[1..] ensures k != ks[0] {
      var i :| 0 <= i < |ks| - 1 && ks[1..][i] == k;
      LexIrreflexive(Bytes(k));
      assert KeyLess(ks[0], ks[i + 1]);
    }
    assert ks == [ks[0]] + ks[1..];
  }

  // ---- the text of a value ----

  const COMMA: byte := 0x2c
  const COLON: byte := 0x3a
  const NULL_TEXT: seq<byte> := [0x6e, 0x75, 0x6c, 0x6c]
  const TRUE_TEXT: seq<byte> := [0x74, 0x72, 0x75, 0x65]
  const FALSE_TEXT: seq<byte> := [0x66, 0x61, 0x6c, 0x73, 0x65]

  predicate InRange(n: Number) {
    n.Signed? && -MAX_CANONICAL_INT <= n.i <= MAX_CANONICAL_INT
  }

  /** Every number in the value is an integer in the canonical range. */
  ghost predicate Encodable(v: Value) {
    match v
    case Number(n) => InRange(n)
    case Array(items) => forall x :: x in items ==> Encodable(x)
    case Object(members) => forall k :: k in members ==> Encodable(members[k])
    case _ => true
  }

  ghost function Text(v: Value): seq<byte>
    decreases v
  {
    match v
    case Null => NULL_TEXT
    case Bool(b) => if b then TRUE_TEXT else FALSE_TEXT
    case Number(n) => if n.Signed? then IntText(n.i) else []
    case String(s) => StringText(s)
    case Array(items) => [0x5b] + ItemsFrom(v, 0)
    case Object(members) => [0x7b] + MembersFrom(v, SortedKeys(members.Keys), 0)
  }

  /** The items from index i on, with their separators and the closing bracket. */
  ghost function ItemsFrom(v: Value, i: nat): seq<byte>
    requires v.Array? && i <= |v.items|
    decreases v, |v.items| - i
  {
    if i == |v.items| then [0x5d]
    else Separator(i) + Text(v.items[i]) + ItemsFrom(v, i + 1)
  }

  ghost function MembersFrom(v: Value, ks: seq<string>, i: nat): seq<byte>
    requires v.Object? && i <= |ks| && forall k :: k in ks ==> k in v.members
    decreases v, |ks| - i
  {
    if i == |ks| then [0x7d]
    else Separator(i) + (StringText(ks[i]) + [COLON] + Text(v.members[ks[i]])) + MembersFrom(v, ks, i + 1)
  }

  function Separator(i: nat): seq<byte> {
    if i > 0 then [COMMA] else []
  }

  // ---- the encoder ----

  function NumberError(n: Number): Option<JsonError> {
    match n
    case Signed(i) => if -MAX_CANONICAL_INT <= i <= MAX_CANONICAL_INT then None else Some(IntegerRange)
    case Unsigned(_) => Some(IntegerRange)
    case Float(_) => Some(UnsupportedNumber)
  }

  /** The error of the first number, in writing order, that canonical JSON does not allow. */
  ghost function ErrorOf(v: Value): Option<JsonError>
    decreases v
  {
    match v
    case Number(n) => NumberError(n)
    case Array(_) => ItemsError(v, 0)
    case Object(members) => MembersError(v, SortedKeys(members.Keys), 0)
    case _ => None
  }

  ghost function ItemsError(v: Value, i: nat): Option<JsonError>
    requires v.Array? && i <= |v.items|
    decreases v, |v.items| - i
  {
    if i == |v.items| then None
    else if ErrorOf(v.items[i]).Some? then ErrorOf(v.items[i])
    else ItemsError(v, i + 1)
  }

  ghost function MembersError(v: Value, ks: seq<string>, i: nat): Option<JsonError>
    requires v.Object? && i <= |ks| && forall k :: k in ks ==> k in v.members
    decreases v, |ks| - i
  {
    if i == |ks| then None
    else if ErrorOf(v.members[ks[i]]).Some? then ErrorOf(v.members[ks[i]])
    else MembersError(v, ks, i + 1)
  }

  /** Exactly the encodable values have no error. */
  lemma {:induction false} ErrorFree(v: Value)
    ensures ErrorOf(v).None? <==> Encodable(v)
    decreases v
  {
    match v
    case Array(items) =>
      forall x | x in items ensures ErrorOf(x).None? <==> Encodable(x) { ErrorFree(x); }
      ItemsErrorFree(v, 0);
      assert forall x :: x in items ==> exists k :: 0 <= k < |items| && items[k] == x;
    case Object(members) =>
      forall k | k in members ensures ErrorOf(members[k]).None? <==> Encodable(members[k]) { ErrorFree(members[k]); }
      MembersErrorFree(v, SortedKeys(members.Keys), 0);
      assert forall k :: k in members ==> k in SortedKeys(members.Keys);
    case _ =>
  }

  /** The number occurs in the value, at any depth. */
  ghost predicate Occurs(n: Number, v: Value) {
    match v
    case Number(m) => n == m
    case Array(items) => exists x :: x in items && Occurs(n, x)
    case Object(members) => exists k :: k in members && Occurs(n, members[k])
    case _ => false
  }

  /** The error tells what is wrong with a number that occurs. */
  ghost predicate Explains(e: JsonError, n: Number) {
    match e
    case IntegerRange => n.Unsigned? || (n.Signed? && !InRange(n))
    case UnsupportedNumber => n.Float?
  }

  ghost predicate Explained(e: JsonError, v: Value) {
    exists n :: Occurs(n, v) && Explains(e, n)
  }

  lemma {:induction false} ErrorMeans(v: Value)
    requires ErrorOf(v).Some?
    ensures Explained(ErrorOf(v).value, v)
    decreases v
  {
    match v
    case Number(n) => assert Occurs(n, v);
    case Array(items) =>
      var i := FirstBadItem(v, 0);
      ErrorMeans(items[i]);
      var n :| Occurs(n, items[i]) && Explains(ErrorOf(v).value, n);
      assert items[i] in items;
      assert Occurs(n, v);
    case Object(members) =>
      var j := FirstBadMember(v, SortedKeys(members.Keys), 0);
      var k := SortedKeys(members.Keys)[j];
      ErrorMeans(members[k]);
      var n :| Occurs(n, members[k]) && Explains(ErrorOf(v).value, n);
      assert Occurs(n, v);
  }

  /** The error of an array is that of its first bad item. */
  lemma {:induction false} FirstBadItem(v: Value, i: nat) returns (j: nat)
    requires v.Array? && i <= |v.items| && ItemsError(v, i).Some?
    ensures i <= j < |v.items| && ErrorOf(v.items[j]) == ItemsError(v, i)
    ensures forall t :: i <= t < j ==> ErrorOf(v.items[t]).None?
    decreases |v.items| - i
  {
    if ErrorOf(v.items[i]).Some? { j := i; } else { j := FirstBadItem(v, i + 1); }
  }

  /** The error of an object is that of its first bad member, in the order of the keys. */
  lemma {:induction false} FirstBadMember(v: Value, ks: seq<string>, i: nat) returns (j: nat)
    requires v.Object? && i <= |ks| && (forall k :: k in ks ==> k in v.members) && MembersError(v, ks, i).Some?
    ensures i <= j < |ks| && ErrorOf(v.members[ks[j]]) == MembersError(v, ks, i)
    ensures forall t :: i <= t < j ==> ErrorOf(v.members[ks[t]]).None?
    decreases |ks| - i
  {
    if ErrorOf(v.members[ks[i]]).Some? { j := i; } else { j := FirstBadMember(v, ks, i + 1); }
  }

  lemma {:induction false} ItemsErrorFree(v: Value, i: nat)
    requires v.Array? && i <= |v.items|
    ensures ItemsError(v, i).None? <==> forall k :: i <= k < |v.items| ==> ErrorOf(v.items[k]).None?
    decreases |v.items| - i
  {
    if i < |v.items| { ItemsErrorFree(v, i + 1); }
  }

  lemma {:induction false} MembersErrorFree(v: Value, ks: seq<string>, i: nat)
    requires v.Object? && i <= |ks| && forall k :: k in ks ==> k in v.members
    ensures MembersError(v, ks, i).None? <==> forall j :: i <= j < |ks| ==> ErrorOf(v.members[ks[j]]).None?
    decreases |ks| - i
  {
    if i < |ks| { MembersErrorFree(v, ks, i + 1); }
  }

  lemma BodyStep(r: seq<byte>, s: string, i: nat)
    requires i < |s|
    ensures r + StringBody(s[i..]) == r + EscapeChar(s[i]) + StringBody(s[i + 1..])
  {
    assert s[i..][0] == s[i] && s[i..][1..] == s[i + 1..];
    Reassociate(r, EscapeChar(s[i]), StringBody(s[i + 1..]));
  }

  method AppendString(out: seq<byte>, s: string) returns (r: seq<byte>)
    ensures r == out + StringText(s)
  {
    ghost var target := out + StringText(s);
    r := out + [QUOTE];
    assert s[0..] == s;
    for i := 0 to |s|
      invariant r + StringBody(s[i..]) == target
    {
      BodyStep(r, s, i);
      r := r + EscapeChar(s[i]);
    }
    assert s[|s|..] == "";
    r := r + [QUOTE];
  }

  /** A key inserted into an ascending list. */
  function InsertKey(ks: seq<string>, k: string): seq<string> {
    if ks == [] || KeyLess(k, ks[0]) then [k] + ks else [ks[0]] + InsertKey(ks[1..], k)
  }

  lemma {:induction false} InsertKeyListed(ks: seq<string>, k: string, j: string)
    ensures j in InsertKey(ks, k) <==> j in ks || j == k
    decreases |ks|
  {
    if ks != [] && !KeyLess(k, ks[0]) {
      InsertKeyListed(ks[1..], k, j);
      assert ks == [ks[0]] + ks[1..];
    }
  }

  lemma {:induction false} InsertKeyAscends(ks: seq<string>, k: string)
    requires KeysAscend(ks) && k !in ks
    ensures KeysAscend(InsertKey(ks, k))
    decreases |ks|
  {
    if ks != [] {
      KeyTotal(k, ks[0]);
      assert ks[0] in ks;
      if KeyLess(k, ks[0]) {
        HeadLess(k, ks);
      } else {
        TailKeys(ks);
        InsertKeyAscends(ks[1..], k);
        var tail := InsertKey(ks[1..], k);
        forall j | j in tail ensures KeyLess(ks[0], j) {
          InsertKeyListed(ks[1..], k, j);
          if j != k { HeadLeast(ks, j); }
        }
        PrependAscends(ks[0], tail);
      }
    }
  }

  lemma HeadLeast(ks: seq<string>, j: string)
    requires KeysAscend(ks) && ks != [] && j in ks[1..]
    ensures KeyLess(ks[0], j)
  {
    var i :| 0 <= i < |ks| - 1 && ks[1..][i] == j;
    assert ks[i + 1] == j;
  }

  lemma PrependAscends(k: string, ks: seq<string>)
    requires KeysAscend(ks) && forall j :: j in ks ==> KeyLess(k, j)
    ensures KeysAscend([k] + ks)
  {
    forall i | 0 <= i < |ks| ensures KeyLess(k, ks[i]) { assert ks[i] in ks; }
  }

  lemma HeadLess(k: string, ks: seq<string>)
    requires KeysAscend(ks) && ks != [] && KeyLess(k, ks[0])
    ensures KeysAscend([k] + ks)
  {
    forall j | j in ks ensures KeyLess(k, j) {
      if j != ks[0] {
        assert ks == [ks[0]] + ks[1..];
        HeadLeast(ks, j);
        KeyTransitive(k, ks[0], j);
      }
    }
    PrependAscends(k, ks);
  }

  method SortKeys(keys: set<string>) returns (ks: seq<string>)
    ensures ks == SortedKeys(keys)
    ensures KeysAscend(ks) && forall k :: k in ks <==> k in keys
  {
    ks := [];
    var rest := keys;
    while rest != {}
      invariant rest <= keys && KeysAscend(ks)
      invariant forall k :: k in ks <==> k in keys - rest
      decreases rest
    {
      var k :| k in rest;
      InsertKeyAscends(ks, k);
      forall j ensures j in InsertKey(ks, k) <==> j in ks || j == k { InsertKeyListed(ks, k, j); }
      ks := InsertKey(ks, k);
      rest := rest - {k};
    }
    AscendingListingUnique(ks, SortedKeys(keys));
  }

  /** Appends the canonical text of v, or reports the first number that has none. */
  method AppendCanonicalValue(out: seq<byte>, v: Value) returns (err: Option<JsonError>, r: seq<byte>)
    ensures err == ErrorOf(v)
    ensures err.None? ==> r == out + Text(v)
    decreases v
  {
    err := None;
    match v
    case Null => r := out + NULL_TEXT;
    case Bool(b) => r := out + if b then TRUE_TEXT else FALSE_TEXT;
    case Number(n) =>
      r := out;
      err := NumberError(n);
      if err.None? {
        r := out + IntText(n.i);
      }
    case String(s) => r := AppendString(out, s);
    case Array(_) => err, r := AppendItems(out, v);
    case Object(_) => err, r := AppendMembers(out, v);
  }

  method AppendItems(out: seq<byte>, v: Value) returns (err: Option<JsonError>, r: seq<byte>)
    requires v.Array?
    ensures err == ItemsError(v, 0)
    ensures err.None? ==> r == out + ([0x5b] + ItemsFrom(v, 0))
    decreases v, 0
  {
    ghost var target := out + ([0x5b] + ItemsFrom(v, 0));
    r := out + [0x5b];
    for i := 0 to |v.items|
      invariant ItemsError(v, i) == ItemsError(v, 0)
      invariant r + ItemsFrom(v, i) == target
    {
      ghost var before := r;
      r := r + Separator(i);
      err, r := AppendCanonicalValue(r, v.items[i]);
      if err.Some? {
        return;
      }
      ItemWritten(before, Separator(i), Text(v.items[i]), ItemsFrom(v, i + 1));
    }
    err := None;
    r := r + [0x5d];
  }

  method AppendMembers(out: seq<byte>, v: Value) returns (err: Option<JsonError>, r: seq<byte>)
    requires v.Object?
    ensures err == MembersError(v, SortedKeys(v.members.Keys), 0)
    ensures err.None? ==> r == out + ([0x7b] + MembersFrom(v, SortedKeys(v.members.Keys), 0))
    decreases v, 0
  {
    var ks := SortKeys(v.members.Keys);
    r := out + [0x7b];
    for i := 0 to |ks|
      invariant MembersError(v, ks, i) == MembersError(v, ks, 0)
      invariant r + MembersFrom(v, ks, i) == out + ([0x7b] + MembersFrom(v, ks, 0))
    {
      ghost var before := r;
      r := r + Separator(i);
      r := AppendString(r, ks[i]);
      r := r + [COLON];
      err, r := AppendCanonicalValue(r, v.members[ks[i]]);
      if err.Some? {
        return;
      }
      MemberWritten(before, Separator(i), StringText(ks[i]), Text(v.members[ks[i]]), MembersFrom(v, ks, i + 1));
    }
    err := None;
    r := r + [0x7d];
  }

  lemma ItemWritten(r: seq<byte>, sep: seq<byte>, item: seq<byte>, rest: seq<byte>)
    ensures r + sep + item + rest == r + (sep + item + rest)
  {
  }

  lemma MemberWritten(r: seq<byte>, sep: seq<byte>, key: seq<byte>, val: seq<byte>, rest: seq<byte>)
    ensures r + sep + key + [COLON] + val + rest == r + (sep + (key + [COLON] + val) + rest)
  {
  }

  method CanonicalJson(v: Value) returns (err: Option<JsonError>, r: seq<byte>)
    ensures err.None? <==> Encodable(v)
    ensures err.Some? ==> Explained(err.value, v)
    ensures err.None? ==> r == Text(v)
  {
    err, r := AppendCanonicalValue([], v);
    ErrorFree(v);
    if err.Some? { ErrorMeans(v); }
  }
}
