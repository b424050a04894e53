/** The bytes hashed for one state entry (benches/math/lthash_backends.rs): two
    length-prefixed fields and a trailing event id, each length in two bytes,
    little end first. */
module ElementFraming {
  import opened JsonReader
  import opened JsonText
  import opened Wrappers

  const LENGTH_LIMIT: nat := 0xFFFF

  type Bytes = seq<byte>

  /** Position i is not inside an encoded character. */
  predicate CharBoundary(s: Bytes, i: nat) {
    i == 0 || i == |s| || (i < |s| && !(0x80 <= s[i] < 0xC0))
  }

  /** n is the longest length within the limit that ends between characters. */
  ghost predicate Truncation(s: Bytes, n: nat) {
    && n <= |s| && n <= LENGTH_LIMIT && CharBoundary(s, n)
    && forall i: nat :: n < i <= |s| && i <= LENGTH_LIMIT ==> !CharBoundary(s, i)
  }

  /** Searches downwards from the cap. */
  method TruncateToLimit(s: Bytes) returns (r: Bytes, n: nat)
    ensures Truncation(s, n) && r == s[..n]
    ensures r == s <==> |s| <= LENGTH_LIMIT
  {
    n := if |s| < LENGTH_LIMIT then |s| else LENGTH_LIMIT;
    while !CharBoundary(s, n)
      invariant n <= |s| && n <= LENGTH_LIMIT
      invariant |s| <= LENGTH_LIMIT ==> n == |s|
      invariant forall i: nat :: n < i <= |s| && i <= LENGTH_LIMIT ==> !CharBoundary(s, i)
      decreases n
    {
      n := n - 1;
    }
    r := s[..n];
    assert n == |s| ==> r == s;
  }

  /** l is the truncation of s. */
  ghost predicate Limits(s: Bytes, l: Bytes) {
    exists n: nat :: Truncation(s, n) && l == s[..n]
  }

  lemma LimitsUnique(s: Bytes, l: Bytes, l': Bytes)
    requires Limits(s, l) && Limits(s, l')
    ensures l == l' && |l| <= LENGTH_LIMIT && (|s| <= LENGTH_LIMIT ==> l == s)
  {
    var n: nat :| Truncation(s, n) && l == s[..n];
    var n': nat :| Truncation(s, n') && l' == s[..n'];
    if |s| <= LENGTH_LIMIT { assert CharBoundary(s, |s|); }
  }

  // ---- the boundaries are those of UTF-8 ----

  lemma Utf8Shape(c: char)
    ensures !Continues(Utf8(c)[0]) && forall i :: 0 < i < |Utf8(c)| ==> Continues(Utf8(c)[i])
  {
  }

  /** In a string's bytes the boundaries are the ends of its prefixes. */
  lemma {:induction false} BoundaryEndsPrefix(t: string, n: nat)
    requires n <= |JsonText.Bytes(t)|
    ensures CharBoundary(JsonText.Bytes(t), n) <==> exists m: nat :: EndsAt(t, m, n)
    decreases |t|
  {
    if n == 0 {
      assert t[..0] == "";
      assert EndsAt(t, 0, 0);
    } else {
      var u, rest := Utf8(t[0]), t[1..];
      Utf8Shape(t[0]);
      forall m: nat | 0 < m <= |t| ensures EndsAt(t, m, n) <==> |u| <= n && EndsAt(rest, m - 1, n - |u|) {
        PrefixHead(t, m);
      }
      if n >= |u| {
        var p: nat := n - |u|;
        BoundaryShift(t, n);
        BoundaryEndsPrefix(rest, p);
        if m: nat :| EndsAt(rest, m, p) { assert EndsAt(t, m + 1, n); }
        if m: nat :| EndsAt(t, m, n) { assert EndsAt(rest, m - 1, p); }
      }
    }
  }

  lemma PrefixHead(t: string, m: nat)
    requires 0 < m <= |t|
    ensures JsonText.Bytes(t[..m]) == Utf8(t[0]) + JsonText.Bytes(t[1..][..m - 1])
  {
    assert t[..m][0] == t[0] && t[..m][1..] == t[1..][..m - 1];
  }

  ghost predicate EndsAt(t: string, m: nat, n: nat) {
    m <= |t| && |JsonText.Bytes(t[..m])| == n
  }

  lemma BoundaryShift(t: string, n: nat)
    requires t != "" && |Utf8(t[0])| <= n <= |JsonText.Bytes(t)|
    ensures CharBoundary(JsonText.Bytes(t), n) <==> CharBoundary(JsonText.Bytes(t[1..]), n - |Utf8(t[0])|)
  {
    StartsCharacter(t[1..]);
    ShiftBoundary(Utf8(t[0]), JsonText.Bytes(t[1..]), n);
  }

  lemma StartsCharacter(t: string)
    ensures t != "" ==> JsonText.Bytes(t) != [] && !Continues(JsonText.Bytes(t)[0])
  {
    if t != "" { Utf8Shape(t[0]); }
  }

  lemma ShiftBoundary(u: Bytes, v: Bytes, n: nat)
    requires 0 < |u| <= n <= |u + v| && (v != [] ==> !Continues(v[0]))
    ensures CharBoundary(u + v, n) <==> CharBoundary(v, n - |u|)
  {
  }

  lemma {:induction false} PrefixBytes(t: string, m: nat)
    requires m <= |t|
    ensures JsonText.Bytes(t[..m]) <= JsonText.Bytes(t)
    ensures m < |t| ==> |JsonText.Bytes(t[..m])| < |JsonText.Bytes(t[..m + 1])|
    decreases |t|
  {
    if m > 0 {
      PrefixHead(t, m);
      if m < |t| { PrefixHead(t, m + 1); }
      PrefixBytes(t[1..], m - 1);
    }
  }

  /** The truncation of a string's bytes is the bytes of its longest prefix that fits. */
  lemma TruncatesText(t: string, n: nat) returns (m: nat)
    requires Truncation(JsonText.Bytes(t), n)
    ensures m <= |t| && JsonText.Bytes(t)[..n] == JsonText.Bytes(t[..m])
    ensures m < |t| ==> |JsonText.Bytes(t[..m + 1])| > LENGTH_LIMIT
  {
    BoundaryEndsPrefix(t, n);
    m :| EndsAt(t, m, n);
    PrefixBytes(t, m);
    if m < |t| {
      PrefixBytes(t, m + 1);
      var next := |JsonText.Bytes(t[..m + 1])|;
      assert EndsAt(t, m + 1, next);
      BoundaryEndsPrefix(t, next);
    }
  }

  // ---- the framing ----

  function LengthBytes(n: nat): (r: Bytes)
    requires n <= LENGTH_LIMIT
    ensures |r| == 2 && r[0] as int + 0x100 * r[1] as int == n
  {
    [n % 0x100, n / 0x100]
  }

  /** A field of length n starts at i, after its length: the low byte, then the high byte. */
  ghost predicate FieldAt(buf: Bytes, i: nat, field: Bytes) {
    && i + 2 + |field| <= |buf|
    && buf[i] as int + 0x100 * buf[i + 1] as int == |field|
    && buf[i + 2..i + 2 + |field|] == field
  }

  /** The tag, the two fields and the id follow one another and fill the buffer. */
  ghost predicate Layout(dst: Bytes, kind: Bytes, key: Bytes, id: Bytes, buf: Bytes) {
    var i := |dst|;
    var j := i + 2 + |kind|;
    && FieldAt(buf, i, kind) && FieldAt(buf, j, key)
    && buf[..i] == dst && buf[j + 2 + |key|..] == id
  }

  /** Under one tag the bytes tell the fields. */
  lemma LayoutTells(dst: Bytes, k: Bytes, s: Bytes, i: Bytes, k': Bytes, s': Bytes, i': Bytes, buf: Bytes)
    requires Layout(dst, k, s, i, buf) && Layout(dst, k', s', i', buf)
    ensures k == k' && s == s' && i == i'
  {
    assert |k| == |k'|;
    assert |s| == |s'|;
  }

  /** And the fields tell the bytes. */
  lemma LayoutUnique(dst: Bytes, k: Bytes, s: Bytes, i: Bytes, buf: Bytes, buf': Bytes)
    requires Layout(dst, k, s, i, buf) && Layout(dst, k, s, i, buf')
    ensures buf == buf'
  {
    FieldUnique(buf, buf', |dst|, k);
    FieldUnique(buf, buf', |dst| + 2 + |k|, s);
    var a, b := |dst| + 2 + |k|, |dst| + 2 + |k| + 2 + |s|;
    assert buf == buf[..|dst|] + buf[|dst|..a] + buf[a..b] + buf[b..];
    assert buf' == buf'[..|dst|] + buf'[|dst|..a] + buf'[a..b] + buf'[b..];
  }

  lemma FieldUnique(buf: Bytes, buf': Bytes, i: nat, field: Bytes)
    requires FieldAt(buf, i, field) && FieldAt(buf', i, field)
    ensures buf[i..i + 2 + |field|] == buf'[i..i + 2 + |field|]
  {
    var a, b := buf[i..i + 2 + |field|], buf'[i..i + 2 + |field|];
    assert buf[i + 1] == buf'[i + 1];
    assert a == [buf[i], buf[i + 1]] + buf[i + 2..i + 2 + |field|];
    assert b == [buf'[i], buf'[i + 1]] + buf'[i + 2..i + 2 + |field|];
  }

  /** The bytes of an element, its fields truncated. */
  ghost predicate Frames(dst: Bytes, kind: Bytes, key: Bytes, id: Bytes, buf: Bytes) {
    exists k, s :: Limits(kind, k) && Limits(key, s) && Layout(dst, k, s, id, buf)
  }

  /** Fills the buffer field by field. */
  method FrameElement(dst: Bytes, kind: Bytes, key: Bytes, id: Bytes) returns (buf: Bytes)
    ensures Frames(dst, kind, key, id, buf)
  {
    var k, kindLen := TruncateToLimit(kind);
    var s, keyLen := TruncateToLimit(key);
    buf := dst;
    buf := buf + LengthBytes(kindLen);
    buf := buf + k;
    buf := buf + LengthBytes(keyLen);
    buf := buf + s;
    buf := buf + id;
    assert Limits(kind, k) && Limits(key, s);
    assert Layout(dst, k, s, id, buf);
  }

  /** Two elements get the same bytes exactly when they agree up to truncation: within the limit the
      framing is injective, and beyond it the cut-off tails are what it cannot see. */
  lemma SameBytes(dst: Bytes, k: Bytes, s: Bytes, i: Bytes, k': Bytes, s': Bytes, i': Bytes, buf: Bytes, buf': Bytes)
    requires Frames(dst, k, s, i, buf) && Frames(dst, k', s', i', buf')
    ensures buf == buf' <==>
            (exists l :: Limits(k, l) && Limits(k', l)) && (exists l :: Limits(s, l) && Limits(s', l)) && i == i'
    ensures |k| <= LENGTH_LIMIT && |k'| <= LENGTH_LIMIT && |s| <= LENGTH_LIMIT && |s'| <= LENGTH_LIMIT ==>
              (buf == buf' <==> k == k' && s == s' && i == i')
  {
    var a, b :| Limits(k, a) && Limits(s, b) && Layout(dst, a, b, i, buf);
    var a', b' :| Limits(k', a') && Limits(s', b') && Layout(dst, a', b', i', buf');
    LimitsUnique(k, a, a);
    LimitsUnique(s, b, b);
    LimitsUnique(k', a', a');
    LimitsUnique(s', b', b');
    if buf == buf' {
      LayoutTells(dst, a, b, i, a', b', i', buf);
    }
    if l, u :| Limits(k, l) && Limits(k', l) && Limits(s, u) && Limits(s', u) && i == i' {
      LimitsUnique(k, a, l);
      LimitsUnique(k', a', l);
      LimitsUnique(s, b, u);
      LimitsUnique(s', b', u);
      LayoutUnique(dst, a, b, i, buf, buf');
    }
  }
}
