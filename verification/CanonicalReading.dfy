/** A reader of compact JSON values, from the grammar of RFC 8259 without white
    space, and the proof that it reads back every canonical text.  Two values
    with the same text are therefore equal. */
module CanonicalReading {
  import opened CanonicalJson
  import opened JsonReader
  import opened JsonText
  import opened Sequences
  import opened Wrappers

  // ---- the reader ----

  function Read(s: seq<byte>): (r: Option<(Value, seq<byte>)>)
    ensures r.Some? ==> |r.value.1| < |s|
    decreases |s|, 1
  {
    if s == [] then None
    else if s[0] == 0x6e then ReadLiteral(s, [0x6e, 0x75, 0x6c, 0x6c], Null)
    else if s[0] == 0x74 then ReadLiteral(s, [0x74, 0x72, 0x75, 0x65], Bool(true))
    else if s[0] == 0x66 then ReadLiteral(s, [0x66, 0x61, 0x6c, 0x73, 0x65], Bool(false))
    else if s[0] == 0x22 then
      match ReadChars(s[1..])
      case None => None
      case Some((t, rest)) => Some((String(t), rest))
    else if s[0] == 0x5b then ReadArray(s[1..])
    else if s[0] == 0x7b then ReadObject(s[1..])
    else match ReadInt(s)
      case None => None
      case Some((n, rest)) => Some((Number(Signed(n)), rest))
  }

  function ReadLiteral(s: seq<byte>, literal: seq<byte>, v: Value): (r: Option<(Value, seq<byte>)>)
    requires literal != []
    ensures r.Some? ==> |r.value.1| < |s|
  {
    if literal <= s then Some((v, s[|literal|..])) else None
  }

  /** After the opening bracket. */
  function ReadArray(s: seq<byte>): (r: Option<(Value, seq<byte>)>)
    ensures r.Some? ==> |r.value.1| < |s|
    decreases |s|, 2
  {
    if s != [] && s[0] == 0x5d then Some((Array([]), s[1..]))
    else match Read(s)
      case None => None
      case Some((v, rest)) =>
        match ReadItems(rest)
        case None => None
        case Some((vs, end)) => Some((Array([v] + vs), end))
  }

  /** After an item: the closing bracket, or a comma and more. */
  function ReadItems(s: seq<byte>): (r: Option<(seq<Value>, seq<byte>)>)
    ensures r.Some? ==> |r.value.1| < |s|
    decreases |s|, 0
  {
    if s == [] then None
    else if s[0] == 0x5d then Some(([], s[1..]))
    else if s[0] != 0x2c then None
    else match Read(s[1..])
      case None => None
      case Some((v, rest)) =>
        match ReadItems(rest)
        case None => None
        case Some((vs, end)) => Some(([v] + vs, end))
  }

  /** After the opening brace. */
  function ReadObject(s: seq<byte>): (r: Option<(Value, seq<byte>)>)
    ensures r.Some? ==> |r.value.1| < |s|
    decreases |s|, 2
  {
    if s != [] && s[0] == 0x7d then Some((Object(map[]), s[1..]))
    else match ReadMember(s)
      case None => None
      case Some((m, rest)) =>
        match ReadMembers(rest)
        case None => None
        case Some((ms, end)) => Some((Object(map[m.0 := m.1] + ms), end))
  }

  function ReadMember(s: seq<byte>): (r: Option<((string, Value), seq<byte>)>)
    ensures r.Some? ==> |r.value.1| < |s|
    decreases |s|, 0
  {
    if s == [] || s[0] != 0x22 then None
    else match ReadChars(s[1..])
      case None => None
      case Some((k, rest)) =>
        if rest == [] || rest[0] != 0x3a then None
        else match Read(rest[1..])
          case None => None
          case Some((v, end)) => Some(((k, v), end))
  }

  /** After a member: the closing brace, or a comma and more; of members with one name the last counts. */
  function ReadMembers(s: seq<byte>): (r: Option<(map<string, Value>, seq<byte>)>)
    ensures r.Some? ==> |r.value.1| < |s|
    decreases |s|, 0
  {
    if s == [] then None
    else if s[0] == 0x7d then Some((map[], s[1..]))
    else if s[0] != 0x2c then None
    else match ReadMember(s[1..])
      case None => None
      case Some((m, rest)) =>
        match ReadMembers(rest)
        case None => None
        case Some((ms, end)) => Some((map[m.0 := m.1] + ms, end))
  }

  // ---- it reads what the encoder writes ----

  lemma PastHead(h: byte, s: seq<byte>, x: seq<byte>)
    ensures ([h] + s + x)[0] == h && ([h] + s + x)[1..] == s + x
  {
  }

  lemma Regroup(a: seq<byte>, b: seq<byte>, x: seq<byte>)
    ensures a + b + x == a + (b + x)
  {
  }

  /** A text does not start like a closing bracket, and only strings start with a quote. */
  lemma TextStarts(v: Value, x: seq<byte>)
    requires Encodable(v)
    ensures |Text(v)| > 0 && (Text(v) + x)[0] == Text(v)[0] && Text(v)[0] != 0x5d
  {
  }

  lemma {:induction false} ReadsText(v: Value, x: seq<byte>)
    requires Encodable(v) && Delimited(x)
    ensures Read(Text(v) + x) == Some((v, x))
    decreases v, 1
  {
    match v
    case Null => ReadsLiteral(NULL_TEXT, Null, x);
    case Bool(b) => ReadsLiteral(if b then TRUE_TEXT else FALSE_TEXT, v, x);
    case Number(n) => ReadsNumber(n.i, x);
    case String(s) => ReadsString(s, x);
    case Array(_) =>
      Reassociate([0x5b], ItemsFrom(v, 0), x);
      OpeningBracket(ItemsFrom(v, 0) + x);
      ReadsArray(v, x);
    case Object(members) =>
      var ms := MembersFrom(v, SortedKeys(members.Keys), 0);
      Reassociate([0x7b], ms, x);
      OpeningBracket(ms + x);
      ReadsObject(v, x);
  }

  lemma OpeningBracket(s: seq<byte>)
    ensures Read([0x5b] + s) == ReadArray(s) && Read([0x7b] + s) == ReadObject(s)
  {
    assert ([0x5b] + s)[1..] == s && ([0x7b] + s)[1..] == s;
  }

  lemma ReadsNumber(n: int, x: seq<byte>)
    requires Delimited(x)
    ensures Read(IntText(n) + x) == Some((Number(Signed(n)), x))
  {
    ReadsInt(n, x);
    assert (IntText(n) + x)[0] == IntText(n)[0];
  }

  lemma ReadsString(s: string, x: seq<byte>)
    ensures Read(StringText(s) + x) == Some((String(s), x))
  {
    ReadsStringBody(s, x);
    PastHead(QUOTE, StringBody(s), x);
  }

  lemma ReadsLiteral(literal: seq<byte>, v: Value, x: seq<byte>)
    requires literal != []
    ensures ReadLiteral(literal + x, literal, v) == Some((v, x)) && (literal + x)[0] == literal[0]
  {
    assert (literal + x)[|literal|..] == x;
  }

  lemma {:induction false} ReadsArray(v: Value, x: seq<byte>)
    requires v.Array? && Encodable(v)
    ensures ReadArray(ItemsFrom(v, 0) + x) == Some((v, x))
    decreases v, 0, |v.items| + 1
  {
    if v.items == [] {
      assert (ItemsFrom(v, 0) + x)[1..] == x;
    } else {
      var first, rest := v.items[0], ItemsFrom(v, 1);
      assert first in v.items;
      assert [] + Text(first) == Text(first);
      Regroup(Text(first), rest, x);
      TextStarts(first, rest + x);
      ReadsItems(v, 1, x);
      ReadsText(first, rest + x);
      assert v.items == [first] + v.items[1..];
    }
  }

  lemma {:induction false} ReadsItems(v: Value, i: nat, x: seq<byte>)
    requires v.Array? && Encodable(v) && 0 < i <= |v.items|
    ensures Delimited(ItemsFrom(v, i) + x)
    ensures ReadItems(ItemsFrom(v, i) + x) == Some((v.items[i..], x))
    decreases v, 0, |v.items| - i
  {
    if i == |v.items| {
      assert (ItemsFrom(v, i) + x)[1..] == x;
      assert v.items[i..] == [];
    } else {
      var item, rest := v.items[i], ItemsFrom(v, i + 1);
      assert item in v.items;
      PastHead(COMMA, Text(item) + rest, x);
      Reassociate([COMMA], Text(item), rest);
      Regroup(Text(item), rest, x);
      ReadsItems(v, i + 1, x);
      ReadsText(item, rest + x);
      assert v.items[i..] == [item] + v.items[i + 1..];
    }
  }

  /** The members under the given keys. */
  ghost function Part(m: map<string, Value>, ks: seq<string>): map<string, Value> {
    map k | k in ks && k in m :: m[k]
  }

  lemma {:induction false} ReadsObject(v: Value, x: seq<byte>)
    requires v.Object? && Encodable(v)
    ensures ReadObject(MembersFrom(v, SortedKeys(v.members.Keys), 0) + x) == Some((v, x))
    decreases v, 0, |SortedKeys(v.members.Keys)| + 1
  {
    var ks := SortedKeys(v.members.Keys);
    assert forall k :: k in ks <==> k in v.members;
    if ks == [] {
      assert (MembersFrom(v, ks, 0) + x)[1..] == x;
      assert v.members == map[];
    } else {
      var rest := MembersFrom(v, ks, 1);
      var member := StringText(ks[0]) + [COLON] + Text(v.members[ks[0]]);
      assert [] + member == member;
      Regroup(member, rest, x);
      ReadsMembers(v, ks, 1, x);
      ReadsMember(v, ks[0], rest + x);
      assert (member + (rest + x))[0] == QUOTE;
      MemberThenRest(member + (rest + x), (ks[0], v.members[ks[0]]), rest + x, Part(v.members, ks[1..]), x);
      PartStep(v.members, ks);
      assert Part(v.members, ks) == v.members;
    }
  }

  lemma MemberThenRest(s: seq<byte>, m: (string, Value), rest: seq<byte>, ms: map<string, Value>, x: seq<byte>)
    requires s != [] && s[0] == QUOTE && ReadMember(s) == Some((m, rest)) && ReadMembers(rest) == Some((ms, x))
    ensures ReadObject(s) == Some((Object(map[m.0 := m.1] + ms), x))
  {
  }

  lemma PartStep(m: map<string, Value>, ks: seq<string>)
    requires ks != [] && ks[0] in m
    ensures Part(m, ks) == map[ks[0] := m[ks[0]]] + Part(m, ks[1..])
  {
    assert ks == [ks[0]] + ks[1..];
  }

  lemma {:induction false} ReadsMember(v: Value, k: string, x: seq<byte>)
    requires v.Object? && Encodable(v) && k in v.members && Delimited(x)
    ensures ReadMember(StringText(k) + [COLON] + Text(v.members[k]) + x) == Some(((k, v.members[k]), x))
    decreases v, 0, 0
  {
    var t := Text(v.members[k]);
    var after := [COLON] + t + x;
    ReadsText(v.members[k], x);
    MemberText(StringText(k), t, x);
    PastHead(QUOTE, StringBody(k), after);
    ReadsStringBody(k, after);
    PastHead(COLON, t, x);
  }

  lemma MemberText(key: seq<byte>, t: seq<byte>, x: seq<byte>)
    ensures key + [COLON] + t + x == key + ([COLON] + t + x)
  {
  }

  lemma {:induction false} ReadsMembers(v: Value, ks: seq<string>, i: nat, x: seq<byte>)
    requires v.Object? && Encodable(v) && 0 < i <= |ks| && forall k :: k in ks ==> k in v.members
    ensures Delimited(MembersFrom(v, ks, i) + x)
    ensures ReadMembers(MembersFrom(v, ks, i) + x) == Some((Part(v.members, ks[i..]), x))
    decreases v, 0, |ks| - i
  {
    if i == |ks| {
      assert (MembersFrom(v, ks, i) + x)[1..] == x;
      assert Part(v.members, ks[i..]) == map[];
    } else {
      var member, rest := StringText(ks[i]) + [COLON] + Text(v.members[ks[i]]), MembersFrom(v, ks, i + 1);
      PastHead(COMMA, member + rest, x);
      Reassociate([COMMA], member, rest);
      Regroup(member, rest, x);
      ReadsMembers(v, ks, i + 1, x);
      ReadsMember(v, ks[i], rest + x);
      PartStep(v.members, ks[i..]);
      assert ks[i..][1..] == ks[i + 1..];
    }
  }

  // ---- the text determines the value ----

  /** Two encodable values whose texts start the same input are the same value, and leave the same
      rest. */
  lemma TextUnique(a: Value, b: Value, x: seq<byte>, y: seq<byte>)
    requires Encodable(a) && Encodable(b) && Delimited(x) && Delimited(y)
    requires Text(a) + x == Text(b) + y
    ensures a == b && x == y
  {
    ReadsText(a, x);
    ReadsText(b, y);
  }

  lemma CanonicalInjective(a: Value, b: Value)
    requires Encodable(a) && Encodable(b) && Text(a) == Text(b)
    ensures a == b
  {
    TextUnique(a, b, [], []);
  }
}
