/** A reader of JSON strings and integers, written from section 7 of RFC 8259
    (strings and escapes), its section 6 (integers, without fraction or
    exponent), and section 3 of RFC 3629 (UTF-8).  It shares nothing with the
    writer, and reads back whatever the writer writes. */
module JsonReader {
  import opened JsonText
  import opened Wrappers

  // ---- characters ----

  predicate Continues(b: byte) {
    0x80 <= b < 0xc0
  }

  /** A code point, unless it is out of range, a surrogate, or has a shorter form. */
  function CodePoint(n: int, least: int, rest: seq<byte>): Option<(char, seq<byte>)> {
    if n >= least && (0 <= n < 0xd800 || 0xe000 <= n < 0x110000) then Some((n as char, rest)) else None
  }

  function ReadUtf8(s: seq<byte>): (r: Option<(char, seq<byte>)>)
    ensures r.Some? ==> |r.value.1| < |s|
  {
    if s == [] then None
    else
      var a: int := s[0];
      if a < 0x80 then CodePoint(a, 0, s[1..])
      else if |s| < 2 || !Continues(s[1]) then None
      else
        var b: int := s[1] - 0x80;
        if 0xc0 <= a < 0xe0 then CodePoint((a - 0xc0) * 0x40 + b, 0x80, s[2..])
        else if |s| < 3 || !Continues(s[2]) then None
        else
          var c: int := s[2] - 0x80;
          if 0xe0 <= a < 0xf0 then CodePoint((a - 0xe0) * 0x1000 + b * 0x40 + c, 0x800, s[3..])
          else if |s| < 4 || !Continues(s[3]) then None
          else
            var d: int := s[3] - 0x80;
            if 0xf0 <= a < 0xf8 then CodePoint((a - 0xf0) * 0x40000 + b * 0x1000 + c * 0x40 + d, 0x10000, s[4..])
            else None
  }

  lemma ReadsUtf8(c: char, x: seq<byte>)
    ensures ReadUtf8(Utf8(c) + x) == Some((c, x))
  {
    var n, s := c as int, Utf8(c) + x;
    Recombine(n);
    assert s[|Utf8(c)|..] == x;
  }

  lemma Recombine(n: nat)
    ensures n == n / 0x40 * 0x40 + n % 0x40
    ensures n == n / 0x1000 * 0x1000 + n / 0x40 % 0x40 * 0x40 + n % 0x40
    ensures n == n / 0x40000 * 0x40000 + n / 0x1000 % 0x40 * 0x1000 + n / 0x40 % 0x40 * 0x40 + n % 0x40
  {
    assert n / 0x1000 == n / 0x40 / 0x40;
    assert n / 0x40000 == n / 0x1000 / 0x40;
  }

  /** A whole string of UTF-8. */
  function ReadText(s: seq<byte>): Option<string>
    decreases |s|
  {
    if s == [] then Some("")
    else match ReadUtf8(s)
      case None => None
      case Some((c, rest)) =>
        match ReadText(rest)
        case None => None
        case Some(text) => Some([c] + text)
  }

  lemma {:induction false} ReadsBytes(s: string)
    ensures ReadText(Bytes(s)) == Some(s)
    decreases |s|
  {
    if s != "" {
      ReadsUtf8(s[0], Bytes(s[1..]));
      ReadsBytes(s[1..]);
      assert s == [s[0]] + s[1..];
    }
  }

  lemma BytesInjective(s: string, t: string)
    requires Bytes(s) == Bytes(t)
    ensures s == t
  {
    ReadsBytes(s);
    ReadsBytes(t);
  }

  // ---- escapes ----

  /** What stands after a backslash: the table of section 7 of RFC 8259. */
  function EscapeMeaning(b: byte): Option<int> {
    if b == 0x22 then Some(0x22)
    else if b == 0x5c then Some(0x5c)
    else if b == 0x2f then Some(0x2f)
    else if b == 0x62 then Some(0x08)
    else if b == 0x66 then Some(0x0c)
    else if b == 0x6e then Some(0x0a)
    else if b == 0x72 then Some(0x0d)
    else if b == 0x74 then Some(0x09)
    else None
  }

  function HexValue(b: byte): Option<int> {
    if 0x30 <= b <= 0x39 then Some(b - 0x30)
    else if 0x41 <= b <= 0x46 then Some(b - 0x37)
    else if 0x61 <= b <= 0x66 then Some(b - 0x57)
    else None
  }

  function ReadHex(s: seq<byte>, digits: nat): Option<int>
    requires digits <= |s|
  {
    if digits == 0 then Some(0)
    else match (ReadHex(s, digits - 1), HexValue(s[digits - 1]))
      case (Some(n), Some(d)) => Some(16 * n + d)
      case (_, _) => None
  }

  /** One character of a string, after the backslash. */
  function ReadEscape(s: seq<byte>): (r: Option<(char, seq<byte>)>)
    ensures r.Some? ==> |r.value.1| < |s|
  {
    if s == [] then None
    else if s[0] == 0x75 then
      if |s| < 5 then None
      else match ReadHex(s[1..5], 4)
        case None => None
        case Some(n) => CodePoint(n, 0, s[5..])
    else match EscapeMeaning(s[0])
      case None => None
      case Some(n) => CodePoint(n, 0, s[1..])
  }

  function ReadChar(s: seq<byte>): (r: Option<(char, seq<byte>)>)
    ensures r.Some? ==> |r.value.1| < |s|
  {
    if s == [] || s[0] < 0x20 then None
    else if s[0] == 0x5c then ReadEscape(s[1..])
    else ReadUtf8(s)
  }

  lemma ReadsEscaped(c: char, x: seq<byte>)
    ensures ReadChar(EscapeChar(c) + x) == Some((c, x)) && EscapeChar(c)[0] != 0x22
  {
    var n, e, s := c as int, EscapeChar(c), EscapeChar(c) + x;
    assert s[|e|..] == x && forall i :: 0 <= i < |e| ==> s[i] == e[i];
    if n < 0x20 && |e| == 6 {
      ReadsHex(n, s);
    } else if |e| == 2 && e[0] == 0x5c {
      assert s[1..][1..] == x;
    } else {
      ReadsUtf8(c, x);
    }
  }

  lemma ReadsHex(n: nat, s: seq<byte>)
    requires n < 0x20 && |s| >= 6 && s[0] == 0x5c && s[1] == 0x75 && s[2] == s[3] == 0x30
    requires s[4] == HexLower(n / 16) && s[5] == HexLower(n % 16)
    ensures ReadEscape(s[1..]) == Some((n as char, s[6..]))
  {
    var h := s[1..][1..5];
    assert h == [0x30, 0x30, s[4], s[5]];
    assert ReadHex(h, 2) == Some(0) by { assert ReadHex(h, 1) == Some(0) by { assert ReadHex(h, 0) == Some(0); } }
    assert ReadHex(h, 3) == Some(n / 16);
    assert ReadHex(h, 4) == Some(n);
    assert s[1..][5..] == s[6..];
  }

  /** Each escape is the shortest there is: two bytes where the table has the character, the
      six-byte form in lower case for the other control characters, and none elsewhere. */
  lemma EscapesShortest(c: char)
    ensures var n, e := c as int, EscapeChar(c);
      && (|e| == 2 && e[0] == 0x5c <==> exists b: byte :: b != 0x2f && EscapeMeaning(b) == Some(n))
      && (|e| == 6 ==> n < 0x20 && forall i :: 0 <= i < 6 ==> !(0x41 <= e[i] <= 0x5a))
      && (e[0] != 0x5c ==> e == Utf8(c) && n >= 0x20)
  {
    var n := c as int;
    if n == 0x22 { assert EscapeMeaning(0x22) == Some(n); }
    if n == 0x5c { assert EscapeMeaning(0x5c) == Some(n); }
    if n == 0x08 { assert EscapeMeaning(0x62) == Some(n); }
    if n == 0x0c { assert EscapeMeaning(0x66) == Some(n); }
    if n == 0x0a { assert EscapeMeaning(0x6e) == Some(n); }
    if n == 0x0d { assert EscapeMeaning(0x72) == Some(n); }
    if n == 0x09 { assert EscapeMeaning(0x74) == Some(n); }
  }

  // ---- strings ----

  /** The characters up to the closing quote. */
  function ReadChars(s: seq<byte>): (r: Option<(string, seq<byte>)>)
    ensures r.Some? ==> |r.value.1| < |s|
    decreases |s|
  {
    if s == [] then None
    else if s[0] == 0x22 then Some(("", s[1..]))
    else match ReadChar(s)
      case None => None
      case Some((c, rest)) =>
        match ReadChars(rest)
        case None => None
        case Some((t, end)) => Some(([c] + t, end))
  }

  lemma {:induction false} ReadsStringBody(s: string, x: seq<byte>)
    ensures ReadChars(StringBody(s) + x) == Some((s, x))
    decreases |s|
  {
    if s == "" {
      assert (StringBody(s) + x)[1..] == x;
    } else {
      var first, rest := EscapeChar(s[0]), StringBody(s[1..]);
      ReadsStringBody(s[1..], x);
      ReadsEscaped(s[0], rest + x);
      ReadsOneMore(first, rest, x, s[0], s[1..]);
      assert s == [s[0]] + s[1..];
    }
  }

  lemma ReadsOneMore(first: seq<byte>, rest: seq<byte>, x: seq<byte>, c: char, t: string)
    requires first != [] && first[0] != 0x22
    requires ReadChar(first + (rest + x)) == Some((c, rest + x)) && ReadChars(rest + x) == Some((t, x))
    ensures ReadChars(first + rest + x) == Some(([c] + t, x))
  {
    assert first + rest + x == first + (rest + x);
  }

  // ---- integers ----

  /** The number of digits in front. */
  function Leading(s: seq<byte>): (k: nat)
    ensures k <= |s|
  {
    if s == [] || !(0x30 <= s[0] <= 0x39) then 0 else 1 + Leading(s[1..])
  }

  function DigitsValue(s: seq<byte>): int {
    if s == [] then 0
    else
      var last: int := s[|s| - 1];
      10 * DigitsValue(s[..|s| - 1]) + last - 0x30
  }

  /** Digits without a superfluous zero in front. */
  function ReadNat(s: seq<byte>): (r: Option<(int, seq<byte>)>)
    ensures r.Some? ==> |r.value.1| < |s|
  {
    var k := Leading(s);
    if k == 0 || (k > 1 && s[0] == 0x30) then None else Some((DigitsValue(s[..k]), s[k..]))
  }

  /** An integer; a negative zero is not one. */
  function ReadInt(s: seq<byte>): (r: Option<(int, seq<byte>)>)
    ensures r.Some? ==> |r.value.1| < |s|
  {
    if s != [] && s[0] == 0x2d then
      match ReadNat(s[1..])
      case None => None
      case Some((n, rest)) => if n == 0 then None else Some((-n, rest))
    else ReadNat(s)
  }

  lemma {:induction false} LeadingDigits(d: seq<byte>, x: seq<byte>)
    requires Delimited(x) && forall i :: 0 <= i < |d| ==> IsDigit(d[i])
    ensures Leading(d + x) == |d|
  {
    if d == [] {
      assert d + x == x;
    } else {
      LeadingDigits(d[1..], x);
      assert (d + x)[1..] == d[1..] + x;
    }
  }

  lemma {:induction false} DigitsRead(n: nat)
    ensures DigitsValue(Digits(n)) == n
    ensures n > 0 ==> Digits(n)[0] != 0x30
    ensures n == 0 ==> |Digits(n)| == 1
  {
    if n >= 10 {
      DigitsRead(n / 10);
      assert Digits(n)[..|Digits(n)| - 1] == Digits(n / 10);
    } else {
      assert Digits(n)[..0] == [];
    }
  }

  lemma ReadsDigits(n: nat, x: seq<byte>)
    requires Delimited(x)
    ensures ReadNat(Digits(n) + x) == Some((n, x))
  {
    var d := Digits(n);
    LeadingDigits(d, x);
    DigitsRead(n);
    assert (d + x)[..|d|] == d && (d + x)[|d|..] == x && (d + x)[0] == d[0];
  }

  lemma ReadsInt(n: int, x: seq<byte>)
    requires Delimited(x)
    ensures ReadInt(IntText(n) + x) == Some((n, x))
  {
    if n < 0 {
      ReadsNegative(-n, x);
    } else {
      ReadsDigits(n, x);
      FirstDigit(n, x);
    }
  }

  lemma FirstDigit(n: nat, x: seq<byte>)
    ensures (Digits(n) + x)[0] != 0x2d
  {
    assert (Digits(n) + x)[0] == Digits(n)[0];
  }

  lemma ReadsNegative(n: int, x: seq<byte>)
    requires n > 0 && Delimited(x)
    ensures ReadInt([0x2d] + Digits(n) + x) == Some((-n, x))
  {
    ReadsDigits(n, x);
    ReadsMinus(n, Digits(n), x);
  }

  lemma ReadsMinus(n: int, d: seq<byte>, x: seq<byte>)
    requires n > 0 && ReadNat(d + x) == Some((n, x))
    ensures ReadInt([0x2d] + d + x) == Some((-n, x))
  {
    assert ([0x2d] + d + x)[1..] == d + x;
  }
}
