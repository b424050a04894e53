/** String and number text of Matrix Canonical JSON, as append_string and
    append_number of src/merkle.rs write it. */
module JsonText {
  import opened Wrappers

  const QUOTE: byte := 0x22
  const BACKSLASH: byte := 0x5c

  // ---- characters ----

  /** UTF-8. */
  function Utf8(c: char): (r: seq<byte>)
    ensures 1 <= |r| <= 4
  {
    var n := c as int;
    if n < 0x80 then [n]
    else if n < 0x800 then [0xc0 + n / 0x40, 0x80 + n % 0x40]
    else if n < 0x10000 then [0xe0 + n / 0x1000, 0x80 + n / 0x40 % 0x40, 0x80 + n % 0x40]
    else [0xf0 + n / 0x40000, 0x80 + n / 0x1000 % 0x40, 0x80 + n / 0x40 % 0x40, 0x80 + n % 0x40]
  }

  /** A whole string in UTF-8. */
  function Bytes(s: string): seq<byte> {
    if s == "" then [] else Utf8(s[0]) + Bytes(s[1..])
  }

  function HexLower(d: nat): byte
    requires d < 16
  {
    if d < 10 then 0x30 + d else 0x57 + d
  }

  function EscapeChar(c: char): (r: seq<byte>)
    ensures |r| >= 1
  {
    var n := c as int;
    if n == 0x22 then [BACKSLASH, QUOTE]
    else if n == 0x5c then [BACKSLASH, BACKSLASH]
    else if n == 0x08 then [BACKSLASH, 0x62]
    else if n == 0x0c then [BACKSLASH, 0x66]
    else if n == 0x0a then [BACKSLASH, 0x6e]
    else if n == 0x0d then [BACKSLASH, 0x72]
    else if n == 0x09 then [BACKSLASH, 0x74]
    else if n < 0x20 then [BACKSLASH, 0x75, 0x30, 0x30, HexLower(n / 16), HexLower(n % 16)]
    else Utf8(c)
  }

  // ---- strings ----

  function StringBody(s: string): seq<byte> {
    if s == "" then [QUOTE] else EscapeChar(s[0]) + StringBody(s[1..])
  }

  function StringText(s: string): (r: seq<byte>)
    ensures |r| > 0 && r[0] == QUOTE
  {
    [QUOTE] + StringBody(s)
  }

  // ---- numbers ----

  predicate IsDigit(b: byte) {
    0x30 <= b <= 0x39
  }

  function Digits(n: nat): (r: seq<byte>)
    ensures |r| > 0 && forall i :: 0 <= i < |r| ==> IsDigit(r[i])
  {
    if n < 10 then [0x30 + n] else Digits(n / 10) + [0x30 + n % 10]
  }

  /** Text that cannot continue a number. */
  predicate Delimited(x: seq<byte>) {
    x == [] || !IsDigit(x[0])
  }

  function IntText(n: int): (r: seq<byte>)
    ensures |r| > 0 && (r[0] == 0x2d || IsDigit(r[0]))
  {
    if n < 0 then [0x2d] + Digits(-n) else Digits(n)
  }
}
