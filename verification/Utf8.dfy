/** UTF-8 and hexadecimal escapes, as far as the encoders of unit and device names need them. */
module Utf8 {

  /** The bytes of a character (RFC 3629, section 3). */
  function Bytes(c: char): (b: seq<int>)
    ensures 1 <= |b| <= 4 && forall i :: 0 <= i < |b| ==> 0 <= b[i] < 256
  {
    var n := c as int;
    if n < 0x80 then [n]
    else if n < 0x800 then [0xc0 + n / 64, 0x80 + n % 64]
    else if n < 0x1_0000 then [0xe0 + n / 4096, 0x80 + n / 64 % 64, 0x80 + n % 64]
    else [0xf0 + n / 262144, 0x80 + n / 4096 % 64, 0x80 + n / 64 % 64, 0x80 + n % 64]
  }

  function Width(lead: int): nat
  {
    if lead < 0x80 then 1 else if lead < 0xe0 then 2 else if lead < 0xf0 then 3 else 4
  }

  /** The first byte tells how many there are. */
  lemma LeadByte(c: char)
    ensures |Bytes(c)| == Width(Bytes(c)[0])
  {
  }

  /** The code of a character, from its bytes. */
  function CodeOf(b: seq<int>): int
    requires 1 <= |b| <= 4
  {
    if |b| == 1 then b[0]
    else if |b| == 2 then (b[0] - 0xc0) * 64 + (b[1] - 0x80)
    else if |b| == 3 then (b[0] - 0xe0) * 4096 + (b[1] - 0x80) * 64 + (b[2] - 0x80)
    else (b[0] - 0xf0) * 262144 + (b[1] - 0x80) * 4096 + (b[2] - 0x80) * 64 + (b[3] - 0x80)
  }

  lemma CodeBack(c: char)
    ensures CodeOf(Bytes(c)) == c as int
  {
    var n := c as int;
    assert n == n / 64 * 64 + n % 64;
    assert n / 64 == n / 4096 * 64 + n / 64 % 64;
    assert n / 4096 == n / 262144 * 64 + n / 4096 % 64;
  }

  lemma BytesInjective(c: char, d: char)
    requires Bytes(c) == Bytes(d)
    ensures c == d
  {
    CodeBack(c);
    CodeBack(d);
  }

  /** No character's bytes begin another's. */
  lemma BytesPrefix(c: char, s: seq<int>, d: char, t: seq<int>)
    requires Bytes(c) + s == Bytes(d) + t
    ensures c == d && s == t
  {
    LeadByte(c);
    LeadByte(d);
    assert (Bytes(c) + s)[0] == Bytes(c)[0] && (Bytes(d) + t)[0] == Bytes(d)[0];
    SplitEqual(Bytes(c), s, Bytes(d), t);
    BytesInjective(c, d);
  }

  lemma SplitEqual<T>(x: seq<T>, s: seq<T>, y: seq<T>, t: seq<T>)
    requires |x| == |y| && x + s == y + t
    ensures x == y && s == t
  {
    assert x == (x + s)[..|x|] && y == (y + t)[..|y|];
    assert s == (x + s)[|x|..] && t == (y + t)[|y|..];
  }

  /** The bytes of a text. */
  function Encode(text: string): (b: seq<int>)
    ensures forall i :: 0 <= i < |b| ==> 0 <= b[i] < 256
  {
    if text == "" then [] else Bytes(text[0]) + Encode(text[1..])
  }

  lemma {:induction false} EncodeInjective(a: string, b: string)
    requires Encode(a) == Encode(b)
    ensures a == b
  {
    if a != "" && b != "" {
      BytesPrefix(a[0], Encode(a[1..]), b[0], Encode(b[1..]));
      EncodeInjective(a[1..], b[1..]);
      assert a == [a[0]] + a[1..] && b == [b[0]] + b[1..];
    }
  }

  // -------------------------------------------------------------------- hexadecimal

  function HexDigit(n: int): (c: char)
    requires 0 <= n < 16
    ensures c != '/' && c != '\\' && c != '-'
  {
    if n < 10 then ('0' as int + n) as char else ('a' as int + (n - 10)) as char
  }

  /** A byte as a backslash, an `x` and two hexadecimal digits. */
  function Hex(b: int): (s: string)
    requires 0 <= b < 256
    ensures |s| == 4 && s[0] == '\\' && s[1] == 'x'
  {
    ['\\', 'x', HexDigit(b / 16), HexDigit(b % 16)]
  }

  lemma HexInjective(a: int, b: int)
    requires 0 <= a < 256 && 0 <= b < 256 && Hex(a) == Hex(b)
    ensures a == b
  {
  }

  function HexAll(bytes: seq<int>): (s: string)
    requires forall i :: 0 <= i < |bytes| ==> 0 <= bytes[i] < 256
    ensures |s| == 4 * |bytes|
  {
    if bytes == [] then "" else Hex(bytes[0]) + HexAll(bytes[1..])
  }

  lemma {:induction false} HexAllInjective(a: seq<int>, b: seq<int>)
    requires forall i :: 0 <= i < |a| ==> 0 <= a[i] < 256
    requires forall i :: 0 <= i < |b| ==> 0 <= b[i] < 256
    requires HexAll(a) == HexAll(b)
    ensures a == b
  {
    assert |a| == |b|;
    if a != [] {
      SplitEqual(Hex(a[0]), HexAll(a[1..]), Hex(b[0]), HexAll(b[1..]));
      HexInjective(a[0], b[0]);
      HexAllInjective(a[1..], b[1..]);
      assert a == [a[0]] + a[1..] && b == [b[0]] + b[1..];
    }
  }
}
