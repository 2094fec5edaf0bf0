/** The UTF-8 form of text (sections 3 and 4 of RFC 3629). */
module Utf8 {
  import opened Basics
  import opened Path

  function EncodeChar(c: char): (bytes: seq<byte>)
    ensures 1 <= |bytes| <= 4
  {
    var n := c as int;
    if n < 0x80 then [n]
    else if n < 0x800 then [0xC0 + n / 64, 0x80 + n % 64]
    else if n < 0x10000 then [0xE0 + n / 4096, 0x80 + n / 64 % 64, 0x80 + n % 64]
    else [0xF0 + n / 262144, 0x80 + n / 4096 % 64, 0x80 + n / 64 % 64, 0x80 + n % 64]
  }

  function Encode(s: string): (bytes: seq<byte>) {
    if s == [] then [] else EncodeChar(s[0]) + Encode(s[1..])
  }

  lemma {:induction false} LengthIsByteLen(s: string)
    ensures |Encode(s)| == ByteLen(s)
  {
    if s != [] {
      LengthIsByteLen(s[1..]);
    }
  }

  /** The first byte tells how many bytes a character takes. */
  function Width(first: byte): nat {
    if first < 0x80 then 1 else if first < 0xE0 then 2 else if first < 0xF0 then 3 else 4
  }

  lemma WidthIsLength(c: char)
    ensures |EncodeChar(c)| == Width(EncodeChar(c)[0])
  {
  }

  lemma Digits64(n: nat)
    ensures n == n / 64 * 64 + n % 64
    ensures n / 64 == n / 4096 * 64 + n / 64 % 64
    ensures n / 4096 == n / 262144 * 64 + n / 4096 % 64
  {
    assert n / 64 / 64 == n / 4096;
    assert n / 4096 / 64 == n / 262144;
  }

  lemma CharIsDetermined(c: char, d: char)
    requires EncodeChar(c) == EncodeChar(d)
    ensures c == d
  {
    var m, n := c as int, d as int;
    Digits64(m);
    Digits64(n);
    var x, y := EncodeChar(c), EncodeChar(d);
    assert forall i :: 0 <= i < |x| ==> x[i] == y[i];
    WidthIsLength(c);
    WidthIsLength(d);
    assert m == n;
  }

  /** Different texts have different bytes. */
  lemma {:induction false} EncodeIsInjective(s: string, t: string)
    requires Encode(s) == Encode(t)
    ensures s == t
  {
    if s != [] && t != [] {
      var x, y := EncodeChar(s[0]), EncodeChar(t[0]);
      WidthIsLength(s[0]);
      WidthIsLength(t[0]);
      assert x[0] == Encode(s)[0] == Encode(t)[0] == y[0];
      assert x == Encode(s)[..|x|] == Encode(t)[..|x|] == y;
      CharIsDetermined(s[0], t[0]);
      assert Encode(s[1..]) == Encode(s)[|x|..] == Encode(t)[|x|..] == Encode(t[1..]);
      EncodeIsInjective(s[1..], t[1..]);
      assert s == [s[0]] + s[1..] && t == [t[0]] + t[1..];
    }
  }

  /** A byte without its marker. */
  function Without(n: int, marker: int): int {
    n - marker
  }

  /** The number that the bytes of one character carry: the bits after each byte's marker. */
  function Carried(bytes: seq<byte>): int
    requires 1 <= |bytes| <= 4
  {
    if |bytes| == 1 then bytes[0]
    else if |bytes| == 2 then Without(bytes[0], 0xC0) * 0x40 + Without(bytes[1], 0x80)
    else if |bytes| == 3 then
      Without(bytes[0], 0xE0) * 0x1000 + Without(bytes[1], 0x80) * 0x40 + Without(bytes[2], 0x80)
    else
      Without(bytes[0], 0xF0) * 0x40000 + Without(bytes[1], 0x80) * 0x1000 + Without(bytes[2], 0x80) * 0x40
      + Without(bytes[3], 0x80)
  }

  /** The bytes carry the character's number, in the shortest form, and every byte but the first continues. */
  lemma EncodedCharCarries(c: char)
    ensures var n, bytes := c as int, EncodeChar(c);
            && Carried(bytes) == n
            && |bytes| == (if n <= 0x7F then 1 else if n <= 0x7FF then 2 else if n <= 0xFFFF then 3 else 4)
            && forall i :: 1 <= i < |bytes| ==> 0x80 <= bytes[i] <= 0xBF
  {
    Digits64(c as int);
  }
}
