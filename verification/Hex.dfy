/** Lower-case hexadecimal (crates/ciphr-core/src/hex.rs). Text is modelled with one `char` per byte. */
module Hex {
  import opened Basics

  datatype HexError = Length(expected: nat, found: nat) | InvalidCharacter

  function DigitChar(n: nat): char
    requires n < 16
  {
    if n < 10 then '0' + n as char else 'a' + (n - 10) as char
  }

  function Digit(c: char): Option<nat> {
    if '0' <= c <= '9' then Some((c - '0') as nat)
    else if 'a' <= c <= 'f' then Some((c - 'a') as nat + 10)
    else if 'A' <= c <= 'F' then Some((c - 'A') as nat + 10)
    else None
  }

  function Encoded(bytes: seq<byte>): (text: string)
    ensures |text| == 2 * |bytes|
    ensures forall c :: c in text ==> '0' <= c <= '9' || 'a' <= c <= 'f'
  {
    if bytes == [] then []
    else [DigitChar(bytes[0] / 16), DigitChar(bytes[0] % 16)] + Encoded(bytes[1..])
  }

  /** The bytes of the pairs before the first pair that is not two digits. */
  function GoodPrefix(text: string): (bytes: seq<byte>)
    ensures 2 * |bytes| <= |text|
  {
    if |text| < 2 || Digit(text[0]).None? || Digit(text[1]).None? then []
    else
      assert Digit(text[0]).value < 16 && Digit(text[1]).value < 16;
      [Digit(text[0]).value * 16 + Digit(text[1]).value] + GoodPrefix(text[2..])
  }

  /** What decoding `text` into a buffer of `size` bytes answers. */
  function Decoded(text: string, size: nat): (r: Result<seq<byte>, HexError>)
    ensures r.Ok? ==> |r.value| == size
  {
    if |text| != 2 * size then Err(Length(2 * size, |text|))
    else if |GoodPrefix(text)| == size then Ok(GoodPrefix(text))
    else Err(InvalidCharacter)
  }

  /** What the buffer holds afterwards: the decoder writes as it goes. */
  function BufferAfter(text: string, before: seq<byte>): seq<byte> {
    if |text| != 2 * |before| then before
    else GoodPrefix(text) + before[|GoodPrefix(text)|..]
  }

  /** One pair of digits is one byte and the rest. */
  lemma GoodPrefixStep(text: string, index: nat)
    requires 2 * index + 1 < |text| && Digit(text[index * 2]).Some? && Digit(text[index * 2 + 1]).Some?
    ensures 0 <= Digit(text[index * 2]).value * 16 + Digit(text[index * 2 + 1]).value < 256
    ensures GoodPrefix(text[2 * index..])
            == [Digit(text[index * 2]).value * 16 + Digit(text[index * 2 + 1]).value] + GoodPrefix(text[2 * (index + 1)..])
  {
    assert text[2 * index..][2..] == text[2 * (index + 1)..];
  }

  method Encode(bytes: seq<byte>) returns (text: string)
    ensures text == Encoded(bytes)
  {
    text := "";
    for i := 0 to |bytes|
      invariant Encoded(bytes) == text + Encoded(bytes[i..])
    {
      var pair := [DigitChar(bytes[i] / 16), DigitChar(bytes[i] % 16)];
      assert Encoded(bytes[i..]) == pair + Encoded(bytes[i + 1..]) by {
        assert bytes[i..][1..] == bytes[i + 1..];
      }
      assert text + (pair + Encoded(bytes[i + 1..])) == (text + pair) + Encoded(bytes[i + 1..]);
      text := text + pair;
    }
  }

  method DecodeInto(text: string, out: array<byte>) returns (r: Result<(), HexError>)
    modifies out
    ensures r.Ok? <==> Decoded(text, out.Length).Ok?
    ensures r.Err? ==> Decoded(text, out.Length) == Err(r.error)
    ensures r.Ok? ==> out[..] == Decoded(text, out.Length).value
    ensures out[..] == BufferAfter(text, old(out[..]))
  {
    ghost var good := GoodPrefix(text);
    assert text[0..] == text;
    var expected := out.Length * 2;
    if |text| != expected {
      return Err(Length(expected, |text|));
    }
    var index := 0;
    while index < out.Length
      invariant 0 <= index <= out.Length
      invariant index <= |good| && good[index..] == GoodPrefix(text[2 * index..])
      invariant forall k :: 0 <= k < index ==> out[k] == good[k]
      invariant forall k :: index <= k < out.Length ==> out[k] == old(out[k])
    {
      var high, low := Digit(text[index * 2]), Digit(text[index * 2 + 1]);
      if high.None? || low.None? {
        assert |good| == index by { assert good[index..] == []; }
        BufferOf(good, out[..], old(out[..]));
        return Err(InvalidCharacter);
      }
      GoodPrefixStep(text, index);
      assert good[index..][1..] == good[index + 1..];
      out[index] := high.value * 16 + low.value;
      index := index + 1;
    }
    BufferOf(good, out[..], old(out[..]));
    return Ok(());
  }

  /** A buffer that agrees with `good` first and with what was there after that. */
  lemma BufferOf(good: seq<byte>, now: seq<byte>, before: seq<byte>)
    requires |good| <= |now| == |before|
    requires forall k :: 0 <= k < |good| ==> now[k] == good[k]
    requires forall k :: |good| <= k < |now| ==> now[k] == before[k]
    ensures now == good + before[|good|..] && (|good| == |now| ==> now == good)
  {
  }

  lemma DigitOfDigitChar(n: nat)
    requires n < 16
    ensures Digit(DigitChar(n)) == Some(n)
  {
  }

  lemma PairIsByte(high: char, low: char, n: byte, rest: string)
    requires Digit(high).Some? && Digit(low).Some? && Digit(high).value * 16 + Digit(low).value == n
    ensures GoodPrefix([high, low] + rest) == [n] + GoodPrefix(rest)
  {
    assert ([high, low] + rest)[2..] == rest;
  }

  lemma {:induction false} DecodeOfEncode(bytes: seq<byte>)
    ensures GoodPrefix(Encoded(bytes)) == bytes
    ensures Decoded(Encoded(bytes), |bytes|) == Ok(bytes)
  {
    if bytes != [] {
      DecodeOfEncode(bytes[1..]);
      var n := bytes[0];
      DigitOfDigitChar(n / 16);
      DigitOfDigitChar(n % 16);
      PairIsByte(DigitChar(n / 16), DigitChar(n % 16), n, Encoded(bytes[1..]));
      assert bytes == [n] + bytes[1..];
    }
  }

  /**
   * The source documents that a rejected input leaves the buffer alone. It does exactly when the
   * length is wrong or the pairs before the bad one spell what the buffer already held.
   */
  lemma RejectionKeepsBufferIff(text: string, before: seq<byte>)
    requires Decoded(text, |before|).Err?
    ensures BufferAfter(text, before) == before
       <==> |text| != 2 * |before| || GoodPrefix(text) <= before
  {
    if |text| == 2 * |before| {
      var good := GoodPrefix(text);
      if good <= before {
        assert good + before[|good|..] == before;
      }
      if BufferAfter(text, before) == before {
        assert good <= good + before[|good|..];
      }
    }
  }

  /** Every buffer survives the rejection exactly when the length is wrong or the first pair is already bad. */
  lemma RejectionKeepsEveryBufferIff(text: string, size: nat)
    requires Decoded(text, size).Err?
    ensures (forall before: seq<byte> :: |before| == size ==> BufferAfter(text, before) == before)
       <==> |text| != 2 * size || Digit(text[0]).None? || Digit(text[1]).None?
  {
    if |text| == 2 * size {
      assert size > 0 by { assert size == 0 ==> GoodPrefix(text) == []; }
      if GoodPrefix(text) == [] {
        assert forall before: seq<byte> :: before[0..] == before && [] + before == before;
      } else {
        var good := GoodPrefix(text);
        var other: byte := if good[0] == 0 then 1 else 0;
        var before: seq<byte> := seq(size, (_: nat) => other);
        assert BufferAfter(text, before)[0] != before[0];
      }
    }
  }

  lemma RejectionCanOverwriteBuffer()
    ensures Decoded("0fzz", 2) == Err(InvalidCharacter)
    ensures BufferAfter("0fzz", [170, 170]) == [15, 170]
  {
    assert "0fzz"[2..] == "zz";
    assert GoodPrefix("zz") == [];
    assert GoodPrefix("0fzz") == [15];
  }

  /** The two digits of each byte, the higher first. */
  lemma {:induction false} DigitsOfByte(bytes: seq<byte>, i: nat)
    requires i < |bytes|
    ensures var digits := "0123456789abcdef";
            && Encoded(bytes)[2 * i] == digits[bytes[i] / 16]
            && Encoded(bytes)[2 * i + 1] == digits[bytes[i] % 16]
  {
    if i > 0 {
      DigitsOfByte(bytes[1..], i - 1);
    } else {
      DigitCharIs(bytes[0] / 16);
      DigitCharIs(bytes[0] % 16);
    }
  }

  lemma DigitCharIs(n: nat)
    requires n < 16
    ensures DigitChar(n) == "0123456789abcdef"[n]
  {
  }

  // ----- exactly which texts are read, and as what

  /** A digit above nine in lower case, and every other character as it is. */
  function Lower(c: char): char {
    if 'A' <= c <= 'F' then (c as int + 32) as char else c
  }

  function Lowered(text: string): (lower: string) {
    Map(Lower, text)
  }

  predicate IsHexDigit(c: char) {
    '0' <= c <= '9' || 'a' <= c <= 'f' || 'A' <= c <= 'F'
  }

  lemma DigitIff(c: char, n: nat)
    requires n < 16
    ensures Digit(c) == Some(n) <==> Lower(c) == DigitChar(n)
  {
  }

  lemma PairIff(high: char, low: char, n: byte)
    ensures Digit(high).Some? && Digit(low).Some? && Digit(high).value * 16 + Digit(low).value == n
       <==> Lower(high) == DigitChar(n / 16) && Lower(low) == DigitChar(n % 16)
  {
    DigitIff(high, n / 16);
    DigitIff(low, n % 16);
    if Digit(high).Some? && Digit(low).Some? {
      assert Digit(high).value < 16 && Digit(low).value < 16;
    }
  }

  lemma SameFirstIff(m: byte, front: seq<byte>, n: byte, tail: seq<byte>)
    ensures [m] + front == [n] + tail <==> m == n && front == tail
  {
    var x, y := [m] + front, [n] + tail;
    assert x[0] == m && y[0] == n && x[1..] == front && y[1..] == tail;
  }

  lemma GoodPrefixIs(text: string, n: byte, tail: seq<byte>)
    requires |text| >= 2
    ensures GoodPrefix(text) == [n] + tail <==>
              && Digit(text[0]).Some? && Digit(text[1]).Some? && Digit(text[0]).value * 16 + Digit(text[1]).value == n
              && GoodPrefix(text[2..]) == tail
  {
    if Digit(text[0]).Some? && Digit(text[1]).Some? {
      assert Digit(text[0]).value < 16 && Digit(text[1]).value < 16;
      SameFirstIff(Digit(text[0]).value * 16 + Digit(text[1]).value, GoodPrefix(text[2..]), n, tail);
    } else {
      assert GoodPrefix(text) == [];
    }
  }

  lemma LoweredIs(text: string, n: byte, tail: seq<byte>)
    requires |text| >= 2
    ensures Lowered(text) == Encoded([n] + tail) <==>
              && Lower(text[0]) == DigitChar(n / 16) && Lower(text[1]) == DigitChar(n % 16)
              && Lowered(text[2..]) == Encoded(tail)
  {
    var pair := [DigitChar(n / 16), DigitChar(n % 16)];
    assert ([n] + tail)[1..] == tail;
    assert Encoded([n] + tail) == pair + Encoded(tail);
    assert Lowered(text)[..2] == [Lower(text[0]), Lower(text[1])] && Lowered(text)[2..] == Lowered(text[2..]);
    assert Lowered(text) == Lowered(text)[..2] + Lowered(text)[2..];
    assert (pair + Encoded(tail))[..2] == pair && (pair + Encoded(tail))[2..] == Encoded(tail);
  }

  lemma {:induction false} GoodPrefixIff(text: string, bytes: seq<byte>)
    requires |text| == 2 * |bytes|
    ensures GoodPrefix(text) == bytes <==> Lowered(text) == Encoded(bytes)
    decreases |bytes|
  {
    if bytes != [] {
      var n, tail := bytes[0], bytes[1..];
      assert bytes == [n] + tail;
      GoodPrefixIs(text, n, tail);
      PairIff(text[0], text[1], n);
      LoweredIs(text, n, tail);
      GoodPrefixIff(text[2..], tail);
    }
  }

  /** A text is read as given bytes exactly when, in lower case, it is their encoding. */
  lemma DecodedIff(text: string, size: nat, bytes: seq<byte>)
    ensures Decoded(text, size) == Ok(bytes) <==> |bytes| == size && Lowered(text) == Encoded(bytes)
  {
    if |bytes| == size && |text| == 2 * size {
      GoodPrefixIff(text, bytes);
    }
  }

  lemma {:induction false} AllDigitsIff(text: string)
    requires |text| % 2 == 0
    ensures 2 * |GoodPrefix(text)| == |text| <==> forall c :: c in text ==> IsHexDigit(c)
  {
    if text != [] {
      var rest := text[2..];
      AllDigitsIff(rest);
      assert text == [text[0], text[1]] + rest;
      assert forall c :: c in text <==> c == text[0] || c == text[1] || c in rest;
      if IsHexDigit(text[0]) && IsHexDigit(text[1]) {
        assert Digit(text[0]).Some? && Digit(text[1]).Some? && |GoodPrefix(text)| == 1 + |GoodPrefix(rest)|;
      } else {
        assert Digit(text[0]).None? || Digit(text[1]).None?;
      }
    }
  }

  /** A refusal names the length if that is wrong, and otherwise is for a character that is no digit. */
  lemma RefusedIff(text: string, size: nat)
    ensures Decoded(text, size) == Err(Length(2 * size, |text|)) <==> |text| != 2 * size
    ensures Decoded(text, size) == Err(InvalidCharacter) <==>
              |text| == 2 * size && exists c :: c in text && !IsHexDigit(c)
  {
    if |text| == 2 * size {
      AllDigitsIff(text);
    }
  }
}
