/**
 * Unpadded base64url (crates/ciphr-core/src/base64url.rs), sections 3.5 and 5 of RFC 4648.
 * Text is modelled with one `char` per byte. A shift by 6n bits is a multiplication by 64^n, and
 * joining disjoint bit ranges with `|` is an addition.
 */
module Base64Url {
  import opened Basics

  datatype Base64Error = Length(found: nat) | InvalidCharacter | TrailingBits

  function AlphabetChar(v: nat): char
    requires v < 64
  {
    if v < 26 then 'A' + v as char
    else if v < 52 then 'a' + (v - 26) as char
    else if v < 62 then '0' + (v - 52) as char
    else if v == 62 then '-'
    else '_'
  }

  function Sextet(c: char): (v: Option<nat>)
    ensures v.Some? ==> v.value < 64
  {
    if 'A' <= c <= 'Z' then Some((c - 'A') as nat)
    else if 'a' <= c <= 'z' then Some((c - 'a') as nat + 26)
    else if '0' <= c <= '9' then Some((c - '0') as nat + 52)
    else if c == '-' then Some(62)
    else if c == '_' then Some(63)
    else None
  }

  /** The place value of the character at `index` of a group: 2 to the power of 18 - 6 * index. */
  function Weight(index: nat): (w: nat)
    requires index < 4
    ensures w > 0
  {
    if index == 0 then 262144 else if index == 1 then 4096 else if index == 2 then 64 else 1
  }

  // ----- encoding

  function GroupOf3(b0: int, b1: int, b2: int): int {
    b0 * 65536 + b1 * 256 + b2
  }

  function GroupOfBytes(chunk: seq<byte>): (g: nat)
    requires 1 <= |chunk| <= 3
    ensures g < 16777216
  {
    GroupOf3(chunk[0], if |chunk| > 1 then chunk[1] else 0, if |chunk| > 2 then chunk[2] else 0)
  }

  /** Six bits of the group, the highest first. */
  function SextetAt(g: nat, index: nat): (v: nat)
    requires index < 4
    ensures v < 64
  {
    g / Weight(index) % 64
  }

  function EncodedGroup(chunk: seq<byte>): (text: string)
    requires 1 <= |chunk| <= 3
    ensures |text| == |chunk| + 1
    ensures forall i :: 0 <= i <= |chunk| ==> text[i] == AlphabetChar(SextetAt(GroupOfBytes(chunk), i))
  {
    var g := GroupOfBytes(chunk);
    [AlphabetChar(SextetAt(g, 0)), AlphabetChar(SextetAt(g, 1))]
    + (if |chunk| > 1 then [AlphabetChar(SextetAt(g, 2))] else [])
    + (if |chunk| > 2 then [AlphabetChar(SextetAt(g, 3))] else [])
  }

  function Encoded(bytes: seq<byte>): string {
    if |bytes| == 0 then []
    else if |bytes| <= 3 then EncodedGroup(bytes)
    else EncodedGroup(bytes[..3]) + Encoded(bytes[3..])
  }

  /** One byte becomes two characters, and each further byte one more. */
  method EncodeGroup(chunk: seq<byte>) returns (text: string)
    requires 1 <= |chunk| <= 3
    ensures text == EncodedGroup(chunk)
  {
    var g := GroupOfBytes(chunk);
    text := [AlphabetChar(SextetAt(g, 0)), AlphabetChar(SextetAt(g, 1))];
    if |chunk| > 1 {
      text := text + [AlphabetChar(SextetAt(g, 2))];
    }
    if |chunk| > 2 {
      text := text + [AlphabetChar(SextetAt(g, 3))];
    }
  }

  /** Appends to `prior`, disturbing nothing that is there. */
  method EncodeInto(bytes: seq<byte>, prior: string) returns (out: string)
    ensures out == prior + Encoded(bytes)
  {
    out := prior;
    var at := 0;
    while at < |bytes|
      invariant 0 <= at <= |bytes|
      invariant prior + Encoded(bytes) == out + Encoded(bytes[at..])
    {
      var size := if |bytes| - at < 3 then |bytes| - at else 3;
      var chunk := bytes[at..at + size];
      EncodedStep(bytes, at, size);
      var added := EncodeGroup(chunk);
      assert out + (added + Encoded(bytes[at + size..])) == (out + added) + Encoded(bytes[at + size..]);
      out := out + added;
      at := at + size;
    }
  }

  lemma EncodedSplits(bytes: seq<byte>, size: nat)
    requires 1 <= size <= 3 && size <= |bytes| && (size == 3 || size == |bytes|)
    ensures Encoded(bytes) == EncodedGroup(bytes[..size]) + Encoded(bytes[size..])
  {
    if |bytes| <= 3 {
      assert bytes[..size] == bytes && bytes[size..] == [];
    }
  }

  lemma EncodedStep(bytes: seq<byte>, at: nat, size: nat)
    requires 1 <= size <= 3 && at + size <= |bytes| && (size == 3 || at + size == |bytes|)
    ensures Encoded(bytes[at..]) == EncodedGroup(bytes[at..at + size]) + Encoded(bytes[at + size..])
  {
    EncodedSplits(bytes[at..], size);
    assert bytes[at..][..size] == bytes[at..at + size] && bytes[at..][size..] == bytes[at + size..];
  }

  function EncodedLen(byteLen: nat): nat {
    byteLen / 3 * 4 + (match byteLen % 3 case 0 => 0 case 1 => 2 case _ => 3)
  }

  lemma {:induction false} EncodedLenIsExact(bytes: seq<byte>)
    ensures |Encoded(bytes)| == EncodedLen(|bytes|)
    ensures EncodedLen(|bytes|) % 4 != 1 && DecodedLen(EncodedLen(|bytes|)) == Some(|bytes|)
  {
    EncodedLenFacts(|bytes|);
    if |bytes| > 3 {
      EncodedLenIsExact(bytes[3..]);
      assert (|bytes| - 3) / 3 == |bytes| / 3 - 1 && (|bytes| - 3) % 3 == |bytes| % 3;
    }
  }

  lemma EncodedLenFacts(n: nat)
    ensures EncodedLen(n) % 4 != 1 && DecodedLen(EncodedLen(n)) == Some(n)
  {
    var q, len := n / 3, EncodedLen(n);
    assert len == 4 * q + len % 4 && len / 4 == q;
  }

  // ----- decoding

  function DecodedLen(textLen: nat): Option<nat> {
    match textLen % 4
    case 0 => Some(textLen / 4 * 3)
    case 2 => Some(textLen / 4 * 3 + 1)
    case 3 => Some(textLen / 4 * 3 + 2)
    case _ => None
  }

  /** The sum of the first `n` characters' place values, or `None` at a foreign character. */
  function Accumulated(chunk: string, n: nat): (g: Option<nat>)
    requires n <= |chunk| <= 4
  {
    if n == 0 then Some(0)
    else
      match (Accumulated(chunk, n - 1), Sextet(chunk[n - 1]))
      case (Some(g), Some(v)) => Some(g + v * Weight(n - 1))
      case _ => None
  }

  /** A group of fewer than four characters must be a multiple of this: it has that many values to spare. */
  function UnusedModulus(size: nat): nat
    ensures UnusedModulus(size) > 0
  {
    if size == 2 then 65536 else if size == 3 then 256 else 1
  }

  function GroupOfText(chunk: string): Result<nat, Base64Error>
    requires |chunk| <= 4
  {
    match Accumulated(chunk, |chunk|)
    case None => Err(InvalidCharacter)
    case Some(g) => if g % UnusedModulus(|chunk|) != 0 then Err(TrailingBits) else Ok(g)
  }

  method AssembleGroup(chunk: string) returns (r: Result<nat, Base64Error>)
    requires |chunk| <= 4
    ensures r == GroupOfText(chunk)
  {
    var group := 0;
    for index := 0 to |chunk|
      invariant Accumulated(chunk, index) == Some(group)
    {
      var v := Sextet(chunk[index]);
      if v.None? {
        NothingAfterForeign(chunk, index + 1, |chunk|);
        return Err(InvalidCharacter);
      }
      group := group + v.value * Weight(index);
    }
    if group % UnusedModulus(|chunk|) != 0 {
      return Err(TrailingBits);
    }
    return Ok(group);
  }

  lemma NothingAfterForeign(chunk: string, m: nat, n: nat)
    requires m <= n <= |chunk| <= 4
    requires Accumulated(chunk, m).None?
    ensures Accumulated(chunk, n).None?
    decreases n
  {
    if n > m {
      NothingAfterForeign(chunk, m, n - 1);
    }
  }

  function BytesOfGroup(g: nat, count: nat): (bytes: seq<byte>)
    requires count <= 3
    ensures |bytes| == count
  {
    [g / 65536 % 256, g / 256 % 256, g % 256][..count]
  }

  /** What decoding `text` answers, groups in order; `Length` is decided before any group. */
  function DecodedGroups(text: string): (r: Result<seq<byte>, Base64Error>)
    requires |text| % 4 != 1
    ensures r.Ok? ==> DecodedLen(|text|) == Some(|r.value|)
  {
    if |text| == 0 then Ok([])
    else if |text| <= 4 then
      var g :- GroupOfText(text);
      Ok(BytesOfGroup(g, |text| - 1))
    else
      var g :- GroupOfText(text[..4]);
      var rest :- DecodedGroups(text[4..]);
      Ok(BytesOfGroup(g, 3) + rest)
  }

  function Decoded(text: string): Result<seq<byte>, Base64Error> {
    if |text| % 4 == 1 then Err(Length(|text|)) else DecodedGroups(text)
  }

  function DecodedExactly(text: string, size: nat): Result<seq<byte>, Base64Error> {
    if DecodedLen(|text|) != Some(size) then Err(Length(|text|)) else DecodedGroups(text)
  }

  lemma GroupsSplit(text: string, size: nat)
    requires |text| % 4 != 1
    requires 1 <= size <= 4 && size <= |text| && (size == 4 || size == |text|)
    ensures |text[size..]| % 4 != 1
    ensures DecodedGroups(text) ==
            match GroupOfText(text[..size])
            case Err(e) => Err(e)
            case Ok(g) =>
              match DecodedGroups(text[size..])
              case Err(e) => Err(e)
              case Ok(rest) => Ok(BytesOfGroup(g, size - 1) + rest)
  {
    if |text| <= 4 {
      assert text[..size] == text && text[size..] == [];
      if GroupOfText(text).Ok? {
        var bytes := BytesOfGroup(GroupOfText(text).value, size - 1);
        assert bytes + [] == bytes;
      }
    }
  }

  lemma GroupsStep(text: string, at: nat, size: nat)
    requires at + size <= |text| && |text[at..]| % 4 != 1
    requires 1 <= size <= 4 && (size == 4 || at + size == |text|)
    requires DecodedGroups(text[at..]).Ok?
    ensures |text[at + size..]| % 4 != 1 && GroupOfText(text[at..at + size]).Ok?
    ensures DecodedGroups(text[at + size..]).Ok?
    ensures DecodedGroups(text[at..]).value ==
            BytesOfGroup(GroupOfText(text[at..at + size]).value, size - 1) + DecodedGroups(text[at + size..]).value
  {
    GroupsSplit(text[at..], size);
    assert text[at..][..size] == text[at..at + size] && text[at..][size..] == text[at + size..];
  }

  method DecodeInto(text: string, out: array<byte>) returns (r: Result<(), Base64Error>)
    modifies out
    ensures match DecodedExactly(text, out.Length)
            case Ok(bytes) => r.Ok? && out[..] == bytes
            case Err(e) => r == Err(e) && out[..] == old(out[..])
  {
    if DecodedLen(|text|) != Some(out.Length) {
      return Err(Length(|text|));
    }
    // First pass: the text is judged; the buffer is not touched.
    var at := 0;
    while at < |text|
      invariant 0 <= at <= |text| && (at == |text| || at % 4 == 0)
      invariant |text[at..]| % 4 != 1
      invariant DecodedGroups(text[at..]).Ok? ==> DecodedGroups(text).Ok?
      invariant DecodedGroups(text[at..]).Err? ==> DecodedGroups(text) == DecodedGroups(text[at..])
      invariant out[..] == old(out[..])
    {
      var size := if |text| - at < 4 then |text| - at else 4;
      GroupsSplit(text[at..], size);
      assert text[at..][..size] == text[at..at + size] && text[at..][size..] == text[at + size..];
      var group := AssembleGroup(text[at..at + size]);
      if group.Err? {
        return Err(group.error);
      }
      at := at + size;
    }
    WriteGroups(text, DecodedGroups(text).value, out);
    return Ok(());
  }

  /** The second pass: every group is known to be good and the lengths are known to agree. */
  method WriteGroups(text: string, ghost all: seq<byte>, out: array<byte>)
    requires |text| % 4 != 1 && DecodedGroups(text) == Ok(all) && |all| == out.Length
    modifies out
    ensures out[..] == all
  {
    var at, to := 0, 0;
    ghost var rest := all;
    assert text[0..] == text;
    while at < |text|
      invariant Pending(text, at, rest)
      invariant to + |rest| == out.Length && rest == all[to..]
      invariant forall k :: 0 <= k < to ==> out[k] == all[k]
    {
      at, to, rest := WriteGroup(text, at, to, rest, out);
    }
  }

  ghost predicate Pending(text: string, at: nat, rest: seq<byte>) {
    && at <= |text| && |text[at..]| % 4 != 1
    && DecodedGroups(text[at..]) == Ok(rest)
    && (at == |text| ==> rest == [])
  }

  method WriteGroup(text: string, at: nat, to: nat, ghost rest: seq<byte>, out: array<byte>)
    returns (at': nat, to': nat, ghost rest': seq<byte>)
    requires at < |text| && Pending(text, at, rest) && out.Length == to + |rest|
    modifies out
    ensures at < at' && Pending(text, at', rest')
    ensures to <= to' && out.Length == to' + |rest'|
    ensures forall k :: 0 <= k < to ==> out[k] == old(out[k])
    ensures forall k :: to <= k < to' ==> out[k] == rest[k - to]
    ensures rest' == rest[to' - to..]
  {
    var size := if |text| - at < 4 then |text| - at else 4;
    GroupsStep(text, at, size);
    var group := AssembleGroup(text[at..at + size]);
    var slots := BytesOfGroup(group.value, size - 1);
    WriteSlots(slots, out, to);
    at', to', rest' := at + size, to + size - 1, DecodedGroups(text[at + size..]).value;
  }

  method WriteSlots(slots: seq<byte>, out: array<byte>, to: nat)
    requires to + |slots| <= out.Length
    modifies out
    ensures forall k :: 0 <= k < to ==> out[k] == old(out[k])
    ensures forall k :: to <= k < to + |slots| ==> out[k] == slots[k - to]
  {
    for index := 0 to |slots|
      invariant forall k :: 0 <= k < to ==> out[k] == old(out[k])
      invariant forall k :: to <= k < to + index ==> out[k] == slots[k - to]
    {
      out[to + index] := slots[index];
    }
  }

  // ----- the two directions undo each other

  lemma SextetOfAlphabetChar(v: nat)
    requires v < 64
    ensures Sextet(AlphabetChar(v)) == Some(v)
  {
  }

  lemma AlphabetCharOfSextet(c: char)
    requires Sextet(c).Some?
    ensures AlphabetChar(Sextet(c).value) == c
  {
  }

  lemma AccumulatedOf(chunk: string, v: seq<nat>)
    requires |v| == |chunk| <= 4
    requires forall i :: 0 <= i < |v| ==> Sextet(chunk[i]) == Some(v[i])
    ensures Accumulated(chunk, |chunk|) == Some(
              (if |v| > 0 then v[0] * 262144 else 0) + (if |v| > 1 then v[1] * 4096 else 0)
              + (if |v| > 2 then v[2] * 64 else 0) + (if |v| > 3 then v[3] else 0))
  {
    assert Accumulated(chunk, 0) == Some(0);
    if |v| > 0 { assert Accumulated(chunk, 1) == Some(v[0] * 262144); }
    if |v| > 1 { assert Accumulated(chunk, 2) == Some(v[0] * 262144 + v[1] * 4096); }
    if |v| > 2 { assert Accumulated(chunk, 3) == Some(v[0] * 262144 + v[1] * 4096 + v[2] * 64); }
    if |v| > 3 { assert Accumulated(chunk, 4) == Some(v[0] * 262144 + v[1] * 4096 + v[2] * 64 + v[3]); }
  }

  lemma SextetsOfGroup(g: nat)
    requires g < 16777216
    ensures SextetAt(g, 0) * 262144 + SextetAt(g, 1) * 4096 + SextetAt(g, 2) * 64 + SextetAt(g, 3) == g
  {
    assert g / 64 / 64 == g / 4096 && g / 4096 / 64 == g / 262144;
    assert g == g / 64 * 64 + g % 64;
    assert g / 64 == g / 4096 * 64 + g / 64 % 64;
    assert g / 4096 == g / 262144 * 64 + g / 4096 % 64;
  }

  lemma BytesOfGroup3(b0: byte, b1: byte, b2: byte)
    ensures var g := GroupOf3(b0, b1, b2);
            g / 65536 % 256 == b0 && g / 256 % 256 == b1 && g % 256 == b2
    ensures b2 == 0 ==> SextetAt(GroupOf3(b0, b1, b2), 3) == 0
  {
    var g := GroupOf3(b0, b1, b2);
    DivideOut(b0 as int * 256 + b1, b2);
    DivideOut(b0, b1);
    assert g / 65536 == g / 256 / 256;
  }

  lemma DivideOut(q: int, r: byte)
    ensures (q * 256 + r) / 256 == q && (q * 256 + r) % 256 == r
    ensures r == 0 ==> (q * 256 + r) % 64 == 0
  {
  }

  lemma ShortGroup(b0: byte)
    ensures GroupOf3(b0, 0, 0) % 65536 == 0 && SextetAt(GroupOf3(b0, 0, 0), 2) == 0
  {
    assert GroupOf3(b0, 0, 0) / 64 == b0 as int * 1024;
  }

  lemma BytesOfEncodedGroup(chunk: seq<byte>)
    requires 1 <= |chunk| <= 3
    ensures BytesOfGroup(GroupOfBytes(chunk), |chunk|) == chunk
  {
    ShortGroup(chunk[0]);
    BytesOfGroup3(chunk[0], if |chunk| > 1 then chunk[1] else 0, if |chunk| > 2 then chunk[2] else 0);
  }

  /** The characters that a short group leaves out would all be the zero of the alphabet. */
  lemma MissingSextetsAreZero(chunk: seq<byte>)
    requires 1 <= |chunk| <= 3
    ensures var g := GroupOfBytes(chunk);
            && (|chunk| < 3 ==> SextetAt(g, 3) == 0)
            && (|chunk| < 2 ==> SextetAt(g, 2) == 0)
            && g % UnusedModulus(|chunk| + 1) == 0
  {
    ShortGroup(chunk[0]);
    BytesOfGroup3(chunk[0], if |chunk| > 1 then chunk[1] else 0, if |chunk| > 2 then chunk[2] else 0);
  }

  lemma DecodeOfEncodeGroup(chunk: seq<byte>)
    requires 1 <= |chunk| <= 3
    ensures GroupOfText(EncodedGroup(chunk)) == Ok(GroupOfBytes(chunk))
    ensures BytesOfGroup(GroupOfBytes(chunk), |chunk|) == chunk
  {
    var g := GroupOfBytes(chunk);
    var text := EncodedGroup(chunk);
    var v := seq(|chunk| + 1, i requires 0 <= i < |chunk| + 1 => SextetAt(g, i));
    forall i | 0 <= i < |v|
      ensures Sextet(text[i]) == Some(v[i])
    {
      SextetOfAlphabetChar(v[i]);
    }
    AccumulatedOf(text, v);
    SextetsOfGroup(g);
    MissingSextetsAreZero(chunk);
    BytesOfEncodedGroup(chunk);
  }

  lemma {:induction false} DecodeOfEncode(bytes: seq<byte>)
    ensures |Encoded(bytes)| % 4 != 1
    ensures Decoded(Encoded(bytes)) == Ok(bytes)
  {
    EncodedLenIsExact(bytes);
    if 0 < |bytes| <= 3 {
      DecodeOfEncodeGroup(bytes);
    } else if |bytes| > 3 {
      DecodeOfEncodeGroup(bytes[..3]);
      DecodeOfEncode(bytes[3..]);
      var text := Encoded(bytes);
      assert text[..4] == EncodedGroup(bytes[..3]) && text[4..] == Encoded(bytes[3..]);
      GroupsSplit(text, 4);
      assert bytes[..3] + bytes[3..] == bytes;
    }
  }

  lemma EncodeOfDecodeGroup(chunk: string)
    requires 2 <= |chunk| <= 4
    requires GroupOfText(chunk).Ok?
    ensures EncodedGroup(BytesOfGroup(GroupOfText(chunk).value, |chunk| - 1)) == chunk
  {
    forall i | 0 <= i < |chunk|
      ensures Sextet(chunk[i]).Some?
    {
      if Sextet(chunk[i]).None? {
        assert Accumulated(chunk, i + 1).None?;
        NothingAfterForeign(chunk, i + 1, |chunk|);
      }
      AlphabetCharOfSextet(chunk[i]);
    }
    var v := seq(|chunk|, i requires 0 <= i < |chunk| => Sextet(chunk[i]).value);
    AccumulatedOf(chunk, v);
    var g := GroupOfText(chunk).value;
    GroupFromSextets(g, v[0], v[1], if |v| > 2 then v[2] else 0, if |v| > 3 then v[3] else 0);
    var bytes := BytesOfGroup(g, |chunk| - 1);
    GroupOfItsBytes(g, |chunk| - 1);
    forall i | 0 <= i < |chunk|
      ensures AlphabetChar(v[i]) == chunk[i]
    {
      AlphabetCharOfSextet(chunk[i]);
    }
  }

  lemma GroupFromSextets(g: nat, a: nat, b: nat, c: nat, d: nat)
    requires a < 64 && b < 64 && c < 64 && d < 64
    requires g == a * 262144 + b * 4096 + c * 64 + d
    ensures g < 16777216
    ensures SextetAt(g, 0) == a && SextetAt(g, 1) == b && SextetAt(g, 2) == c && SextetAt(g, 3) == d
  {
    assert g / 64 == a * 4096 + b * 64 + c;
    assert g / 4096 == a * 64 + b;
  }

  lemma GroupOfItsBytes(g: nat, count: nat)
    requires 1 <= count <= 3 && g < 16777216
    requires g % UnusedModulus(count + 1) == 0
    ensures GroupOfBytes(BytesOfGroup(g, count)) == g
  {
    assert g / 65536 % 256 == g / 65536;
    assert g == g / 65536 * 65536 + g / 256 % 256 * 256 + g % 256;
  }

  lemma {:induction false} EncodeOfDecode(text: string)
    requires Decoded(text).Ok?
    ensures Encoded(Decoded(text).value) == text
  {
    if 0 < |text| <= 4 {
      EncodeOfDecodeGroup(text);
    } else if |text| > 4 {
      GroupsSplit(text, 4);
      EncodeOfDecodeGroup(text[..4]);
      EncodeOfDecode(text[4..]);
      var bytes := Decoded(text).value;
      var first := BytesOfGroup(GroupOfText(text[..4]).value, 3);
      assert bytes[..3] == first && bytes[3..] == Decoded(text[4..]).value;
      EncodedSplits(bytes, 3);
      assert text == text[..4] + text[4..];
    }
  }

  /** Accepted texts and byte strings correspond one to one. */
  lemma AcceptedIffEncoding(text: string, bytes: seq<byte>)
    ensures Decoded(text) == Ok(bytes) <==> text == Encoded(bytes)
    ensures DecodedExactly(text, |bytes|) == Ok(bytes) <==> text == Encoded(bytes)
  {
    DecodeOfEncode(bytes);
    EncodedLenIsExact(bytes);
    if Decoded(text) == Ok(bytes) {
      EncodeOfDecode(text);
    }
  }

  // ----- the text of RFC 4648, character by character

  /** The alphabet of section 5 of RFC 4648, sixteen characters to a row. */
  function Letter(v: nat): char
    requires v < 64
  {
    if v < 16 then "ABCDEFGHIJKLMNOP"[v]
    else if v < 32 then "QRSTUVWXYZabcdef"[v - 16]
    else if v < 48 then "ghijklmnopqrstuv"[v - 32]
    else "wxyz0123456789-_"[v - 48]
  }

  lemma FirstRow(v: nat)
    requires 0 <= v < 16
    ensures AlphabetChar(v) == Letter(v)
  {
  }

  lemma SecondRow(v: nat)
    requires 16 <= v < 32
    ensures AlphabetChar(v) == Letter(v)
  {
  }

  lemma ThirdRow(v: nat)
    requires 32 <= v < 48
    ensures AlphabetChar(v) == Letter(v)
  {
  }

  lemma FourthRow(v: nat)
    requires 48 <= v < 64
    ensures AlphabetChar(v) == Letter(v)
  {
  }

  lemma AlphabetIs(v: nat)
    requires v < 64
    ensures AlphabetChar(v) == Letter(v)
  {
    if v < 16 {
      FirstRow(v);
    } else if v < 32 {
      SecondRow(v);
    } else if v < 48 {
      ThirdRow(v);
    } else {
      FourthRow(v);
    }
  }

  lemma Div64(n: nat, q: nat, r: nat)
    requires n == q * 64 + r && r < 64
    ensures n / 64 == q && n % 64 == r
  {
  }

  lemma DivTwice(n: nat)
    ensures n / 4096 == n / 64 / 64 && n / 262144 == n / 4096 / 64
  {
  }

  lemma SextetsAre(g: nat, v0: nat, v1: nat, v2: nat, v3: nat)
    requires v0 < 64 && v1 < 64 && v2 < 64 && v3 < 64
    requires g == ((v0 * 64 + v1) * 64 + v2) * 64 + v3
    ensures SextetAt(g, 0) == v0 && SextetAt(g, 1) == v1 && SextetAt(g, 2) == v2 && SextetAt(g, 3) == v3
  {
    Div64(g, (v0 * 64 + v1) * 64 + v2, v3);
    Div64((v0 * 64 + v1) * 64 + v2, v0 * 64 + v1, v2);
    Div64(v0 * 64 + v1, v0, v1);
    DivTwice(g);
  }

  lemma SextetsOfBytes(b0: byte, b1: byte, b2: byte)
    ensures var g := GroupOf3(b0, b1, b2);
            && SextetAt(g, 0) == b0 / 4
            && SextetAt(g, 1) == b0 % 4 * 16 + b1 / 16
            && SextetAt(g, 2) == b1 % 16 * 4 + b2 / 64
            && SextetAt(g, 3) == b2 % 64
  {
    SextetsAre(GroupOf3(b0, b1, b2), b0 / 4, b0 % 4 * 16 + b1 / 16, b1 % 16 * 4 + b2 / 64, b2 % 64);
  }

  /** The numbers that a group of bytes shows: six bits each, the first bits of the first byte first. */
  function Numbers(b: seq<byte>): (numbers: seq<nat>)
    requires 1 <= |b| <= 3
    ensures |numbers| == |b| + 1 && forall i :: 0 <= i < |numbers| ==> numbers[i] < 64
  {
    if |b| == 1 then [b[0] / 4, b[0] % 4 * 16]
    else if |b| == 2 then [b[0] / 4, b[0] % 4 * 16 + b[1] / 16, b[1] % 16 * 4]
    else [b[0] / 4, b[0] % 4 * 16 + b[1] / 16, b[1] % 16 * 4 + b[2] / 64, b[2] % 64]
  }

  /** The text shows the bytes, letter by letter. */
  predicate Shows(text: string, b: seq<byte>)
    requires 1 <= |b| <= 3
  {
    |text| == |b| + 1 && forall i :: 0 <= i < |text| ==> text[i] == Letter(Numbers(b)[i])
  }

  lemma NumbersAreSextets(chunk: seq<byte>, i: nat)
    requires 1 <= |chunk| <= 3 && i <= |chunk|
    ensures SextetAt(GroupOfBytes(chunk), i) == Numbers(chunk)[i]
  {
    SextetsOfBytes(chunk[0], if |chunk| > 1 then chunk[1] else 0, if |chunk| > 2 then chunk[2] else 0);
  }

  lemma GroupShows(chunk: seq<byte>)
    requires 1 <= |chunk| <= 3
    ensures Shows(EncodedGroup(chunk), chunk)
  {
    forall i | 0 <= i <= |chunk| ensures EncodedGroup(chunk)[i] == Letter(Numbers(chunk)[i]) {
      NumbersAreSextets(chunk, i);
      AlphabetIs(Numbers(chunk)[i]);
    }
  }

  /** The group of bytes with index `j`: three, or what is left. */
  predicate IsGroup(bytes: seq<byte>, j: nat, chunk: seq<byte>) {
    3 * j < |bytes| && chunk == bytes[3 * j..if |bytes| < 3 * j + 3 then |bytes| else 3 * j + 3]
  }

  /** The characters from `4 * j` on show the bytes. */
  predicate ShownAt(text: string, j: nat, chunk: seq<byte>) {
    && 1 <= |chunk| <= 3 && 4 * j + |chunk| + 1 <= |text|
    && Shows(text[4 * j..4 * j + |chunk| + 1], chunk)
  }

  lemma FirstShown(bytes: seq<byte>, chunk: seq<byte>)
    requires IsGroup(bytes, 0, chunk)
    ensures ShownAt(Encoded(bytes), 0, chunk)
  {
    EncodedSplits(bytes, |chunk|);
    assert bytes[..|chunk|] == chunk;
    GroupShows(chunk);
    assert Encoded(bytes)[0..|chunk| + 1] == EncodedGroup(chunk);
  }

  lemma LaterShown(head: string, text: string, j: nat, chunk: seq<byte>)
    requires |head| == 4 && ShownAt(text, j, chunk)
    ensures ShownAt(head + text, j + 1, chunk)
  {
    assert (head + text)[4 * (j + 1)..4 * (j + 1) + |chunk| + 1] == text[4 * j..4 * j + |chunk| + 1];
  }

  lemma LaterGroup(bytes: seq<byte>, j: nat, chunk: seq<byte>)
    requires j > 0 && IsGroup(bytes, j, chunk)
    ensures IsGroup(bytes[3..], j - 1, chunk)
  {
  }

  /** Each group of bytes is shown by the characters at its place. */
  lemma {:induction false} EncodedShows(bytes: seq<byte>, j: nat, chunk: seq<byte>)
    requires IsGroup(bytes, j, chunk)
    ensures ShownAt(Encoded(bytes), j, chunk)
    decreases j
  {
    if j == 0 {
      FirstShown(bytes, chunk);
    } else {
      LaterGroup(bytes, j, chunk);
      EncodedShows(bytes[3..], j - 1, chunk);
      EncodedSplits(bytes, 3);
      LaterShown(EncodedGroup(bytes[..3]), Encoded(bytes[3..]), j - 1, chunk);
    }
  }

  // ----- which texts are refused, and why

  predicate IsLetter(c: char) {
    'A' <= c <= 'Z' || 'a' <= c <= 'z' || '0' <= c <= '9' || c == '-' || c == '_'
  }

  lemma {:induction false} AccumulatedIff(chunk: string, n: nat)
    requires n <= |chunk| <= 4
    ensures Accumulated(chunk, n).Some? <==> forall i :: 0 <= i < n ==> IsLetter(chunk[i])
  {
    if n > 0 {
      AccumulatedIff(chunk, n - 1);
    }
  }

  lemma GroupRefusedIff(chunk: string)
    requires |chunk| <= 4
    ensures GroupOfText(chunk) == Err(InvalidCharacter) <==> exists c :: c in chunk && !IsLetter(c)
    ensures |chunk| == 4 ==> GroupOfText(chunk) != Err(TrailingBits)
    ensures GroupOfText(chunk).Err? ==> !GroupOfText(chunk).error.Length?
  {
    AccumulatedIff(chunk, |chunk|);
  }

  lemma {:induction false} GroupsRefusedIff(text: string)
    requires |text| % 4 != 1
    ensures DecodedGroups(text) == Err(InvalidCharacter) <==> exists c :: c in text && !IsLetter(c)
    ensures DecodedGroups(text).Err? ==> !DecodedGroups(text).error.Length?
    decreases |text|
  {
    if 0 < |text| <= 4 {
      GroupRefusedIff(text);
    } else if text != "" {
      var first, rest := text[..4], text[4..];
      GroupRefusedIff(first);
      GroupsRefusedIff(rest);
      assert forall c :: c in text <==> c in first || c in rest by {
        assert text == first + rest;
      }
    }
  }

  lemma EncodesNothingIff(text: string)
    ensures Decoded(text).Err? <==> forall bytes :: Encoded(bytes) != text
  {
    if Decoded(text).Ok? {
      AcceptedIffEncoding(text, Decoded(text).value);
    }
    forall bytes | Encoded(bytes) == text ensures Decoded(text).Ok? {
      AcceptedIffEncoding(text, bytes);
    }
  }

  /** A text is refused for its length, for a foreign character, or because it encodes nothing, in this order. */
  lemma RefusedIff(text: string)
    ensures Decoded(text) == Err(Length(|text|)) <==> |text| % 4 == 1
    ensures Decoded(text) == Err(InvalidCharacter) <==> |text| % 4 != 1 && exists c :: c in text && !IsLetter(c)
    ensures Decoded(text) == Err(TrailingBits) <==>
              |text| % 4 != 1 && (forall c :: c in text ==> IsLetter(c)) && forall bytes :: Encoded(bytes) != text
  {
    EncodesNothingIff(text);
    if |text| % 4 != 1 {
      GroupsRefusedIff(text);
    }
  }
}
