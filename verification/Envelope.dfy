/** Envelope encryption over any AEAD (crates/ciphr-crypto/src/envelope.rs). */
module Envelope {
  import opened Basics
  import opened Path
  import Utf8

  const KEY_LEN := 32
  const NONCE_LEN := 12
  const ID_LEN := 16

  type Bytes = seq<byte>
  type Key = b: Bytes | |b| == KEY_LEN
    witness [0, 0, 0, 0, 0, 0, 0, 0, 0, 0, 0, 0, 0, 0, 0, 0, 0, 0, 0, 0, 0, 0, 0, 0, 0, 0, 0, 0, 0, 0, 0, 0]
  type Nonce = b: Bytes | |b| == NONCE_LEN witness [0, 0, 0, 0, 0, 0, 0, 0, 0, 0, 0, 0]
  type Id = b: Bytes | |b| == ID_LEN witness [0, 0, 0, 0, 0, 0, 0, 0, 0, 0, 0, 0, 0, 0, 0, 0]
  type Version = v: int | 1 <= v < 0x1_0000_0000 witness 1

  datatype CryptoError = AeadRefused

  /** Authenticated encryption as two functions of key, nonce, associated data and message. */
  datatype Aead = Aead(
    seal: (Key, Nonce, Bytes, Bytes) -> Option<Bytes>,
    open: (Key, Nonce, Bytes, Bytes) -> Option<Bytes>)
  {
    /** What was sealed opens. */
    ghost predicate Correct() {
      forall k, n, aad, m :: seal(k, n, aad, m).Some? ==> open(k, n, aad, seal(k, n, aad, m).value) == Some(m)
    }

    /** The ideal: what was sealed opens under nothing but its own key, nonce and associated data. */
    ghost predicate Binding() {
      forall k, n, aad, m, k', n', aad' ::
        seal(k, n, aad, m).Some? && open(k', n', aad', seal(k, n, aad, m).value).Some? ==>
          k' == k && n' == n && aad' == aad
    }
  }

  // ----- associated data

  // The ASCII bytes of "ciphr/root-key/v1", "ciphr/dek/v1" and "ciphr/value/v1".
  const AAD_ROOT_KEY: Bytes := [0x63, 0x69, 0x70, 0x68, 0x72, 0x2F, 0x72, 0x6F, 0x6F, 0x74, 0x2D, 0x6B, 0x65, 0x79, 0x2F, 0x76, 0x31]
  const AAD_DEK: Bytes := [0x63, 0x69, 0x70, 0x68, 0x72, 0x2F, 0x64, 0x65, 0x6B, 0x2F, 0x76, 0x31]
  const AAD_VALUE: Bytes := [0x63, 0x69, 0x70, 0x68, 0x72, 0x2F, 0x76, 0x61, 0x6C, 0x75, 0x65, 0x2F, 0x76, 0x31]

  function U32Be(n: nat): (bytes: Bytes)
    requires n < 0x1_0000_0000
    ensures |bytes| == 4
  {
    [n / 0x1000000, n / 0x10000 % 256, n / 0x100 % 256, n % 256]
  }

  function RootKeyAad(id: Id): Bytes {
    AAD_ROOT_KEY + id
  }

  function DekAad(id: Id): Bytes {
    AAD_DEK + id
  }

  /** The length saturates where a path is longer than 32 bits can say, which no parsed path is. */
  function ValueAad(path: SecretPath, version: Version, dekId: Id): Bytes {
    var bytes := Utf8.Encode(path.text);
    var length := if |bytes| < 0x1_0000_0000 then |bytes| else 0xFFFF_FFFF;
    AAD_VALUE + U32Be(length) + bytes + U32Be(version) + dekId
  }

  // ----- operations

  datatype WrappedRootKey = WrappedRootKey(id: Id, nonce: Nonce, ciphertext: Bytes)
  datatype EncryptedValue = EncryptedValue(dekId: Id, dekNonce: Nonce, wrappedDek: Bytes, valueNonce: Nonce, ciphertext: Bytes)

  /** What `encrypt` draws for one version. */
  datatype Material = Material(dek: Key, dekId: Id, dekNonce: Nonce, valueNonce: Nonce)

  function Seal(aead: Aead, key: Key, nonce: Nonce, aad: Bytes, message: Bytes): Result<Bytes, CryptoError> {
    match aead.seal(key, nonce, aad, message)
    case Some(c) => Ok(c)
    case None => Err(AeadRefused)
  }

  function Open(aead: Aead, key: Key, nonce: Nonce, aad: Bytes, ciphertext: Bytes): Result<Bytes, CryptoError> {
    match aead.open(key, nonce, aad, ciphertext)
    case Some(m) => Ok(m)
    case None => Err(AeadRefused)
  }

  function OpenKey(aead: Aead, key: Key, nonce: Nonce, aad: Bytes, ciphertext: Bytes): Result<Key, CryptoError> {
    var bytes :- Open(aead, key, nonce, aad, ciphertext);
    if |bytes| != KEY_LEN then Err(AeadRefused) else Ok(bytes)
  }

  function WrapRootKeyWith(
      aead: Aead, master: Key, root: Key, id: Id, nonce: Nonce): Result<WrappedRootKey, CryptoError> {
    var ciphertext :- Seal(aead, master, nonce, RootKeyAad(id), root);
    Ok(WrappedRootKey(id, nonce, ciphertext))
  }

  function UnwrapRootKey(aead: Aead, master: Key, wrapped: WrappedRootKey): Result<Key, CryptoError> {
    OpenKey(aead, master, wrapped.nonce, RootKeyAad(wrapped.id), wrapped.ciphertext)
  }

  function EncryptWith(aead: Aead, root: Key, path: SecretPath, version: Version, plaintext: Bytes, m: Material)
    : Result<EncryptedValue, CryptoError>
  {
    var wrappedDek :- Seal(aead, root, m.dekNonce, DekAad(m.dekId), m.dek);
    var ciphertext :- Seal(aead, m.dek, m.valueNonce, ValueAad(path, version, m.dekId), plaintext);
    Ok(EncryptedValue(m.dekId, m.dekNonce, wrappedDek, m.valueNonce, ciphertext))
  }

  function UnwrapDek(aead: Aead, root: Key, value: EncryptedValue): Result<Key, CryptoError> {
    OpenKey(aead, root, value.dekNonce, DekAad(value.dekId), value.wrappedDek)
  }

  function Decrypt(aead: Aead, root: Key, path: SecretPath, version: Version, value: EncryptedValue)
    : Result<Bytes, CryptoError>
  {
    var dek :- UnwrapDek(aead, root, value);
    Open(aead, dek, value.valueNonce, ValueAad(path, version, value.dekId), value.ciphertext)
  }

  // ----- the associated data says what it is about

  lemma U32BeIsInjective(m: nat, n: nat)
    requires m < 0x1_0000_0000 && n < 0x1_0000_0000 && U32Be(m) == U32Be(n)
    ensures m == n
  {
    var x, y := U32Be(m), U32Be(n);
    assert x[0] == y[0] && x[1] == y[1] && x[2] == y[2] && x[3] == y[3];
    Digits256(m);
    Digits256(n);
  }

  lemma Digits256(n: nat)
    ensures n == n / 0x1000000 * 0x1000000 + n / 0x10000 % 256 * 0x10000 + n / 0x100 % 256 * 0x100 + n % 256
  {
    assert n / 0x100 / 256 == n / 0x10000;
    assert n / 0x10000 / 256 == n / 0x1000000;
  }

  lemma SameAfter(prefix: Bytes, x: Bytes, y: Bytes)
    requires prefix + x == prefix + y
    ensures x == y
  {
    assert x == (prefix + x)[|prefix|..] && y == (prefix + y)[|prefix|..];
  }

  lemma SameParts(a: Bytes, x: Bytes, b: Bytes, y: Bytes)
    requires |a| == |b| && a + x == b + y
    ensures a == b && x == y
  {
    assert a == (a + x)[..|a|] && b == (b + y)[..|b|];
    assert x == (a + x)[|a|..] && y == (b + y)[|b|..];
  }

  /** A path that fits the length field; every parsed path is far shorter. */
  predicate Fits(path: SecretPath) {
    |Utf8.Encode(path.text)| < 0x1_0000_0000
  }

  lemma ParsedPathsFit(u: Unicode, input: string)
    requires Parse(u, input).Ok?
    ensures Fits(Parse(u, input).value)
  {
    Utf8.LengthIsByteLen(Parse(u, input).value.text);
  }

  /** Different paths, versions or data keys have different associated data. */
  lemma ValueAadIsInjective(p: SecretPath, v: Version, id: Id, q: SecretPath, w: Version, jd: Id)
    requires Fits(p) && Fits(q)
    requires ValueAad(p, v, id) == ValueAad(q, w, jd)
    ensures p == q && v == w && id == jd
  {
    var x, y := Utf8.Encode(p.text), Utf8.Encode(q.text);
    ValueAadParts(p, v, id);
    ValueAadParts(q, w, jd);
    SameAfter(AAD_VALUE, U32Be(|x|) + (x + (U32Be(v) + id)), U32Be(|y|) + (y + (U32Be(w) + jd)));
    SameParts(U32Be(|x|), x + (U32Be(v) + id), U32Be(|y|), y + (U32Be(w) + jd));
    U32BeIsInjective(|x|, |y|);
    SameParts(x, U32Be(v) + id, y, U32Be(w) + jd);
    SameParts(U32Be(v), id, U32Be(w), jd);
    U32BeIsInjective(v, w);
    Utf8.EncodeIsInjective(p.text, q.text);
  }

  lemma ValueAadParts(p: SecretPath, v: Version, id: Id)
    requires Fits(p)
    ensures var x := Utf8.Encode(p.text);
            ValueAad(p, v, id) == AAD_VALUE + (U32Be(|x|) + (x + (U32Be(v) + id)))
  {
    var x := Utf8.Encode(p.text);
    var length, last := U32Be(|x|), U32Be(v);
    assert AAD_VALUE + length + x + last + id == AAD_VALUE + (length + (x + (last + id)));
  }

  lemma ByteOfConcat(a: Bytes, b: Bytes, i: nat)
    requires i < |a|
    ensures (a + b)[i] == a[i]
  {
  }

  /** No associated data of one level is associated data of another: the seventh byte differs. */
  lemma AadsAreDisjoint(root: Id, dek: Id, path: SecretPath, version: Version, dekId: Id)
    ensures RootKeyAad(root) != DekAad(dek)
    ensures DekAad(dek) != ValueAad(path, version, dekId)
    ensures RootKeyAad(root) != ValueAad(path, version, dekId)
  {
    var bytes := Utf8.Encode(path.text);
    var length := U32Be(if |bytes| < 0x1_0000_0000 then |bytes| else 0xFFFF_FFFF);
    var rest := length + bytes + U32Be(version) + dekId;
    assert AAD_VALUE + length + bytes + U32Be(version) + dekId == AAD_VALUE + rest;
    ByteOfConcat(AAD_ROOT_KEY, root, 6);
    ByteOfConcat(AAD_DEK, dek, 6);
    ByteOfConcat(AAD_VALUE, rest, 6);
  }

  // ----- what decryption answers

  /** A wrapped root key opens under its own master key and identifier alone. */
  lemma UnwrapOfWrap(aead: Aead, master: Key, root: Key, id: Id, nonce: Nonce, other: Key, wrapped: WrappedRootKey)
    requires aead.Correct() && aead.Binding()
    requires WrapRootKeyWith(aead, master, root, id, nonce).Ok?
    requires wrapped.ciphertext == WrapRootKeyWith(aead, master, root, id, nonce).value.ciphertext
    ensures UnwrapRootKey(aead, other, wrapped)
            == if other == master && wrapped.id == id && wrapped.nonce == nonce then Ok(root) else Err(AeadRefused)
  {
    if aead.open(other, wrapped.nonce, RootKeyAad(wrapped.id), wrapped.ciphertext).Some? {
      SameAfter(AAD_ROOT_KEY, wrapped.id, id);
    }
  }

  lemma UnwrapOfSealedDek(
      aead: Aead, root: Key, path: SecretPath, version: Version, plaintext: Bytes, m: Material, other: Key, record: EncryptedValue)
    requires aead.Correct() && aead.Binding()
    requires EncryptWith(aead, root, path, version, plaintext, m).Ok?
    requires record.wrappedDek == EncryptWith(aead, root, path, version, plaintext, m).value.wrappedDek
    ensures UnwrapDek(aead, other, record)
            == if other == root && record.dekId == m.dekId && record.dekNonce == m.dekNonce then Ok(m.dek) else Err(AeadRefused)
  {
    if aead.open(other, record.dekNonce, DekAad(record.dekId), record.wrappedDek).Some? {
      SameAfter(AAD_DEK, record.dekId, m.dekId);
    }
  }

  /**
   * Decryption of an encrypted value answers the plaintext exactly for the root key, the path and the
   * version it was encrypted for.
   */
  lemma DecryptOfEncrypt(
    aead: Aead, root: Key, path: SecretPath, version: Version, plaintext: Bytes, m: Material,
    otherRoot: Key, otherPath: SecretPath, otherVersion: Version)
    requires aead.Correct() && aead.Binding() && Fits(path) && Fits(otherPath)
    requires EncryptWith(aead, root, path, version, plaintext, m).Ok?
    ensures Decrypt(aead, otherRoot, otherPath, otherVersion, EncryptWith(aead, root, path, version, plaintext, m).value)
            == if otherRoot == root && otherPath == path && otherVersion == version then Ok(plaintext) else Err(AeadRefused)
  {
    var value := EncryptWith(aead, root, path, version, plaintext, m).value;
    UnwrapOfSealedDek(aead, root, path, version, plaintext, m, otherRoot, value);
    if aead.open(m.dek, m.valueNonce, ValueAad(otherPath, otherVersion, m.dekId), value.ciphertext).Some? {
      ValueAadIsInjective(otherPath, otherVersion, m.dekId, path, version, m.dekId);
    }
  }

  /** Without the ideal: a ciphertext that opens elsewhere is itself a forgery against the AEAD. */
  lemma RelocationIsForgery(
    aead: Aead, root: Key, path: SecretPath, version: Version, plaintext: Bytes, m: Material,
    otherPath: SecretPath, otherVersion: Version)
    requires aead.Correct() && Fits(path) && Fits(otherPath)
    requires EncryptWith(aead, root, path, version, plaintext, m).Ok?
    requires (otherPath, otherVersion) != (path, version)
    requires Decrypt(aead, root, otherPath, otherVersion, EncryptWith(aead, root, path, version, plaintext, m).value).Ok?
    ensures var sealed := aead.seal(m.dek, m.valueNonce, ValueAad(path, version, m.dekId), plaintext);
            && sealed.Some?
            && ValueAad(otherPath, otherVersion, m.dekId) != ValueAad(path, version, m.dekId)
            && aead.open(m.dek, m.valueNonce, ValueAad(otherPath, otherVersion, m.dekId), sealed.value).Some?
  {
    if ValueAad(otherPath, otherVersion, m.dekId) == ValueAad(path, version, m.dekId) {
      ValueAadIsInjective(otherPath, otherVersion, m.dekId, path, version, m.dekId);
    }
  }

  // ----- a store that somebody else can write to

  /** One version as it was encrypted. */
  datatype Written = Written(path: SecretPath, version: Version, plaintext: Bytes, material: Material, value: EncryptedValue)

  ghost predicate Honest(aead: Aead, root: Key, w: Written) {
    Fits(w.path) && EncryptWith(aead, root, w.path, w.version, w.plaintext, w.material) == Ok(w.value)
  }

  /**
   * A record put together from any pieces of the store, under any labels, opens only if it is one of
   * the honest records, whole, at its own path and version.
   */
  lemma MixedRecordsDoNotOpen(
    aead: Aead, root: Key, store: seq<Written>, i: nat, j: nat, record: EncryptedValue, path: SecretPath, version: Version)
    requires aead.Correct() && aead.Binding() && Fits(path)
    requires forall w :: w in store ==> Honest(aead, root, w)
    requires forall k, l :: 0 <= k < l < |store| ==> store[k].material.dek != store[l].material.dek
    requires i < |store| && j < |store|
    requires record.wrappedDek == store[i].value.wrappedDek && record.ciphertext == store[j].value.ciphertext
    ensures Decrypt(aead, root, path, version, record)
            == if i == j && record == store[i].value && path == store[i].path && version == store[i].version
               then Ok(store[i].plaintext) else Err(AeadRefused)
  {
    var w, x := store[i], store[j];
    assert Honest(aead, root, w) && Honest(aead, root, x);
    UnwrapOfSealedDek(aead, root, w.path, w.version, w.plaintext, w.material, root, record);
    if UnwrapDek(aead, root, record).Ok? {
      var aad := ValueAad(path, version, record.dekId);
      if aead.open(w.material.dek, record.valueNonce, aad, record.ciphertext).Some? {
        assert w.material.dek == x.material.dek && record.valueNonce == x.material.valueNonce;
        assert i == j;
        ValueAadIsInjective(path, version, record.dekId, x.path, x.version, x.material.dekId);
        assert record == w.value;
      }
    }
  }

  // ----- the layout of what is authenticated

  /** Four bytes as a number, the most significant first. */
  function BigEndian(bytes: Bytes): int
    requires |bytes| == 4
  {
    ((bytes[0] as int * 256 + bytes[1]) * 256 + bytes[2]) * 256 + bytes[3]
  }

  lemma BigEndianOf(n: nat)
    requires n < 0x1_0000_0000
    ensures BigEndian(U32Be(n)) == n
  {
    Digits256(n);
  }

  lemma LabelsAreAscii()
    ensures AAD_ROOT_KEY == AsciiBytes("ciphr/root-key/v1")
    ensures AAD_DEK == AsciiBytes("ciphr/dek/v1")
    ensures AAD_VALUE == AsciiBytes("ciphr/value/v1")
  {
  }

  /** The byte of an ASCII character. */
  function AsciiByte(c: char): byte {
    if c < '\U{80}' then c as int else 0
  }

  function AsciiBytes(text: string): (bytes: Bytes) {
    seq(|text|, i requires 0 <= i < |text| => AsciiByte(text[i]))
  }

  /** Label, length of the path, path, version and data key follow one another. */
  lemma ValueAadLayout(path: SecretPath, version: Version, dekId: Id)
    requires Fits(path)
    ensures var aad, text := ValueAad(path, version, dekId), Utf8.Encode(path.text);
            var n := |text|;
            && |aad| == 14 + 4 + n + 4 + 16
            && aad[..14] == AsciiBytes("ciphr/value/v1")
            && BigEndian(aad[14..18]) == n && aad[18..18 + n] == text
            && BigEndian(aad[18 + n..22 + n]) == version && aad[22 + n..] == dekId
  {
    var aad, text := ValueAad(path, version, dekId), Utf8.Encode(path.text);
    var n := |text|;
    LabelsAreAscii();
    BigEndianOf(n);
    BigEndianOf(version);
    assert aad[14..18] == U32Be(n) && aad[18 + n..22 + n] == U32Be(version);
  }

  lemma KeyAadLayout(root: Id, dek: Id)
    ensures RootKeyAad(root) == AsciiBytes("ciphr/root-key/v1") + root
    ensures DekAad(dek) == AsciiBytes("ciphr/dek/v1") + dek
  {
    LabelsAreAscii();
  }

  /** What is stored: the data key sealed under the root key, and the value sealed under the data key. */
  lemma EncryptedIs(aead: Aead, root: Key, path: SecretPath, version: Version, plaintext: Bytes, m: Material)
    requires EncryptWith(aead, root, path, version, plaintext, m).Ok?
    ensures var value := EncryptWith(aead, root, path, version, plaintext, m).value;
            && value.dekId == m.dekId && value.dekNonce == m.dekNonce && value.valueNonce == m.valueNonce
            && aead.seal(root, m.dekNonce, AsciiBytes("ciphr/dek/v1") + m.dekId, m.dek) == Some(value.wrappedDek)
            && aead.seal(m.dek, m.valueNonce, ValueAad(path, version, m.dekId), plaintext) == Some(value.ciphertext)
  {
    LabelsAreAscii();
  }
}
