/**
 * Envelope encryption. Authenticated encryption (section 2 of RFC 5116) is a term algebra: a
 * ciphertext remembers the key, nonce, associated data and plaintext it was sealed with, and opens
 * only for exactly those; bytes nobody sealed never open.
 */
module Envelope {
  import opened ByteStrings

  type Id = b: Bytes | |b| == 16 witness seq(16, _ => 0)
  type Nonce = b: Bytes | |b| == 24 witness seq(24, _ => 0)

  datatype Cipher =
    | Sealed(key: Key32, nonce: Nonce, aad: Bytes, plaintext: Bytes)
    | Foreign(raw: Bytes)

  datatype CoreError = Decrypt | Malformed | UnsupportedSeal

  function AeadOpen(key: Key32, nonce: Nonce, aad: Bytes, c: Cipher): Result<Bytes, CoreError> {
    if c.Sealed? && c.key == key && c.nonce == nonce && c.aad == aad then Ok(c.plaintext) else Err(Decrypt)
  }

  /** The slot a ciphertext belongs to. */
  datatype Binding = Binding(secretId: Id, version: Version)

  function PayloadAad(b: Binding): (r: Bytes)
    ensures |r| == 20
  {
    b.secretId + Le32(b.version)
  }

  function WrapAad(b: Binding, generation: U32): (r: Bytes)
    ensures |r| == 24
  {
    PayloadAad(b) + Le32(generation)
  }

  lemma PayloadAadInjective(a: Binding, b: Binding)
    requires PayloadAad(a) == PayloadAad(b)
    ensures a == b
  {
    assert a.secretId == PayloadAad(a)[..16] && b.secretId == PayloadAad(b)[..16];
    assert Le32(a.version) == PayloadAad(a)[16..] && Le32(b.version) == PayloadAad(b)[16..];
    Le32Injective(a.version, b.version);
  }

  /** The associated data of a wrapped key names one slot and one master-key generation. */
  lemma WrapAadInjective(a: Binding, g: U32, b: Binding, h: U32)
    requires WrapAad(a, g) == WrapAad(b, h)
    ensures a == b && g == h
  {
    assert PayloadAad(a) == WrapAad(a, g)[..20] && PayloadAad(b) == WrapAad(b, h)[..20];
    assert Le32(g) == WrapAad(a, g)[20..] && Le32(h) == WrapAad(b, h)[20..];
    PayloadAadInjective(a, b);
    Le32Injective(g, h);
  }

  datatype WrappedKey = WrappedKey(wrappedDek: Cipher, dekNonce: Nonce, generation: U32)

  datatype SealedVersion = SealedVersion(ciphertext: Cipher, nonce: Nonce, key: WrappedKey)

  function OpenKey(k: WrappedKey, master: Key32, b: Binding): Result<Key32, CoreError> {
    match AeadOpen(master, k.dekNonce, WrapAad(b, k.generation), k.wrappedDek)
    case Err(error) => Err(error)
    case Ok(material) => if |material| == 32 then Ok(material) else Err(Malformed)
  }

  function Rewrap(k: WrappedKey, oldMaster: Key32, newMaster: Key32, generation: U32, b: Binding, nonce: Nonce)
    : Result<WrappedKey, CoreError>
  {
    match OpenKey(k, oldMaster, b)
    case Err(error) => Err(error)
    case Ok(dek) => Ok(WrappedKey(Sealed(newMaster, nonce, WrapAad(b, generation), dek), nonce, generation))
  }

  /** Fresh randomness for one seal: the data key and the two nonces. */
  datatype Fresh = Fresh(dek: Key32, nonce: Nonce, dekNonce: Nonce)

  function Seal(master: Key32, generation: U32, b: Binding, plaintext: Bytes, rnd: Fresh): SealedVersion {
    SealedVersion(
      Sealed(rnd.dek, rnd.nonce, PayloadAad(b), plaintext),
      rnd.nonce,
      WrappedKey(Sealed(master, rnd.dekNonce, WrapAad(b, generation), rnd.dek), rnd.dekNonce, generation))
  }

  function Open(s: SealedVersion, master: Key32, b: Binding): Result<Bytes, CoreError> {
    match OpenKey(s.key, master, b)
    case Err(error) => Err(error)
    case Ok(dek) => AeadOpen(dek, s.nonce, PayloadAad(b), s.ciphertext)
  }

  /** A sealed version opens under its own master key in its own slot, and nowhere else. */
  lemma OpensOnlyInItsSlot(
    master: Key32, generation: U32, b: Binding, plaintext: Bytes, f: Fresh, other: Key32, elsewhere: Binding)
    ensures Open(Seal(master, generation, b, plaintext, f), other, elsewhere)
         == if other == master && elsewhere == b then Ok(plaintext) else Err(Decrypt)
  {
    if WrapAad(elsewhere, generation) == WrapAad(b, generation) {
      WrapAadInjective(elsewhere, generation, b, generation);
    }
  }

  /** Rewrapping moves a version between master keys, payload untouched; the old key stops working. */
  lemma RewrapMovesTheKey(
    s: SealedVersion, oldMaster: Key32, newMaster: Key32, generation: U32, b: Binding, nonce: Nonce,
    other: Key32, elsewhere: Binding)
    requires OpenKey(s.key, oldMaster, b).Ok?
    ensures Rewrap(s.key, oldMaster, newMaster, generation, b, nonce).Ok?
    ensures var s' := s.(key := Rewrap(s.key, oldMaster, newMaster, generation, b, nonce).value);
      Open(s', other, elsewhere)
      == if other == newMaster && elsewhere == b then Open(s, oldMaster, b) else Err(Decrypt)
  {
    if WrapAad(elsewhere, generation) == WrapAad(b, generation) {
      WrapAadInjective(elsewhere, generation, b, generation);
    }
  }

  /** A wrapped key recorded under another generation number than the one it was wrapped for is refused. */
  lemma GenerationIsBound(k: WrappedKey, master: Key32, b: Binding, generation: U32)
    requires OpenKey(k, master, b).Ok? && generation != k.generation
    ensures OpenKey(k.(generation := generation), master, b) == Err(Decrypt)
  {
    if WrapAad(b, generation) == WrapAad(b, k.generation) {
      WrapAadInjective(b, generation, b, k.generation);
    }
  }

  // ----- the master key at rest -----

  datatype SealedMaster = SealedMaster(kind: Byte, generation: U32, nonce: Nonce, ciphertext: Cipher)

  const KEYFILE: Byte := 1

  function SealAad(kind: Byte, generation: U32): (r: Bytes)
    ensures |r| == 5
  {
    [kind] + Le32(generation)
  }

  function SealMaster(kek: Key32, master: Key32, generation: U32, nonce: Nonce): SealedMaster {
    SealedMaster(KEYFILE, generation, nonce, Sealed(kek, nonce, SealAad(KEYFILE, generation), master))
  }

  function UnsealMaster(kek: Key32, s: SealedMaster): Result<Key32, CoreError> {
    if s.kind != KEYFILE then Err(UnsupportedSeal)
    else
      match AeadOpen(kek, s.nonce, SealAad(s.kind, s.generation), s.ciphertext)
      case Err(error) => Err(error)
      case Ok(material) => if |material| == 32 then Ok(material) else Err(Malformed)
  }

  /** The generation is authenticated: rolled to any other number, the sealed master key does not open. */
  lemma MasterUnsealsAtItsGeneration(kek: Key32, master: Key32, generation: U32, nonce: Nonce, kek': Key32, g: U32)
    ensures UnsealMaster(kek', SealMaster(kek, master, generation, nonce).(generation := g))
         == if kek' == kek && g == generation then Ok(master) else Err(Decrypt)
  {
    if SealAad(KEYFILE, g) == SealAad(KEYFILE, generation) {
      assert Le32(g) == SealAad(KEYFILE, g)[1..] && Le32(generation) == SealAad(KEYFILE, generation)[1..];
      Le32Injective(g, generation);
    }
  }
}
