/** The stored form of the sealed master key. */
module SealFormat {
  import opened ByteStrings
  import opened Envelope

  const FORMAT_VERSION := 1
  const HEADER_LEN := 37

  /** The fields as bytes; `keyfile` is the only kind of seal there is. */
  datatype SealRecord = SealRecord(generation: U32, nonce: Nonce, ciphertext: Bytes)

  datatype FormatError = MalformedRecord(found: nat) | SealVersion(found: nat) | UnsupportedKind(kind: Byte)

  function Magic(): Bytes { Ascii("SBAEMK") }

  function ToBytes(s: SealRecord): Bytes {
    Magic() + Le(FORMAT_VERSION, 2) + [KEYFILE] + Le32(s.generation) + s.nonce + s.ciphertext
  }

  function FromBytes(b: Bytes): Result<SealRecord, FormatError> {
    if |b| <= HEADER_LEN || b[..6] != Magic() then Err(MalformedRecord(|b|))
    else if FromLe(b[6..8]) != FORMAT_VERSION then Err(SealVersion(FromLe(b[6..8])))
    else if b[8] != KEYFILE then Err(UnsupportedKind(b[8]))
    else
      WordLimits();
      Ok(SealRecord(FromLe(b[9..13]), b[13..HEADER_LEN], b[HEADER_LEN..]))
  }

  method EncodeRecord(s: SealRecord) returns (out: Bytes)
    ensures FromBytes(out) == if s.ciphertext == [] then Err(MalformedRecord(HEADER_LEN)) else Ok(s)
    ensures out == ToBytes(s)
  {
    out := Magic();
    out := out + Le(FORMAT_VERSION, 2);
    out := out + [KEYFILE];
    out := out + Le32(s.generation);
    out := out + s.nonce;
    out := out + s.ciphertext;
    if s.ciphertext != [] {
      RecordRoundTrips(s);
    }
    assert |out| == HEADER_LEN + |s.ciphertext|;
  }

  lemma RecordParts(s: SealRecord)
    ensures var b := ToBytes(s);
      && |b| == 37 + |s.ciphertext|
      && b[..9] == Ascii("SBAEMK") + [1, 0, 1]
      && b[..6] == Magic() && b[6..8] == Le(FORMAT_VERSION, 2) && b[8] == KEYFILE
      && b[9..13] == Le32(s.generation) && b[13..HEADER_LEN] == s.nonce && b[HEADER_LEN..] == s.ciphertext
  {
  }

  lemma RecordRoundTrips(s: SealRecord)
    requires s.ciphertext != []
    ensures FromBytes(ToBytes(s)) == Ok(s)
  {
    hide ToBytes;
    RecordParts(s);
    WordLimits();
    assert Limit(2) == 256 * (256 * Limit(0));
    FromLeOfLe(FORMAT_VERSION, 2);
    FromLeOfLe(s.generation, 4);
  }

  /** A record reads back to exactly one value, and only its own bytes read back to it. */
  lemma FormatIsCanonical(b: Bytes, s: SealRecord)
    ensures FromBytes(b) == Ok(s) <==> b == ToBytes(s) && s.ciphertext != []
  {
    hide Le, FromLe;
    if FromBytes(b) == Ok(s) {
      LeOfFromLe(b[6..8]);
      LeOfFromLe(b[9..13]);
      assert b == b[..6] + b[6..8] + [b[8]] + b[9..13] + b[13..HEADER_LEN] + b[HEADER_LEN..];
    }
    if b == ToBytes(s) && s.ciphertext != [] {
      RecordRoundTrips(s);
    }
  }
}
