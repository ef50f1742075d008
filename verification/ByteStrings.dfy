/** Byte strings, fixed-width little-endian integers and the result types every module shares. */
module ByteStrings {

  datatype Option<+T> = None | Some(value: T)

  datatype Result<+T, +E> = Ok(value: T) | Err(error: E)

  type Byte = b: int | 0 <= b < 256
  type Bytes = seq<Byte>

  const U32_LIMIT := 0x1_0000_0000
  const U64_LIMIT := 0x1_0000_0000_0000_0000
  const I64_MAX := 0x7FFF_FFFF_FFFF_FFFF

  type U32 = n: int | 0 <= n < U32_LIMIT
  type U64 = n: int | 0 <= n < U64_LIMIT
  type I64 = n: int | -I64_MAX - 1 <= n <= I64_MAX

  /** A version number: `NonZeroU32` in the source. */
  type Version = n: int | 1 <= n < U32_LIMIT witness 1

  /** A text value as its UTF-8 bytes; SQLite holds no text anywhere near 4 GiB. */
  type Text = b: Bytes | |b| < U32_LIMIT witness []

  type Key32 = b: Bytes | |b| == 32 witness seq(32, _ => 0)
  type Digest = b: Bytes | |b| == 32 witness seq(32, _ => 0)

  /** A keyed hash. Nothing is assumed of it: results hold for every function of this type. */
  type Mac = (Key32, Bytes) -> Digest

  predicate IsAscii(s: string) {
    forall i :: 0 <= i < |s| ==> s[i] < 128 as char
  }

  /** The bytes of an ASCII string. */
  function Ascii(s: string): (r: Bytes)
    requires IsAscii(s)
    ensures |r| == |s|
    ensures forall i :: 0 <= i < |s| ==> r[i] == s[i] as int
  {
    seq(|s|, i requires 0 <= i < |s| => s[i] as int)
  }

  lemma AsciiInjective(s: string, t: string)
    requires IsAscii(s) && IsAscii(t) && Ascii(s) == Ascii(t)
    ensures s == t
  {
  }

  /** 256 to the power `width`. */
  function Limit(width: nat): (r: nat)
    ensures r >= 1
  {
    if width == 0 then 1 else 256 * Limit(width - 1)
  }

  /** The low `width` bytes of `n`, least significant first. */
  function Le(n: nat, width: nat): (r: Bytes)
    ensures |r| == width
  {
    if width == 0 then [] else [n % 256] + Le(n / 256, width - 1)
  }

  function FromLe(b: Bytes): (n: nat)
    ensures n < Limit(|b|)
  {
    if b == [] then 0 else b[0] + 256 * FromLe(b[1..])
  }

  lemma {:induction false} FromLeOfLe(n: nat, width: nat)
    requires n < Limit(width)
    ensures FromLe(Le(n, width)) == n
  {
    if width > 0 {
      FromLeOfLe(n / 256, width - 1);
      assert Le(n, width)[1..] == Le(n / 256, width - 1);
    }
  }

  lemma {:induction false} LeOfFromLe(b: Bytes)
    ensures Le(FromLe(b), |b|) == b
  {
    if b != [] {
      LeOfFromLe(b[1..]);
      var rest := FromLe(b[1..]);
      assert (b[0] + 256 * rest) % 256 == b[0] && (b[0] + 256 * rest) / 256 == rest;
    }
  }

  lemma LeInjective(n: nat, m: nat, width: nat)
    requires n < Limit(width) && m < Limit(width)
    requires Le(n, width) == Le(m, width)
    ensures n == m
  {
    FromLeOfLe(n, width);
    FromLeOfLe(m, width);
  }

  lemma WordLimits()
    ensures Limit(4) == U32_LIMIT && Limit(8) == U64_LIMIT
  {
  }

  function Le32(n: U32): (r: Bytes)
    ensures |r| == 4
  {
    Le(n, 4)
  }

  function Le64(n: U64): (r: Bytes)
    ensures |r| == 8
  {
    Le(n, 8)
  }

  lemma Le32Injective(n: U32, m: U32)
    requires Le32(n) == Le32(m)
    ensures n == m
  {
    WordLimits();
    LeInjective(n, m, 4);
  }

  lemma Le64RoundTrips(n: U64)
    ensures FromLe(Le64(n)) == n
  {
    WordLimits();
    FromLeOfLe(n, 8);
  }

  /** Every 32-bit length, byte by byte. */
  lemma Le32Bytes(n: U32)
    ensures Le32(n) == [n % 256, n / 256 % 256, n / 256 / 256 % 256, n / 256 / 256 / 256 % 256]
  {
    assert Le(n, 4) == [n % 256] + Le(n / 256, 3);
    assert Le(n / 256, 3) == [n / 256 % 256] + Le(n / 256 / 256, 2);
    assert Le(n / 256 / 256, 2) == [n / 256 / 256 % 256] + Le(n / 256 / 256 / 256, 1);
    assert Le(n / 256 / 256 / 256, 1) == [n / 256 / 256 / 256 % 256] + Le(n / 256 / 256 / 256 / 256, 0);
  }

  /** Two's complement: the unsigned reading of a signed 64-bit integer. */
  function Unsigned64(n: I64): (r: U64)
  {
    if n < 0 then n + U64_LIMIT else n
  }

  lemma TimestampBytesInjective(n: I64, m: I64)
    requires Le64(Unsigned64(n)) == Le64(Unsigned64(m))
    ensures n == m
  {
    Le64RoundTrips(Unsigned64(n));
    Le64RoundTrips(Unsigned64(m));
  }
}
