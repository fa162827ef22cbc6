/**
 * Fixed-width integer images as byte sequences. The emulator's `u16_le`,
 * `u32_le`, `u64_le` types store their value least significant byte first;
 * `u16_be` and `u32_be` store it most significant byte first. A load
 * (`ReadLe64` and friends) is specified as the inverse of the store.
 */
module Bytes {

  type byte = bv8

  function Le16(x: bv16): (b: seq<byte>)
    ensures |b| == 2
  {
    [(x & 0xFF) as byte, (x >> 8) as byte]
  }

  function Be16(x: bv16): (b: seq<byte>)
    ensures |b| == 2
  {
    [(x >> 8) as byte, (x & 0xFF) as byte]
  }

  function Le32(x: bv32): (b: seq<byte>)
    ensures |b| == 4
  {
    [(x & 0xFF) as byte, ((x >> 8) & 0xFF) as byte, ((x >> 16) & 0xFF) as byte, (x >> 24) as byte]
  }

  function Be32(x: bv32): (b: seq<byte>)
    ensures |b| == 4
  {
    [(x >> 24) as byte, ((x >> 16) & 0xFF) as byte, ((x >> 8) & 0xFF) as byte, (x & 0xFF) as byte]
  }

  function Le64(x: bv64): (b: seq<byte>)
    ensures |b| == 8
  {
    [(x & 0xFF) as byte, ((x >> 8) & 0xFF) as byte, ((x >> 16) & 0xFF) as byte,
     ((x >> 24) & 0xFF) as byte, ((x >> 32) & 0xFF) as byte, ((x >> 40) & 0xFF) as byte,
     ((x >> 48) & 0xFF) as byte, (x >> 56) as byte]
  }

  /** Little-endian 16-bit load at offset i: the value whose image is b[i..i+2]. */
  function ReadLe16(b: seq<byte>, i: nat): (r: bv16)
    requires i + 2 <= |b|
    ensures Le16(r) == b[i..i + 2]
  {
    (b[i] as bv16) | (b[i + 1] as bv16 << 8)
  }

  function ReadBe16(b: seq<byte>, i: nat): (r: bv16)
    requires i + 2 <= |b|
    ensures Be16(r) == b[i..i + 2]
  {
    (b[i] as bv16 << 8) | (b[i + 1] as bv16)
  }

  function ReadLe32(b: seq<byte>, i: nat): (r: bv32)
    requires i + 4 <= |b|
    ensures Le32(r) == b[i..i + 4]
  {
    (b[i] as bv32) | (b[i + 1] as bv32 << 8) | (b[i + 2] as bv32 << 16) | (b[i + 3] as bv32 << 24)
  }

  function ReadBe32(b: seq<byte>, i: nat): (r: bv32)
    requires i + 4 <= |b|
    ensures Be32(r) == b[i..i + 4]
  {
    (b[i] as bv32 << 24) | (b[i + 1] as bv32 << 16) | (b[i + 2] as bv32 << 8) | (b[i + 3] as bv32)
  }

  function ReadLe64(b: seq<byte>, i: nat): (r: bv64)
    requires i + 8 <= |b|
    ensures Le64(r) == b[i..i + 8]
  {
    (b[i] as bv64) | (b[i + 1] as bv64 << 8) | (b[i + 2] as bv64 << 16) | (b[i + 3] as bv64 << 24)
    | (b[i + 4] as bv64 << 32) | (b[i + 5] as bv64 << 40) | (b[i + 6] as bv64 << 48)
    | (b[i + 7] as bv64 << 56)
  }

  /** Loading back what was stored gives the stored value. */
  lemma ReadOfStore(x16: bv16, x32: bv32, x64: bv64)
    ensures ReadLe16(Le16(x16), 0) == x16 && ReadBe16(Be16(x16), 0) == x16
    ensures ReadLe32(Le32(x32), 0) == x32 && ReadBe32(Be32(x32), 0) == x32
    ensures ReadLe64(Le64(x64), 0) == x64
  {
  }

  /** A stored value is determined by its image. */
  lemma StoresInjective(x32: bv32, y32: bv32, x16: bv16, y16: bv16)
    ensures Le32(x32) == Le32(y32) ==> x32 == y32
    ensures Be32(x32) == Be32(y32) ==> x32 == y32
    ensures Le16(x16) == Le16(y16) ==> x16 == y16
    ensures Be16(x16) == Be16(y16) ==> x16 == y16
  {
    ReadOfStore(x16, x32, 0);
    ReadOfStore(y16, y32, 0);
  }

  /** Two adjacent stretches on which two sequences agree make one. */
  lemma AgreeJoin(r: seq<byte>, b: seq<byte>, i: nat, j: nat, k: nat)
    requires i <= j <= k <= |r| && k <= |b|
    requires r[i..j] == b[i..j] && r[j..k] == b[j..k]
    ensures r[i..k] == b[i..k]
  {
    assert r[i..k] == r[i..j] + r[j..k];
    assert b[i..k] == b[i..j] + b[j..k];
  }
}
