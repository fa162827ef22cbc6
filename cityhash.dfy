/**
 * CityHash64 (src/common/cityhash.cpp): a 64-bit hash of a byte string built
 * from wrapping `u64` arithmetic (`bv64`), right rotations and little-endian
 * loads. The input length is a `size_t`, so it is below 2^64.
 */
module CityHash {
  import opened Bytes

  type Pair = (bv64, bv64)

  /** One more than the largest `size_t`. */
  const SizeLimit: int := 0x1_0000_0000_0000_0000

  // Some primes between 2^63 and 2^64.
  const k0: bv64 := 0xc3a5c85c97cb3127
  const k1: bv64 := 0xb492b66fbe98f273
  const k2: bv64 := 0x9ae16a3b2f90404f

  /** An unaligned 8-byte load on a little-endian host. */
  function Fetch64(s: seq<byte>, i: nat): (r: bv64)
    requires i + 8 <= |s|
    ensures Le64(r) == s[i..i + 8]
  {
    ReadLe64(s, i)
  }

  /** An unaligned 4-byte load on a little-endian host. */
  function Fetch32(s: seq<byte>, i: nat): (r: bv32)
    requires i + 4 <= |s|
    ensures Le32(r) == s[i..i + 4]
  {
    ReadLe32(s, i)
  }

  /** Right rotation; a shift of 0 is special-cased so that nothing is shifted by 64. */
  function Rotate(val: bv64, shift: bv6): (r: bv64)
  {
    if shift == 0 then val else (val >> shift) | (val << (64 - shift as bv7))
  }

  /** At every shift the hash uses, `Rotate` is the right rotation of the 64 bits. */
  lemma RotateIsRotateRight(v: bv64)
    ensures Rotate(v, 18) == v.RotateRight(18)
    ensures Rotate(v, 21) == v.RotateRight(21)
    ensures Rotate(v, 25) == v.RotateRight(25)
    ensures Rotate(v, 30) == v.RotateRight(30)
    ensures Rotate(v, 33) == v.RotateRight(33)
    ensures Rotate(v, 37) == v.RotateRight(37)
    ensures Rotate(v, 42) == v.RotateRight(42)
    ensures Rotate(v, 43) == v.RotateRight(43)
    ensures Rotate(v, 44) == v.RotateRight(44)
  {
  }

  function ShiftMix(val: bv64): bv64
  {
    val ^ (val >> 47)
  }

  /** `swap64`: the byte reversal of a 64-bit value. */
  function Swap64(x: bv64): (r: bv64)
    ensures Le64(r) == [Le64(x)[7], Le64(x)[6], Le64(x)[5], Le64(x)[4],
                        Le64(x)[3], Le64(x)[2], Le64(x)[1], Le64(x)[0]]
  {
    ReadLe64([(x >> 56) as byte, ((x >> 48) & 0xFF) as byte, ((x >> 40) & 0xFF) as byte,
              ((x >> 32) & 0xFF) as byte, ((x >> 24) & 0xFF) as byte, ((x >> 16) & 0xFF) as byte,
              ((x >> 8) & 0xFF) as byte, (x & 0xFF) as byte], 0)
  }

  lemma Swap64Involution(x: bv64)
    ensures Swap64(Swap64(x)) == x
  {
  }

  /** The three-argument, Murmur-inspired `HashLen16`. */
  function HashLen16(u: bv64, v: bv64, mul: bv64): bv64
  {
    var a := (u ^ v) * mul;
    var a1 := a ^ (a >> 47);
    var b := (v ^ a1) * mul;
    var b1 := b ^ (b >> 47);
    b1 * mul
  }

  /** `HashLen0to16` for 8 to 16 bytes, given the first and the last eight. */
  function HashLen8to16(first: bv64, last: bv64, len: bv64): bv64
  {
    var mul := k2 + len * 2;
    var a := first + k2;
    var b := last;
    var c := Rotate(b, 37) * mul + a;
    var d := (Rotate(a, 25) + b) * mul;
    HashLen16(c, d, mul)
  }

  /** `HashLen0to16` for 4 to 7 bytes, given the first and the last four. */
  function HashLen4to7(first: bv32, last: bv32, len: bv64): bv64
  {
    var mul := k2 + len * 2;
    var a := first as bv64;
    HashLen16(len + (a << 3), last as bv64, mul)
  }

  /** `HashLen0to16` for 1 to 3 bytes, given the first, middle and last byte. */
  function HashLen1to3(a: byte, b: byte, c: byte, len: bv32): bv64
  {
    var y: bv32 := (a as bv32) + ((b as bv32) << 8);
    var z: bv32 := len + ((c as bv32) << 2);
    ShiftMix(((y as bv64) * k2) ^ ((z as bv64) * k0)) * k2
  }

  /** What `HashLen0to16` reads of an input of at most 16 bytes. */
  datatype ShortInput =
    | NoBytes
    | Bytes3(a: byte, b: byte, c: byte)
    | HalfWords(first32: bv32, last32: bv32)
    | Words(first: bv64, last: bv64)

  /**
   * The loads of `HashLen0to16`: the first and the last eight bytes for 8 to
   * 16 bytes, the first and the last four for 4 to 7, and the first, middle
   * (`len >> 1`) and last byte for 1 to 3.
   */
  function ShortInputOf(s: seq<byte>): (r: ShortInput)
    requires |s| <= 16
    ensures r.Words? <==> |s| >= 8
    ensures r.HalfWords? <==> 4 <= |s| < 8
    ensures r.Bytes3? <==> 0 < |s| < 4
    ensures r.NoBytes? <==> |s| == 0
  {
    if |s| >= 8 then Words(Fetch64(s, 0), Fetch64(s, |s| - 8))
    else if |s| >= 4 then HalfWords(Fetch32(s, 0), Fetch32(s, |s| - 4))
    else if |s| > 0 then Bytes3(s[0], s[|s| / 2], s[|s| - 1])
    else NoBytes
  }

  function HashShort(input: ShortInput, len: bv64): bv64
  {
    match input
    case Words(first, last) => HashLen8to16(first, last, len)
    case HalfWords(first, last) => HashLen4to7(first, last, len)
    case Bytes3(a, b, c) => HashLen1to3(a, b, c, (len & 0xFFFF_FFFF) as bv32)
    case NoBytes => k2
  }

  function HashLen0to16(s: seq<byte>): (r: bv64)
    requires |s| <= 16
    ensures |s| == 0 ==> r == k2
  {
    HashShort(ShortInputOf(s), |s| as bv64)
  }

  /** A load depends on the bytes it covers and on nothing else. */
  lemma FetchDeterminedByBytes(s: seq<byte>, i: nat, t: seq<byte>, j: nat)
    requires i + 8 <= |s| && j + 8 <= |t| && s[i..i + 8] == t[j..j + 8]
    ensures Fetch64(s, i) == Fetch64(t, j)
  {
    ReadOfStore(0, 0, Fetch64(s, i));
    ReadOfStore(0, 0, Fetch64(t, j));
  }

  lemma Fetch32DeterminedByBytes(s: seq<byte>, i: nat, t: seq<byte>, j: nat)
    requires i + 4 <= |s| && j + 4 <= |t| && s[i..i + 4] == t[j..j + 4]
    ensures Fetch32(s, i) == Fetch32(t, j)
  {
    ReadOfStore(0, Fetch32(s, i), 0);
    ReadOfStore(0, Fetch32(t, j), 0);
  }

  /** For 1 to 3 bytes only the first, middle and last byte are read. */
  lemma ShortInputBytes3Reads(s: seq<byte>, t: seq<byte>)
    requires 0 < |s| == |t| < 4
    requires s[0] == t[0] && s[|s| / 2] == t[|t| / 2] && s[|s| - 1] == t[|t| - 1]
    ensures ShortInputOf(s) == ShortInputOf(t)
  {
  }

  /** For 8 to 16 bytes only the first and last 8 bytes are read. */
  lemma ShortInputWordReads(s: seq<byte>, t: seq<byte>)
    requires 8 <= |s| == |t| <= 16
    requires s[..8] == t[..8] && s[|s| - 8..] == t[|t| - 8..]
    ensures ShortInputOf(s) == ShortInputOf(t)
  {
    assert s[0..8] == t[0..8] && s[|s| - 8..|s| - 8 + 8] == t[|t| - 8..|t| - 8 + 8];
    FetchDeterminedByBytes(s, 0, t, 0);
    FetchDeterminedByBytes(s, |s| - 8, t, |t| - 8);
  }

  /** For 4 to 7 bytes only the first and last 4 bytes are read. */
  lemma ShortInputHalfWordReads(s: seq<byte>, t: seq<byte>)
    requires 4 <= |s| == |t| < 8
    requires s[..4] == t[..4] && s[|s| - 4..] == t[|t| - 4..]
    ensures ShortInputOf(s) == ShortInputOf(t)
  {
    assert s[0..4] == t[0..4] && s[|s| - 4..|s| - 4 + 4] == t[|t| - 4..|t| - 4 + 4];
    Fetch32DeterminedByBytes(s, 0, t, 0);
    Fetch32DeterminedByBytes(s, |s| - 4, t, |t| - 4);
  }

  function HashLen17to32(s: seq<byte>): bv64
    requires 17 <= |s| <= 32
  {
    var len := |s| as bv64;
    var mul := k2 + len * 2;
    var a := Fetch64(s, 0) * k1;
    var b := Fetch64(s, 8);
    var c := Fetch64(s, |s| - 8) * mul;
    var d := Fetch64(s, |s| - 16) * k2;
    HashLen16(Rotate(a + b, 43) + Rotate(c, 30) + d, a + Rotate(b + k2, 18) + c, mul)
  }

  /**
   * A 16-byte hash of four words and two seeds. The source's updates
   * `a += w; b = Rotate(b + a + z, 21); c = a; a += x; a += y; b += Rotate(a, 44)`,
   * returning `(a + z, b + c)`, are written here with the temporaries substituted.
   */
  function WeakHashLen32WithSeeds(w: bv64, x: bv64, y: bv64, z: bv64, a: bv64, b: bv64): Pair
  {
    (a + w + x + y + z, Rotate(b + (a + w) + z, 21) + Rotate(a + w + x + y, 44) + (a + w))
  }

  /** `WeakHashLen32WithSeeds` of the 32 bytes at `i`. */
  function WeakHashLen32WithSeedsAt(s: seq<byte>, i: nat, a: bv64, b: bv64): Pair
    requires i + 32 <= |s|
  {
    WeakHashLen32WithSeeds(Fetch64(s, i), Fetch64(s, i + 8), Fetch64(s, i + 16), Fetch64(s, i + 24), a, b)
  }

  function HashLen33to64(s: seq<byte>): bv64
    requires 33 <= |s| <= 64
  {
    var len := |s| as bv64;
    var mul := k2 + len * 2;
    var a := Fetch64(s, 0) * k2;
    var b := Fetch64(s, 8);
    var c := Fetch64(s, |s| - 24);
    var d := Fetch64(s, |s| - 32);
    var e := Fetch64(s, 16) * k2;
    var f := Fetch64(s, 24) * 9;
    var g := Fetch64(s, |s| - 8);
    var h := Fetch64(s, |s| - 16) * mul;
    var u := Rotate(a + g, 43) + (Rotate(b, 30) + c) * 9;
    var v := ((a + g) ^ d) + f + 1;
    var w := Swap64((u + v) * mul) + h;
    var x := Rotate(e + f, 42) + c;
    var y := (Swap64((v + w) * mul) + g) * mul;
    var z := e + f + c;
    var a1 := Swap64((x + z) * mul + y) + b;
    var b1 := ShiftMix((z + a1) * mul + d + h) * mul;
    b1 + x
  }

  // -------------------------------------------------------------- long path

  /** The 56 bytes of state the long path carries from chunk to chunk. */
  datatype LongState = LongState(x: bv64, y: bv64, z: bv64, v: Pair, w: Pair)

  /** The state after hashing the end of an input longer than 64 bytes. */
  function LongInit(s: seq<byte>, hash128to64: (bv64, bv64) -> bv64): LongState
    requires 64 < |s| < SizeLimit
  {
    var len := |s| as bv64;
    var x := Fetch64(s, |s| - 40);
    var y := Fetch64(s, |s| - 16) + Fetch64(s, |s| - 56);
    var z := hash128to64(Fetch64(s, |s| - 48) + len, Fetch64(s, |s| - 24));
    var v := WeakHashLen32WithSeedsAt(s, |s| - 64, len, z);
    var w := WeakHashLen32WithSeedsAt(s, |s| - 32, y + k1, x);
    LongState(x * k1 + Fetch64(s, 0), y, z, v, w)
  }

  /** One iteration of the chunk loop on the 64 bytes at `off`; it ends by swapping z and x. */
  function LongRound(s: seq<byte>, off: nat, st: LongState): LongState
    requires off + 64 <= |s|
  {
    var x := Rotate(st.x + st.y + st.v.0 + Fetch64(s, off + 8), 37) * k1;
    var y := Rotate(st.y + st.v.1 + Fetch64(s, off + 48), 42) * k1;
    var x1 := x ^ st.w.1;
    var y1 := y + st.v.0 + Fetch64(s, off + 40);
    var z := Rotate(st.z + st.w.0, 33) * k1;
    var v := WeakHashLen32WithSeedsAt(s, off, st.v.1 * k1, x1 + st.w.0);
    var w := WeakHashLen32WithSeedsAt(s, off + 32, z + st.w.1, y1 + Fetch64(s, off + 16));
    LongState(z, y1, x1, v, w)
  }

  /**
   * `LongRound` on the chunk at `off` of `s`. The loop only ever passes
   * offsets with a whole chunk after them, so the `else` branch is never taken.
   */
  function RoundOf(s: seq<byte>): (nat, LongState) -> LongState
  {
    (off: nat, st: LongState) => if off + 64 <= |s| then LongRound(s, off, st) else st
  }

  /** The state after `n` applications of `round`, at offsets `off`, `off + 64`, ... */
  function Rounds(round: (nat, LongState) -> LongState, off: nat, st: LongState, n: nat): LongState
    decreases n
  {
    if n == 0 then st else Rounds(round, off + 64, round(off, st), n - 1)
  }

  function LongFinish(st: LongState, hash128to64: (bv64, bv64) -> bv64): bv64
  {
    hash128to64(hash128to64(st.v.0, st.w.0) + ShiftMix(st.y) * k1 + st.z,
                hash128to64(st.v.1, st.w.1) + st.x)
  }

  /** The number of 64-byte chunks the loop hashes for an input of `n` bytes. */
  function ChunkCount(n: nat): (k: nat)
    requires n > 64
    ensures 1 <= k && 64 * k < n <= 64 * k + 64
    ensures 64 * k == (n - 1) - (n - 1) % 64
  {
    (n - 1) / 64
  }

  /**
   * The whole hash. `hash128to64` is the two-argument `HashLen16`, that is
   * `Hash128to64` of cityhash.h, which is not part of this model.
   */
  function Hash64(s: seq<byte>, hash128to64: (bv64, bv64) -> bv64): bv64
    requires |s| < SizeLimit
  {
    if |s| <= 32 then
      if |s| <= 16 then HashLen0to16(s) else HashLen17to32(s)
    else if |s| <= 64 then
      HashLen33to64(s)
    else
      LongFinish(Rounds(RoundOf(s), 0, LongInit(s, hash128to64), ChunkCount(|s|)), hash128to64)
  }

  /** `CityHash64`: the dispatch on the length class and, past 64 bytes, the chunk loop. */
  method CityHash64(s: seq<byte>, hash128to64: (bv64, bv64) -> bv64) returns (r: bv64)
    requires |s| < SizeLimit
    ensures r == Hash64(s, hash128to64)
  {
    if |s| <= 32 {
      if |s| <= 16 {
        return HashLen0to16(s);
      } else {
        return HashLen17to32(s);
      }
    } else if |s| <= 64 {
      return HashLen33to64(s);
    }
    var st := LongChunks(s, LongInit(s, hash128to64), RoundOf(s));
    return LongFinish(st, hash128to64);
  }

  /**
   * The do/while loop of the path for inputs over 64 bytes, started from the
   * state `init` that hashing the end produced. `round` is the loop body;
   * `CityHash64` passes `RoundOf(s)`, so that the proof of the loop does not
   * unfold the arithmetic of a round.
   */
  method LongChunks(s: seq<byte>, init: LongState, round: (nat, LongState) -> LongState)
    returns (st: LongState)
    requires 64 < |s|
    ensures st == Rounds(round, 0, init, ChunkCount(|s|))
  {
    st := init;
    // Round the length down to a multiple of 64 (see `RoundDownMask`). It is
    // at least 64, so the source's do/while runs its body at least once, as
    // this while loop does.
    var len: nat := (|s| - 1) - (|s| - 1) % 64;
    ghost var chunks := ChunkCount(|s|);
    var off: nat := 0;
    ghost var n: nat := chunks;
    while len != 0
      invariant len == 64 * n && off + len == 64 * chunks
      invariant Rounds(round, off, st, n) == Rounds(round, 0, init, chunks)
      decreases len
    {
      st := round(off, st);
      off := off + 64;
      len := len - 64;
      n := n - 1;
    }
  }

  /** `(len - 1) & ~63` rounds `len - 1` down to a multiple of 64. */
  lemma RoundDownMask(len: bv64)
    requires len > 64
    ensures ((len - 1) & !63) & 63 == 0
    ensures (len - 1) & !63 <= len - 1
    ensures (len - 1) - ((len - 1) & !63) < 64
  {
  }

  /**
   * Every chunk the loop hashes lies inside the input: the one at `64 * i`
   * ends before the last byte, so `RoundOf` always takes its first branch.
   */
  lemma ChunksInBounds(n: nat, i: nat)
    requires n > 64 && i < ChunkCount(n)
    ensures 64 * i + 64 < n
  {
  }

  /** On every round `Hash64` takes, `RoundOf` is the round on an in-bounds chunk. */
  lemma RoundOfTakesChunk(s: seq<byte>, i: nat, st: LongState)
    requires 64 < |s| && i < ChunkCount(|s|)
    ensures 64 * i + 64 <= |s| && RoundOf(s)(64 * i, st) == LongRound(s, 64 * i, st)
  {
    ChunksInBounds(|s|, i);
  }

  /** The hash picks its algorithm by length class. */
  lemma Hash64Dispatch(s: seq<byte>, hash128to64: (bv64, bv64) -> bv64)
    requires |s| < SizeLimit
    ensures |s| <= 16 ==> Hash64(s, hash128to64) == HashLen0to16(s)
    ensures 16 < |s| <= 32 ==> Hash64(s, hash128to64) == HashLen17to32(s)
    ensures 32 < |s| <= 64 ==> Hash64(s, hash128to64) == HashLen33to64(s)
    ensures |s| == 0 ==> Hash64(s, hash128to64) == k2
  {
  }
}
