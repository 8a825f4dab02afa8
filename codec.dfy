/**
 * Byte-order helpers of the box engine.
 *
 * The box format stores every number big-endian. The engine keeps numbers in
 * host order and converts with `swap32`/`swap64` before writing them out with
 * a raw memory copy and after reading them in the same way. The model fixes
 * the host as little-endian (the only layout on which the union split in
 * `swap64` swaps a whole 64-bit value), so the bytes a host keeps for a 32-bit
 * value are its little-endian bytes.
 *
 * Unsigned integers are kept as bounded integers. The masks and shifts of the
 * source become `%`, `/` and multiplication by powers of two, and a bitwise or
 * of parts that share no bits becomes their sum.
 */
module Codec {

  /** One byte of the file. */
  type Byte = b: int | 0 <= b < 0x100

  /** A `uint32_t`. */
  type U32 = x: int | 0 <= x < 0x1_0000_0000

  /** A `uint64_t`. */
  type U64 = x: int | 0 <= x < 0x1_0000_0000_0000_0000

  /** The value whose little-endian bytes are `b0`, `b1`, `b2`, `b3`. */
  function Compose32(b0: Byte, b1: Byte, b2: Byte, b3: Byte): U32 {
    b0 + b1 * 0x100 + b2 * 0x1_0000 + b3 * 0x100_0000
  }

  /** Dividing `lo + hi * 256` by 256 leaves `lo` and gives `hi`. */
  lemma ByteStep(lo: Byte, hi: nat)
    ensures (lo + hi * 0x100) % 0x100 == lo && (lo + hi * 0x100) / 0x100 == hi
  {
  }

  /** Splitting a composed value gives its bytes back. */
  lemma ComposeSplits(b0: Byte, b1: Byte, b2: Byte, b3: Byte)
    ensures var x := Compose32(b0, b1, b2, b3);
      x % 0x100 == b0 && x / 0x100 % 0x100 == b1 && x / 0x1_0000 % 0x100 == b2 && x / 0x100_0000 == b3
  {
    var x := Compose32(b0, b1, b2, b3);
    var top := b2 + b3 * 0x100;
    var upper := b1 + top * 0x100;
    assert x == b0 + upper * 0x100;
    ByteStep(b0, upper);
    ByteStep(b1, top);
    ByteStep(b2, b3);
    assert x / 0x1_0000 == top by {
      assert x == (b0 + b1 * 0x100) + top * 0x1_0000;
    }
    assert x / 0x100_0000 == b3 by {
      assert x == (b0 + b1 * 0x100 + b2 * 0x1_0000) + b3 * 0x100_0000;
    }
  }

  /** Every 32-bit value is composed of its four bytes. */
  lemma SplitComposes(x: U32)
    ensures x == Compose32(x % 0x100, x / 0x100 % 0x100, x / 0x1_0000 % 0x100, x / 0x100_0000)
  {
    var q1 := x / 0x100;
    var q2 := q1 / 0x100;
    assert x == x % 0x100 + q1 * 0x100;
    assert q1 == q1 % 0x100 + q2 * 0x100;
    assert q2 == q2 % 0x100 + q2 / 0x100 * 0x100;
    assert q2 == x / 0x1_0000;
    assert q2 / 0x100 == x / 0x100_0000;
  }

  /** The four bytes a little-endian host keeps in memory for `x`, lowest address first. */
  function HostBytes32(x: U32): (r: seq<Byte>)
    ensures |r| == 4
  {
    [x % 0x100, x / 0x100 % 0x100, x / 0x1_0000 % 0x100, x / 0x100_0000]
  }

  /** The 32-bit value a little-endian host sees in the four bytes `b`. */
  function FromHostBytes32(b: seq<Byte>): (x: U32)
    requires |b| == 4
    ensures HostBytes32(x) == b
  {
    ComposeSplits(b[0], b[1], b[2], b[3]);
    Compose32(b[0], b[1], b[2], b[3])
  }

  /** The eight bytes a little-endian host keeps in memory for `x`, lowest address first. */
  function HostBytes64(x: U64): (r: seq<Byte>)
    ensures |r| == 8
  {
    HostBytes32(x % 0x1_0000_0000) + HostBytes32(x / 0x1_0000_0000)
  }

  /** Big-endian (network order) bytes of `x`, most significant first. */
  function BigEndian32(x: U32): (r: seq<Byte>)
    ensures |r| == 4
  {
    [x / 0x100_0000, x / 0x1_0000 % 0x100, x / 0x100 % 0x100, x % 0x100]
  }

  /** `swap32`: each byte of the value, taken with a mask, shifted to the mirrored position. */
  function Swap32(x: U32): U32 {
    Compose32(x / 0x100_0000, x / 0x1_0000 % 0x100, x / 0x100 % 0x100, x % 0x100)
  }

  /** `swap32` reverses the four bytes of its argument. */
  lemma Swap32Reverses(x: U32)
    ensures HostBytes32(Swap32(x)) == [HostBytes32(x)[3], HostBytes32(x)[2], HostBytes32(x)[1], HostBytes32(x)[0]]
  {
    ComposeSplits(x / 0x100_0000, x / 0x1_0000 % 0x100, x / 0x100 % 0x100, x % 0x100);
  }

  /**
   * `swap64`: the source splits the value through a union into the two 32-bit
   * words at the lower and the higher address; on a little-endian host these
   * are the low and the high half. Each is swapped and the two change places.
   */
  function Swap64(x: U64): U64 {
    var lowWord := x % 0x1_0000_0000;
    var highWord := x / 0x1_0000_0000;
    Swap32(lowWord) * 0x1_0000_0000 + Swap32(highWord)
  }

  /** The two halves of `swap64(x)`: the swapped high word below, the swapped low word above. */
  lemma Swap64Halves(x: U64)
    ensures Swap64(x) % 0x1_0000_0000 == Swap32(x / 0x1_0000_0000)
    ensures Swap64(x) / 0x1_0000_0000 == Swap32(x % 0x1_0000_0000)
  {
  }

  /** `swap64` reverses the eight bytes of its argument. */
  lemma Swap64Reverses(x: U64)
    ensures forall i :: 0 <= i < 8 ==> HostBytes64(Swap64(x))[i] == HostBytes64(x)[7 - i]
  {
    var lowWord := x % 0x1_0000_0000;
    var highWord := x / 0x1_0000_0000;
    Swap64Halves(x);
    Swap32Reverses(lowWord);
    Swap32Reverses(highWord);
    var swappedHigh := HostBytes32(Swap32(highWord));
    var swappedLow := HostBytes32(Swap32(lowWord));
    var r := HostBytes64(Swap64(x));
    assert r == swappedHigh + swappedLow;
    assert HostBytes64(x) == HostBytes32(lowWord) + HostBytes32(highWord);
    forall i | 0 <= i < 8
      ensures r[i] == HostBytes64(x)[7 - i]
    {
      if i < 4 {
        assert r[i] == swappedHigh[i];
      } else {
        assert r[i] == swappedLow[i - 4];
      }
    }
  }

  /** Swapping twice gives the value back. */
  lemma Swap32Involution(x: U32)
    ensures Swap32(Swap32(x)) == x
  {
    ComposeSplits(x / 0x100_0000, x / 0x1_0000 % 0x100, x / 0x100 % 0x100, x % 0x100);
    SplitComposes(x);
  }

  /** Swapping twice gives the value back. */
  lemma Swap64Involution(x: U64)
    ensures Swap64(Swap64(x)) == x
  {
    Swap64Halves(x);
    Swap32Involution(x % 0x1_0000_0000);
    Swap32Involution(x / 0x1_0000_0000);
  }

  /**
   * What the engine hands to a raw write after `swap32` is the big-endian
   * form of the value: this is how sizes and type codes reach the file.
   */
  lemma SwappedIsBigEndian(x: U32)
    ensures HostBytes32(Swap32(x)) == BigEndian32(x)
  {
    Swap32Reverses(x);
  }

  /** Swapping what a raw read gives back from swapped bytes yields the original value. */
  lemma SwappedRoundTrip(x: U32, b: seq<Byte>)
    requires b == HostBytes32(Swap32(x))
    ensures Swap32(FromHostBytes32(b)) == x
  {
    HostBytes32RoundTrip(Swap32(x));
    Swap32Involution(x);
  }

  /** Reading back host bytes that were written from a value gives the value. */
  lemma HostBytes32RoundTrip(x: U32)
    ensures FromHostBytes32(HostBytes32(x)) == x
  {
    SplitComposes(x);
  }
  /** `256` to the power `n`. */
  function Pow256(n: nat): (p: nat)
    ensures p > 0
  {
    if n == 0 then 1 else 0x100 * Pow256(n - 1)
  }

  /** The low `n` bytes of `x`, most significant first: network byte order. */
  function BigEndian(x: nat, n: nat): (r: seq<Byte>)
    ensures |r| == n
    decreases n
  {
    if n == 0 then [] else BigEndian(x / 0x100, n - 1) + [x % 0x100]
  }

  /** The number the bytes `b` spell in network byte order. */
  function FromBigEndian(b: seq<Byte>): (x: nat)
    ensures x < Pow256(|b|)
    decreases |b|
  {
    if b == [] then 0 else FromBigEndian(b[..|b| - 1]) * 0x100 + b[|b| - 1]
  }

  /** Spelling a number in network byte order and reading it back gives the number, when it fits. */
  lemma {:induction false} BigEndianRoundTrip(x: nat, n: nat)
    requires x < Pow256(n)
    ensures FromBigEndian(BigEndian(x, n)) == x
    decreases n
  {
    if n > 0 {
      var b := BigEndian(x, n);
      assert b[..n - 1] == BigEndian(x / 0x100, n - 1);
      BigEndianRoundTrip(x / 0x100, n - 1);
    }
  }

  /** Reading bytes in network byte order and spelling the number again gives the bytes. */
  lemma {:induction false} FromBigEndianRoundTrip(b: seq<Byte>)
    ensures BigEndian(FromBigEndian(b), |b|) == b
    decreases |b|
  {
    if b != [] {
      var n := |b|;
      ByteStep(b[n - 1], FromBigEndian(b[..n - 1]));
      FromBigEndianRoundTrip(b[..n - 1]);
      assert b == b[..n - 1] + [b[n - 1]];
    }
  }

  /** Four bytes in network byte order are what `swap32` leaves in host memory. */
  lemma BigEndianIsSwapped(x: U32)
    ensures BigEndian(x, 4) == HostBytes32(Swap32(x))
  {
    SwappedIsBigEndian(x);
    var q1 := x / 0x100;
    var q2 := q1 / 0x100;
    assert q2 == x / 0x1_0000;
    assert q2 / 0x100 == x / 0x100_0000;
    assert (q2 / 0x100) / 0x100 == 0;
  }

  /** Reading four bytes in network byte order is what `swap32` makes of the host word they hold. */
  lemma FromBigEndianIsSwapped(b: seq<Byte>)
    requires |b| == 4
    ensures FromBigEndian(b) == Swap32(FromHostBytes32(b))
  {
    var x := FromBigEndian(b);
    FromBigEndianRoundTrip(b);
    BigEndianIsSwapped(x);
    HostBytes32RoundTrip(Swap32(x));
    Swap32Involution(x);
  }
}
