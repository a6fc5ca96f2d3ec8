/**
 * Machine integers of the C implementation, written out explicitly.
 *
 * `int` in the reader is a 32-bit two's complement integer, `size_t` and
 * `long` are 64 bits wide, and the file stores its 32-bit integers in the
 * host's byte order (taken to be little-endian here).
 */
module MachineInt {

  /** One byte of the file. */
  newtype byte = b: int | 0 <= b < 0x100

  const Two31: int := 0x8000_0000
  const Two32: int := 0x1_0000_0000
  const Two63: int := 0x8000_0000_0000_0000
  const Two64: int := 0x1_0000_0000_0000_0000

  predicate IsInt32(x: int) {
    -Two31 <= x < Two31
  }

  /** The value an `int` holds after a conversion or an arithmetic result that
      does not fit: reduction modulo 2^32 into [-2^31, 2^31). */
  function Wrap32(x: int): (r: int)
    ensures IsInt32(r)
    ensures (r - x) % Two32 == 0
  {
    var m := x % Two32;
    if m < Two31 then m else m - Two32
  }

  /** The value a `size_t` holds after a conversion or unsigned arithmetic:
      reduction modulo 2^64. */
  function SizeT(x: int): (r: nat)
    ensures r < Two64
    ensures (r - x) % Two64 == 0
  {
    x % Two64
  }

  lemma Wrap32Identity(x: int)
    requires IsInt32(x)
    ensures Wrap32(x) == x
  {
    if x < 0 {
      assert x % Two32 == x + Two32;
    } else {
      assert x % Two32 == x;
    }
  }

  lemma SizeTIdentity(x: int)
    requires 0 <= x < Two64
    ensures SizeT(x) == x
  {
  }

  /** A negative value converted to `size_t` lands at the top of the range. */
  lemma SizeTOfNegative(x: int)
    requires -Two64 <= x < 0
    ensures SizeT(x) == x + Two64
  {
  }

  /** Decodes four bytes, least significant first, as an unsigned value. */
  function Uint32Le(b0: byte, b1: byte, b2: byte, b3: byte): (u: nat)
    ensures u < Two32
  {
    b0 as int + 0x100 * (b1 as int + 0x100 * (b2 as int + 0x100 * (b3 as int)))
  }

  /** Decodes the 4-byte little-endian `int` stored at `off`. */
  function Int32At(s: seq<byte>, off: nat): (x: int)
    requires off + 4 <= |s|
    ensures IsInt32(x)
  {
    Wrap32(Uint32Le(s[off], s[off + 1], s[off + 2], s[off + 3]))
  }

  /** The four bytes, least significant first, that store `x` as an `int`. */
  function Int32Bytes(x: int): (b: seq<byte>)
    requires IsInt32(x)
    ensures |b| == 4
  {
    var u := x % Two32;
    var q1 := u / 0x100;
    var q2 := q1 / 0x100;
    var q3 := q2 / 0x100;
    [(u % 0x100) as byte, (q1 % 0x100) as byte, (q2 % 0x100) as byte, q3 as byte]
  }

  /** Decoding the stored bytes of an `int` gives the `int` back. */
  lemma Int32RoundTrip(x: int, s: seq<byte>, off: nat)
    requires IsInt32(x)
    requires off + 4 <= |s| && s[off..off + 4] == Int32Bytes(x)
    ensures Int32At(s, off) == x
  {
    var u := x % Two32;
    var b := Int32Bytes(x);
    assert s[off] == b[0] && s[off + 1] == b[1] && s[off + 2] == b[2] && s[off + 3] == b[3];
    var q1 := u / 0x100;
    var q2 := q1 / 0x100;
    var q3 := q2 / 0x100;
    assert q2 == q3 * 0x100 + q2 % 0x100;
    assert q1 == q2 * 0x100 + q1 % 0x100;
    assert u == q1 * 0x100 + u % 0x100;
    assert Uint32Le(s[off], s[off + 1], s[off + 2], s[off + 3]) == u;
    Wrap32Identity(x);
  }

  /** Euclidean division pinned down by the quotient it must have. */
  lemma DivModOf(x: int, d: int, q: int)
    requires d > 0 && q * d <= x < q * d + d
    ensures x / d == q && x % d == x - q * d
  {
    var e := x / d - q;
    assert e * d == x - x % d - q * d;
    MulZero(e, d);
  }

  /** The quotient's multiple does not exceed the dividend. */
  lemma QuotientBelow(x: int, d: int)
    requires d > 0
    ensures (x / d) * d <= x
  {
    assert x == (x / d) * d + x % d;
  }

  lemma MulZero(e: int, d: int)
    requires d > 0 && -d < e * d < d
    ensures e == 0
  {
    if e != 0 {
      var a := if e < 0 then -e else e;
      assert a * d == if e < 0 then -(e * d) else e * d;
      MulMonotone(1, a, d);
    }
  }

  lemma PositiveFactor(n: int, d: int)
    requires n >= 0 && n * d > 0
    ensures n >= 1
  {
  }

  lemma MulSucc(k: int, d: int)
    ensures k * d == (k - 1) * d + d
  {
  }

  lemma MulMonotone(a: int, b: int, d: int)
    requires a <= b && d >= 0
    ensures a * d <= b * d
  {
    assert b * d - a * d == (b - a) * d;
  }
}
