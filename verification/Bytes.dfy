/** Bytes and little-endian integers. */
module Bytes {
  type byte = b: int | 0 <= b < 256

  const TWO31: int := 0x8000_0000
  const TWO32: int := 0x1_0000_0000

  /** The four bytes of a 32-bit two's-complement integer, lowest first. */
  function Le32(n: int): (b: seq<byte>)
    requires -TWO31 <= n < TWO31
    ensures |b| == 4
  {
    var u := if n < 0 then n + TWO32 else n;
    [u % 256, u / 256 % 256, u / 65536 % 256, u / 16777216]
  }

  /** `int32(binary.LittleEndian.Uint32(b))`. */
  function FromLe32(b: seq<byte>): (n: int)
    requires |b| == 4
    ensures -TWO31 <= n < TWO31
  {
    var u := b[0] as int + 256 * b[1] as int + 65536 * b[2] as int + 16777216 * b[3] as int;
    if u >= TWO31 then u - TWO32 else u
  }

  lemma FromLe32OfLe32(n: int)
    requires -TWO31 <= n < TWO31
    ensures FromLe32(Le32(n)) == n
  {
    var u := if n < 0 then n + TWO32 else n;
    assert u == u % 256 + 256 * (u / 256);
    assert u / 256 == u / 256 % 256 + 256 * (u / 65536);
    assert u / 65536 == u / 65536 % 256 + 256 * (u / 16777216);
  }

  lemma Le32OfFromLe32(b: seq<byte>)
    requires |b| == 4
    ensures Le32(FromLe32(b)) == b
  {
    var u := b[0] as int + 256 * b[1] as int + 65536 * b[2] as int + 16777216 * b[3] as int;
    assert u / 256 == b[1] as int + 256 * b[2] as int + 65536 * b[3] as int;
    assert u / 65536 == b[2] as int + 256 * b[3] as int;
    assert u / 16777216 == b[3] as int;
  }

  /** The lowest byte comes first, and the number is negative exactly when the highest bit is set. */
  lemma LowestByteFirst(b: seq<byte>)
    requires |b| == 4
    ensures var n := FromLe32(b);
            && (n < 0 <==> b[3] >= 0x80)
            && b[0] as int + 0x100 * b[1] as int + 0x1_0000 * b[2] as int + 0x100_0000 * b[3] as int
               == if b[3] >= 0x80 then n + 0x1_0000_0000 else n
  {
  }

  const TWO63: int := 0x8000_0000_0000_0000
  const TWO64: int := 0x1_0000_0000_0000_0000

  /** The program's `int`: 64 bits, two's complement. */
  type int64 = n: int | -TWO63 <= n < TWO63 witness 0

  /** The 64-bit integer congruent to `n`: what a conversion or an addition leaves of it. */
  function Wrap64(n: int): (w: int64)
    ensures 0 <= n < TWO63 ==> w == n
    ensures TWO63 <= n < TWO64 + TWO63 ==> w == n - TWO64
  {
    if n % TWO64 >= TWO63 then n % TWO64 - TWO64 else n % TWO64
  }

  /** What is lost is a multiple of 2 to the 64th. */
  lemma WrapMeaning(n: int)
    ensures (n - Wrap64(n)) % 0x1_0000_0000_0000_0000 == 0
  {
    assert n == n / TWO64 * TWO64 + n % TWO64;
  }

  /** Wrapping a sum may be done in parts. */
  lemma WrapSum(a: int, b: int)
    ensures Wrap64(Wrap64(a) + b) == Wrap64(a + b)
  {
    assert Wrap64(a) == a - TWO64 * (a / TWO64) || Wrap64(a) == a - TWO64 * (a / TWO64 + 1);
    if Wrap64(a) == a - TWO64 * (a / TWO64) {
      WrapPeriod(a + b, a / TWO64);
    } else {
      WrapPeriod(a + b, a / TWO64 + 1);
    }
  }

  lemma WrapPeriod(n: int, k: int)
    ensures Wrap64(n - TWO64 * k) == Wrap64(n)
  {
    var q, r := n / TWO64, n % TWO64;
    assert n - TWO64 * k == TWO64 * (q - k) + r;
    assert (n - TWO64 * k) % TWO64 == r;
  }
}
