/** Java's primitive byte and int operations that the rosserial wire code relies on.
    Java bytes are signed, widen to int by sign extension, `%` truncates toward zero,
    and a `(byte)` cast keeps the low 8 bits; Dafny's integers are unbounded and its
    `%` is Euclidean, so each operation is written out here. */
module JavaInt {

  /** A Java `byte`: a signed 8-bit value. */
  newtype int8 = x: int | -128 <= x < 128

  /** `(byte) 0xff` and `(byte) 0xfd`, the two sync flags of a rosserial packet. */
  const FLAG_A: int8 := -1
  const FLAG_B: int8 := -3

  /** `0xff & b`: the byte read as an unsigned value. */
  function Unsigned(b: int8): (u: int)
    ensures 0 <= u < 256
    ensures u % 256 == b as int % 256
    ensures b >= 0 ==> u == b as int
  {
    if b < 0 then b as int + 256 else b as int
  }

  /** `(byte) x`: the narrowing conversion, which keeps the low 8 bits of `x`. */
  function ToByte(x: int): (b: int8)
    ensures Unsigned(b) == x % 256
    ensures -128 <= x < 128 ==> b as int == x
  {
    var low := x % 256;
    if low < 128 then low as int8 else (low - 256) as int8
  }

  /** Java's `x % 256`: the remainder takes the sign of `x`. */
  function JavaRem256(x: int): (r: int)
    ensures r % 256 == x % 256
    ensures x >= 0 ==> 0 <= r < 256
    ensures x < 0 ==> -256 < r <= 0
  {
    if x >= 0 then x % 256 else -((-x) % 256)
  }

  /** The running total `chk += 0xff & b` over a byte sequence, as both checksums
      accumulate it. */
  function SumUnsigned(s: seq<int8>): (r: int)
    ensures 0 <= r <= 255 * |s|
  {
    if s == [] then 0 else SumUnsigned(s[..|s| - 1]) + Unsigned(s[|s| - 1])
  }

  /** `(hi << 8) | lo` in Java, where both bytes are first sign-extended to int.
      When `lo` is non-negative its sign extension has zeros above bit 7, so the
      OR fills the (zero) low byte of `hi << 8` and the value is `hi * 256 + lo`.
      When `lo` is negative its sign extension has ones in every bit above bit 7,
      so those bits of the result are all ones and the value is `lo` itself. */
  function ShlOr(hi: int8, lo: int8): (r: int)
    ensures -0x8000 <= r < 0x8000
    ensures r < 0 <==> hi < 0 || lo < 0
  {
    if lo >= 0 then hi as int * 256 + lo as int else lo as int
  }

  /** `(x & 0xFF00) >> 8`, computed as `x % 0x1_0000 / 0x100`, is the second-lowest
      byte of `x`. */
  lemma SecondByte(x: int)
    ensures x % 0x1_0000 / 0x100 == x / 0x100 % 0x100
    ensures 0 <= x % 0x1_0000 / 0x100 < 0x100
  {
    var q := x / 0x1_0000;
    var r := x % 0x1_0000;
    var a := r / 0x100;
    var b := r % 0x100;
    assert x == 0x1_0000 * q + 0x100 * a + b;
    assert x / 0x100 == 0x100 * q + a;
  }

  /** The `(byte)` casts of `x & 0xFF` and `(x & 0xFF00) >> 8` read back, unsigned,
      as the lowest and the second-lowest byte of `x`. */
  lemma LowBytes(x: int)
    ensures Unsigned(ToByte(x % 0x100)) == x % 0x100
    ensures Unsigned(ToByte(x % 0x1_0000 / 0x100)) == x / 0x100 % 0x100
  {
    SecondByte(x);
  }

  /** Adding two bytes as signed values or as unsigned values gives totals that
      agree modulo 256. */
  lemma SignedUnsignedSum(a: int8, b: int8, rest: int)
    ensures (a as int + b as int + rest) % 256 == (Unsigned(a) + Unsigned(b) + rest) % 256
  {
    var d := (Unsigned(a) - a as int) + (Unsigned(b) - b as int);
    assert d in {0, 256, 512};
    assert Unsigned(a) + Unsigned(b) + rest == (a as int + b as int + rest) + d;
  }

  /** `(byte) (255 - x % 256)` read unsigned is `255 - x mod 256`, whatever the sign of `x`. */
  lemma NegatedChecksum(x: int)
    ensures Unsigned(ToByte(255 - JavaRem256(x))) == 255 - x % 256
  {
    var r := JavaRem256(x);
    assert r % 256 == x % 256;
    assert (255 - r) % 256 == 255 - x % 256;
  }

  /** Two `(byte)` casts agree exactly when their arguments agree modulo 256. */
  lemma ToByteEq(x: int, y: int)
    ensures ToByte(x) == ToByte(y) <==> x % 256 == y % 256
  {
    if ToByte(x) == ToByte(y) {
      assert Unsigned(ToByte(x)) == Unsigned(ToByte(y));
    }
  }

  /** A byte equals `(byte) x` exactly when its unsigned value is `x` modulo 256. */
  lemma ToByteMatches(x: int, b: int8)
    ensures ToByte(x) == b <==> Unsigned(b) == x % 256
  {
    ToByteEq(x, Unsigned(b));
    assert ToByte(Unsigned(b)) == b;
  }

  /** The result of `ShlOr` always has the low byte's unsigned value modulo 256:
      the OR never disturbs bits 0..7. */
  lemma ShlOrLowByte(hi: int8, lo: int8)
    ensures ShlOr(hi, lo) % 256 == Unsigned(lo)
  {
  }

  /** Splitting a 16-bit value into a low and a high `(byte)` and recombining them
      with `ShlOr` gives the value back only when neither byte has its top bit set;
      otherwise the result is negative. */
  lemma ShlOrOfSplit(v: int)
    requires 0 <= v < 0x1_0000
    ensures var r := ShlOr(ToByte(v / 256), ToByte(v % 256));
      if v % 256 >= 128 then r == v % 256 - 256
      else if v >= 0x8000 then r == v - 0x1_0000
      else r == v
  {
  }
}
