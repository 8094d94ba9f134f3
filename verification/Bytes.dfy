/** Machine integers, and the little-endian ones of the file-system image. */
module Bytes {
  type byte = x: int | 0 <= x < 256

  predicate InI16(x: int) {
    -0x8000 <= x < 0x8000
  }

  predicate InI32(x: int) {
    -0x8000_0000 <= x < 0x8000_0000
  }

  type i16 = x: int | InI16(x)

  type i32 = x: int | InI32(x)

  /** `u16::to_le_bytes`. */
  function Le16(n: nat): (r: seq<byte>)
    requires n < 0x1_0000
    ensures |r| == 2
  {
    [n % 256, n / 256]
  }

  /** `u16::from_le_bytes`. */
  function FromLe16(b0: byte, b1: byte): (n: nat)
    ensures n < 0x1_0000
  {
    b0 + 256 * b1
  }

  /** `u32::to_le_bytes`. */
  function Le32(n: nat): (r: seq<byte>)
    requires n < 0x1_0000_0000
    ensures |r| == 4
  {
    Le16(n % 0x1_0000) + Le16(n / 0x1_0000)
  }

  /** `u32::from_le_bytes`. */
  function FromLe32(b0: byte, b1: byte, b2: byte, b3: byte): (n: nat)
    ensures n < 0x1_0000_0000
  {
    FromLe16(b0, b1) + 0x1_0000 * FromLe16(b2, b3)
  }

  lemma Le16RoundTrip(n: nat)
    requires n < 0x1_0000
    ensures FromLe16(Le16(n)[0], Le16(n)[1]) == n
  {
  }

  lemma Le32RoundTrip(n: nat)
    requires n < 0x1_0000_0000
    ensures FromLe32(Le32(n)[0], Le32(n)[1], Le32(n)[2], Le32(n)[3]) == n
  {
    var r := Le32(n);
    assert r[0] == Le16(n % 0x1_0000)[0] && r[1] == Le16(n % 0x1_0000)[1];
    assert r[2] == Le16(n / 0x1_0000)[0] && r[3] == Le16(n / 0x1_0000)[1];
  }

  /** The low byte comes first. */
  lemma LittleEndian(n: nat)
    requires n < 0x1_0000_0000
    ensures var r := Le32(n); n == r[0] as int + 0x100 * r[1] as int + 0x1_0000 * r[2] as int + 0x100_0000 * r[3] as int
    ensures n < 0x1_0000 ==> Le16(n)[0] as int + 0x100 * Le16(n)[1] as int == n
  {
    Le32RoundTrip(n);
  }

  lemma ReadsLittleEndian(b0: byte, b1: byte, b2: byte, b3: byte)
    ensures FromLe16(b0, b1) == b0 as int + 0x100 * b1 as int
    ensures FromLe32(b0, b1, b2, b3) == b0 as int + 0x100 * b1 as int + 0x1_0000 * b2 as int + 0x100_0000 * b3 as int
  {
  }
}
