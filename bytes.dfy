/** Byte-level vocabulary shared by the whole loader: bytes, the unsigned
    integer widths the original works with, and the fixed-width field readers
    it uses on slices of a byte buffer (`u16::from_le_bytes`,
    `u32::from_le_bytes`, `u32::from_be_bytes`). */
module Bytes {

  type byte = b: int | 0 <= b < 0x100
  type u16 = x: int | 0 <= x < 0x1_0000
  type u32 = x: int | 0 <= x < 0x1_0000_0000

  /** 2 to the power n. */
  function Pow2(n: nat): (r: nat)
    ensures r >= 1
  {
    if n == 0 then 1 else 2 * Pow2(n - 1)
  }

  /** The little-endian u16 held in s[at..at+2]: the first byte is the least
      significant one. */
  function Le16(s: seq<byte>, at: nat): (r: u16)
    requires at + 2 <= |s|
    ensures r % 0x100 == s[at] && r / 0x100 == s[at + 1]
  {
    var b0, b1 := s[at] as int, s[at + 1] as int;
    b0 + 0x100 * b1
  }

  /** The little-endian u32 held in s[at..at+4]. */
  function Le32(s: seq<byte>, at: nat): (r: u32)
    requires at + 4 <= |s|
    ensures r % 0x100 == s[at] && r / 0x100_0000 == s[at + 3]
  {
    var b0, b1, b2, b3 := s[at] as int, s[at + 1] as int, s[at + 2] as int, s[at + 3] as int;
    b0 + 0x100 * b1 + 0x1_0000 * b2 + 0x100_0000 * b3
  }

  /** The big-endian u32 held in s[at..at+4]: the first byte is the most
      significant one. */
  function Be32(s: seq<byte>, at: nat): (r: u32)
    requires at + 4 <= |s|
    ensures r / 0x100_0000 == s[at] && r % 0x100 == s[at + 3]
  {
    var b0, b1, b2, b3 := s[at] as int, s[at + 1] as int, s[at + 2] as int, s[at + 3] as int;
    0x100_0000 * b0 + 0x1_0000 * b1 + 0x100 * b2 + b3
  }

  /** Shifting a big-endian u32 right by eight bits keeps exactly its first
      three bytes, read big-endian: the low byte is dropped. */
  lemma Be32High24(s: seq<byte>, at: nat)
    requires at + 4 <= |s|
    ensures Be32(s, at) / 0x100 == 0x1_0000 * (s[at] as int) + 0x100 * (s[at + 1] as int) + s[at + 2] as int
    ensures Be32(s, at) / 0x100 < 0x100_0000
  {
    var hi := 0x1_0000 * (s[at] as int) + 0x100 * (s[at + 1] as int) + s[at + 2] as int;
    assert Be32(s, at) == 0x100 * hi + s[at + 3] as int;
  }
}

/** The outcome of an operation that the original aborts with a panic on some
    inputs: either its value or the reason it stopped. */
module Results {

  datatype Result<+T, +E> = Ok(value: T) | Err(error: E)

  datatype Option<+T> = None | Some(value: T)
}
