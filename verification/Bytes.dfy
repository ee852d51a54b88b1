/** Little-endian integers over byte sequences (`bytes.rs`), with machine widths as subset types. */
module Bytes {

  type byte = b: int | 0 <= b < 256
  type u16 = x: int | 0 <= x < 0x1_0000
  type u32 = x: int | 0 <= x < 0x1_0000_0000
  type u64 = x: int | 0 <= x < 0x1_0000_0000_0000_0000
  type Buf = seq<byte>

  function U16At(s: Buf, off: nat): u16
    requires off + 2 <= |s|
  {
    s[off] as int + 256 * s[off + 1] as int
  }

  function U32At(s: Buf, off: nat): u32
    requires off + 4 <= |s|
  {
    var b0: int, b1: int, b2: int, b3: int := s[off], s[off + 1], s[off + 2], s[off + 3];
    b0 + 0x100 * b1 + 0x1_0000 * b2 + 0x100_0000 * b3
  }

  function U64At(s: Buf, off: nat): u64
    requires off + 8 <= |s|
  {
    U32At(s, off) + 0x1_0000_0000 * U32At(s, off + 4)
  }

  /** The source's bounds-checked reader: zero when any byte is out of range. */
  function LeU32(s: Buf, off: nat): u32 {
    if off + 4 <= |s| then U32At(s, off) else 0
  }

  /** Least significant byte first: each byte is a digit, base 256, of what is read. */
  lemma LittleEndian16(s: Buf, off: nat)
    requires off + 2 <= |s|
    ensures U16At(s, off) as int % 256 == s[off] as int && U16At(s, off) as int / 256 == s[off + 1] as int
  {
  }

  lemma LittleEndian32(s: Buf, off: nat)
    requires off + 4 <= |s|
    ensures U32At(s, off) as int == U16At(s, off) as int + 0x1_0000 * U16At(s, off + 2) as int
  {
  }

  lemma LittleEndian64(s: Buf, off: nat)
    requires off + 8 <= |s|
    ensures U64At(s, off) as int == U32At(s, off) as int + 0x1_0000_0000 * U32At(s, off + 4) as int
  {
  }

  function U16Bytes(x: u16): (s: Buf)
    ensures |s| == 2 && U16At(s, 0) == x
  {
    [x % 256, x / 256]
  }

  function U32Bytes(x: u32): (s: Buf)
    ensures |s| == 4 && U32At(s, 0) == x
  {
    var q1 := x as int / 256;
    var q2 := q1 / 256;
    var q3 := q2 / 256;
    assert x as int == x as int % 256 + 256 * q1 && q1 == q1 % 256 + 256 * q2 && q2 == q2 % 256 + 256 * q3;
    [x % 256, q1 % 256, q2 % 256, q3]
  }

  function U64Bytes(x: u64): (s: Buf)
    ensures |s| == 8 && U64At(s, 0) == x
  {
    U32Bytes(x % 0x1_0000_0000) + U32Bytes(x / 0x1_0000_0000)
  }

  /** Rust's `as u32` and `as u16` on a `usize`. */
  function AsU32(x: nat): u32 { x % 0x1_0000_0000 }

  function AsU16(x: nat): u16 { x % 0x1_0000 }

  /** Reads inside a slice are reads of the whole. */
  lemma U32AtSlice(s: Buf, lo: nat, hi: nat, off: nat)
    requires lo + off + 4 <= hi <= |s|
    ensures U32At(s[lo..hi], off) == U32At(s, lo + off)
  {
  }

  lemma LowDigit(a: byte, b: byte, x: int, y: int)
    requires a as int + 256 * x == b as int + 256 * y
    ensures a == b && x == y
  {
  }

  /** The four bytes of a `u32` are determined by its value. */
  lemma U32Injective(a: Buf, b: Buf)
    requires |a| == 4 && |b| == 4 && U32At(a, 0) == U32At(b, 0)
    ensures a == b
  {
    LowDigit(a[0], b[0], a[1] as int + 0x100 * a[2] as int + 0x1_0000 * a[3] as int,
             b[1] as int + 0x100 * b[2] as int + 0x1_0000 * b[3] as int);
    LowDigit(a[1], b[1], a[2] as int + 0x100 * a[3] as int, b[2] as int + 0x100 * b[3] as int);
    LowDigit(a[2], b[2], a[3] as int, b[3] as int);
  }

  function Align8(n: nat): (r: nat)
    ensures n <= r < n + 8 && r % 8 == 0
  {
    (n + 7) / 8 * 8
  }

  function Align4096(n: nat): (r: nat)
    ensures n <= r < n + 4096 && r % 4096 == 0
  {
    (n + 4095) / 4096 * 4096
  }

  lemma {:induction false} WrapMultiple(x: nat, q: nat)
    ensures (x + 0x1_0000_0000 * q) % 0x1_0000_0000 == x % 0x1_0000_0000
  {
    if q > 0 {
      WrapMultiple(x, q - 1);
    }
  }
}
