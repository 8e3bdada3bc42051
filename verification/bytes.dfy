/** Machine integers used by the codec: unsigned bytes, the few bit
    operations the codec applies to them, and two's-complement 32-bit
    displacements with Rust's `i32::to_le_bytes` and `i32::from_le_bytes`
    written out. Bytes are numbers 0..255 and each bit operation is stated
    arithmetically for the operands it is applied to. */
module Bytes {

  /** A Rust `u8`. */
  type byte = x: int | 0 <= x < 0x100

  /** A Rust `i32`. */
  type i32 = x: int | -0x8000_0000 <= x < 0x8000_0000

  const TwoTo32: int := 0x1_0000_0000

  /** `b & 0b0111`: the low three bits. */
  function Low3(b: byte): (r: byte)
    ensures r < 8
  {
    b % 8
  }

  /** `b & 0b1000 != 0`: bit 3 is set. */
  predicate Bit3(b: byte) {
    b / 8 % 2 == 1
  }

  /** `b & 0x0F`: the low four bits. */
  function LowNibble(b: byte): (r: byte)
    ensures r < 16
  {
    b % 16
  }

  /** `b & !0b1000`: bit 3 cleared, every other bit kept. */
  function ClearBit3(b: byte): (r: byte)
    ensures !Bit3(r)
    ensures Low3(r) == Low3(b) && r / 16 == b / 16
  {
    if Bit3(b) then b - 8 else b
  }

  /** The low four bits hold the low three bits and bit 3. */
  lemma {:induction false} LowNibbleBits(b: byte)
    ensures Low3(LowNibble(b)) == Low3(b)
    ensures Bit3(LowNibble(b)) == Bit3(b)
  {
    var q, n := b / 16, b % 16;
    assert b == 8 * (2 * q) + n;
    assert b % 8 == n % 8;
    assert b / 8 == 2 * q + n / 8;
  }

  /** `hi | lo` for a `hi` whose low three bits are clear and a `lo` below 8:
      the bits do not overlap, so the OR is a sum. */
  function OrLow3(hi: byte, lo: byte): (r: byte)
    requires hi % 8 == 0 && lo < 8
    ensures Low3(r) == lo && r - Low3(r) == hi
  {
    hi + lo
  }

  /** `lo | 0b1000` for a `lo` below 8. */
  function SetBit3(lo: byte): (r: byte)
    requires lo < 8
    ensures Bit3(r) && Low3(r) == lo && r < 16
  {
    lo + 8
  }

  /** The unsigned 32-bit pattern that stores `v` in two's complement. */
  function Unsigned(v: i32): (u: nat)
    ensures u < TwoTo32
    ensures (u - v) % TwoTo32 == 0
  {
    if v < 0 then v + TwoTo32 else v
  }

  /** The four base-256 digits of `u`, least significant first. */
  function LeDigits(u: nat): (r: seq<byte>)
    requires u < TwoTo32
    ensures |r| == 4
  {
    var u1 := u / 0x100;
    var u2 := u1 / 0x100;
    var u3 := u2 / 0x100;
    [u % 0x100, u1 % 0x100, u2 % 0x100, u3 % 0x100]
  }

  /** `v.to_le_bytes()`: the four bytes of `v`, least significant first. */
  function ToLeBytes(v: i32): (r: seq<byte>)
    ensures |r| == 4
    ensures v < 0 <==> r[3] >= 0x80
  {
    LeDigits(Unsigned(v))
  }

  /** The unsigned number whose little-endian bytes are `a b c d`. */
  function LeValue(a: byte, b: byte, c: byte, d: byte): int
  {
    a + 0x100 * (b + 0x100 * (c + 0x100 * d))
  }

  /** `i32::from_le_bytes([a, b, c, d])`: bit 7 of `d` is the sign. */
  function FromLeBytes(a: byte, b: byte, c: byte, d: byte): (v: i32)
    ensures v < 0 <==> d >= 0x80
  {
    var u := LeValue(a, b, c, d);
    if u < 0x8000_0000 then u else u - TwoTo32
  }

  /** The little-endian `i32` stored at `bytes[k..k + 4]`. */
  function Disp(bytes: seq<byte>, k: nat): i32
    requires k + 4 <= |bytes|
  {
    FromLeBytes(bytes[k], bytes[k + 1], bytes[k + 2], bytes[k + 3])
  }

  /** One step of base-256 positional notation. */
  lemma SplitByte(n: nat)
    ensures n == n % 0x100 + 0x100 * (n / 0x100)
  {
  }

  /** A base-256 digit and the rest are recovered from their combination. */
  lemma JoinByte(lo: byte, hi: nat)
    ensures (lo + 0x100 * hi) % 0x100 == lo
    ensures (lo + 0x100 * hi) / 0x100 == hi
  {
  }

  /** The digits of `u` spell `u` again. */
  lemma {:induction false} LeValueOfDigits(u: nat)
    requires u < TwoTo32
    ensures var s := LeDigits(u); LeValue(s[0], s[1], s[2], s[3]) == u
  {
    var u1 := u / 0x100;
    var u2 := u1 / 0x100;
    SplitByte(u);
    SplitByte(u1);
    SplitByte(u2);
    assert u2 / 0x100 < 0x100;
  }

  /** The digits of the number spelled by four bytes are those bytes. */
  lemma {:induction false} DigitsOfLeValue(a: byte, b: byte, c: byte, d: byte)
    ensures 0 <= LeValue(a, b, c, d) < TwoTo32
    ensures LeDigits(LeValue(a, b, c, d)) == [a, b, c, d]
  {
    var u2 := c + 0x100 * d;
    var u1 := b + 0x100 * u2;
    JoinByte(a, u1);
    JoinByte(b, u2);
    JoinByte(c, d);
  }

  /** Decoding the encoding of `v` gives `v` back. */
  lemma {:induction false} FromToLeBytes(v: i32)
    ensures var s := ToLeBytes(v); FromLeBytes(s[0], s[1], s[2], s[3]) == v
  {
    LeValueOfDigits(Unsigned(v));
  }

  /** Encoding the value decoded from four bytes gives those bytes back. */
  lemma {:induction false} ToFromLeBytes(a: byte, b: byte, c: byte, d: byte)
    ensures ToLeBytes(FromLeBytes(a, b, c, d)) == [a, b, c, d]
  {
    DigitsOfLeValue(a, b, c, d);
    assert Unsigned(FromLeBytes(a, b, c, d)) == LeValue(a, b, c, d);
  }

  /** Opcode bytes followed by the displacement read right after them are a
      prefix of the buffer. */
  lemma {:induction false} OpcodeDispPrefix(b: seq<byte>, op: seq<byte>)
    requires |op| + 4 <= |b| && b[..|op|] == op
    ensures op + ToLeBytes(Disp(b, |op|)) <= b
  {
    var k := |op|;
    ToFromLeBytes(b[k], b[k + 1], b[k + 2], b[k + 3]);
    assert ToLeBytes(Disp(b, k)) == b[k..k + 4];
    assert b[..k] + b[k..k + 4] == b[..k + 4];
    assert b[..k + 4] <= b;
  }

  /** The bytes `op + to_le_bytes(rel)` hold `op` at the front and `rel`
      right after it. */
  lemma {:induction false} DispAfterOpcode(op: seq<byte>, rel: i32)
    ensures var b := op + ToLeBytes(rel);
            |b| == |op| + 4 && b[..|op|] == op && Disp(b, |op|) == rel
  {
    FromToLeBytes(rel);
    var b := op + ToLeBytes(rel);
    var k := |op|;
    assert b[k..k + 4] == ToLeBytes(rel);
  }
}
