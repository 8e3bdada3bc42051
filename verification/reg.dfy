/** The sixteen general-purpose registers and their machine numbers.

    A register number has four bits: three base bits, which travel in the
    opcode byte, and an extension bit, which travels in the 0x41 prefix.
    Rax..Rdi are the "lo" registers (extension bit clear) and R8..R15 the
    "hi" ones; a lo register and its hi sibling share their base bits. */
module Registers {

  import opened Options
  import opened Bytes

  const RegMask: byte := 0x07
  const HiBit: byte := 0x08

  datatype Reg =
    | Rax | Rcx | Rdx | Rbx | Rsp | Rbp | Rsi | Rdi
    | R8 | R9 | R10 | R11 | R12 | R13 | R14 | R15

  /** The registers whose number has the extension bit set. */
  predicate IsHi(r: Reg) {
    match r
    case R8 | R9 | R10 | R11 | R12 | R13 | R14 | R15 => true
    case _ => false
  }

  /** The complement of the hi registers: Rax..Rdi. */
  predicate IsLo(r: Reg): (lo: bool)
    ensures lo <==> r in {Rax, Rcx, Rdx, Rbx, Rsp, Rbp, Rsi, Rdi}
  {
    !IsHi(r)
  }

  /** Looks up a base-bit pattern among the lo registers. */
  function FromLo(bits: byte): (r: Option<Reg>)
    ensures r.Some? <==> bits <= RegMask
    ensures r.Some? ==> IsLo(r.value)
  {
    match bits
    case 0 => Some(Rax)
    case 1 => Some(Rcx)
    case 2 => Some(Rdx)
    case 3 => Some(Rbx)
    case 4 => Some(Rsp)
    case 5 => Some(Rbp)
    case 6 => Some(Rsi)
    case 7 => Some(Rdi)
    case _ => None
  }

  /** Looks up a base-bit pattern among the hi registers. */
  function FromHi(bits: byte): (r: Option<Reg>)
    ensures r.Some? <==> bits <= RegMask
    ensures r.Some? ==> IsHi(r.value)
  {
    match bits
    case 0 => Some(R8)
    case 1 => Some(R9)
    case 2 => Some(R10)
    case 3 => Some(R11)
    case 4 => Some(R12)
    case 5 => Some(R13)
    case 6 => Some(R14)
    case 7 => Some(R15)
    case _ => None
  }

  /** The base bits of a lo register; the hi half is unreachable. */
  function ToLo(r: Reg): (bits: byte)
    requires IsLo(r)
    ensures bits <= RegMask
    ensures FromLo(bits) == Some(r)
  {
    match r
    case Rax => 0
    case Rcx => 1
    case Rdx => 2
    case Rbx => 3
    case Rsp => 4
    case Rbp => 5
    case Rsi => 6
    case Rdi => 7
  }

  /** The base bits of a hi register; the lo half is unreachable. */
  function ToHi(r: Reg): (bits: byte)
    requires IsHi(r)
    ensures bits <= RegMask
    ensures FromHi(bits) == Some(r)
  {
    match r
    case R8 => 0
    case R9 => 1
    case R10 => 2
    case R11 => 3
    case R12 => 4
    case R13 => 5
    case R14 => 6
    case R15 => 7
  }

  /** The three bits a register shares with its sibling in the other half. */
  function BaseBits(r: Reg): (bits: byte)
    ensures bits <= RegMask
    ensures (if IsHi(r) then FromHi(bits) else FromLo(bits)) == Some(r)
  {
    if IsHi(r) then ToHi(r) else ToLo(r)
  }

  /** The full four-bit register number. */
  function Bits(r: Reg): (bits: byte)
    ensures bits <= 0x0F
    ensures Low3(bits) == BaseBits(r)
    ensures Bit3(bits) <==> IsHi(r)
  {
    if IsHi(r) then SetBit3(ToHi(r)) else ToLo(r)
  }

  /** `Reg::try_parse`: the flag tested on bit 3 is named "is_lo" and, when
      it is set, the lo table is used, so bit 3 selects the OPPOSITE half of
      what it does in `Bits`. Only the low four bits are read, and every
      byte parses. */
  function TryParse(reg: byte): (r: Option<Reg>)
    ensures r.Some?
    ensures BaseBits(r.value) == Low3(reg)
    ensures IsLo(r.value) <==> Bit3(reg)
  {
    var isLo := Bit3(reg);
    var bits := Low3(reg);
    if isLo then FromLo(bits) else FromHi(bits)
  }

  /** `Reg::from_hi_unchecked`, which the library calls but which is defined
      nowhere in src/reg.rs: ASSUMED to mask the byte to its base bits and
      look them up among the hi registers. */
  function FromHiUnchecked(reg: byte): (r: Reg)
    ensures IsHi(r)
    ensures BaseBits(r) == Low3(reg)
  {
    FromHi(Low3(reg)).value
  }

  /** `Reg::from_lo_unchecked`: ASSUMED, like `FromHiUnchecked`, to mask and
      look up among the lo registers. */
  function FromLoUnchecked(reg: byte): (r: Reg)
    ensures IsLo(r)
    ensures BaseBits(r) == Low3(reg)
  {
    FromLo(Low3(reg)).value
  }

  /** The extension bit partitions the registers: exactly R8..R15 are hi. */
  lemma HiIffNumberAtLeastEight(r: Reg)
    ensures IsHi(r) <==> Bits(r) >= 8
    ensures IsLo(r) <==> Bits(r) < 8
  {
  }

  /** The base bits follow declaration order within each half. */
  lemma BaseBitsOrder()
    ensures [BaseBits(Rax), BaseBits(Rcx), BaseBits(Rdx), BaseBits(Rbx),
             BaseBits(Rsp), BaseBits(Rbp), BaseBits(Rsi), BaseBits(Rdi)]
         == [0, 1, 2, 3, 4, 5, 6, 7]
    ensures [BaseBits(R8), BaseBits(R9), BaseBits(R10), BaseBits(R11),
             BaseBits(R12), BaseBits(R13), BaseBits(R14), BaseBits(R15)]
         == [0, 1, 2, 3, 4, 5, 6, 7]
  {
  }

  /** Two registers with the same number are the same register. */
  lemma BitsInjective(r1: Reg, r2: Reg)
    ensures Bits(r1) == Bits(r2) ==> r1 == r2
  {
    if Bits(r1) == Bits(r2) {
      assert IsHi(r1) == IsHi(r2);
      assert BaseBits(r1) == BaseBits(r2);
    }
  }

  /** Every four-bit number names a register. */
  lemma BitsSurjective(n: byte)
    requires n <= 0x0F
    ensures exists r :: Bits(r) == n
  {
    var r := if n >= 8 then FromHi(n - 8).value else FromLo(n).value;
    assert Bits(r) == n;
  }

  /** `try_parse` ignores the high nibble. */
  lemma TryParseLowNibble(reg: byte)
    ensures TryParse(reg) == TryParse(LowNibble(reg))
  {
    LowNibbleBits(reg);
  }

  /** With bit 3 set `try_parse` yields the lo register of the base bits,
      otherwise the hi one. */
  lemma TryParseHalves(reg: byte)
    ensures Bit3(reg) ==> TryParse(reg) == FromLo(Low3(reg))
    ensures !Bit3(reg) ==> TryParse(reg) == FromHi(Low3(reg))
  {
  }
}
