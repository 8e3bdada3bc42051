/** The older codec of the command-line binary: its own instruction type,
    a decoder whose last pattern reads any head byte alone as a `pop`, an
    encoder that writes straight into the bounded vector, instruction
    lengths and the instruction iterator. */
module DismalBin {

  import opened Options
  import opened Bytes
  import opened Registers
  import opened Encoding

  /** An operand: a register or a 32-bit integer. */
  datatype Arg = Register(reg: Reg) | Int(value: i32)

  datatype Inst =
    | Call(rel: i32)
    | Lea(dst: Reg, src: Arg)
    | Pop(reg: Reg)
    | Push(arg: Arg)
    | Ret
    | Syscall
    | Xor(lhs: Reg, rhs: Reg)

  /** The REX prefix with the 64-bit operand-size bit. */
  const RexW: byte := 0x48

  /** The REX prefix that extends the opcode's register field. */
  const RexB: byte := 0x41

  /** `try_parse_pop_one`: the raw byte goes to `Reg::try_parse`, so a set
      bit 3 selects a lo register and a clear one a hi register. */
  function TryParsePopOne(b: byte): (r: Option<Reg>)
    ensures r.Some?
    ensures BaseBits(r.value) == Low3(b)
    ensures IsLo(r.value) <==> Bit3(b)
  {
    TryParse(b)
  }

  /** `try_parse_pop_two`: bit 3 is cleared before `Reg::try_parse`, so the
      result is always the hi register of the low three bits. */
  function TryParsePopTwo(b: byte): (r: Option<Reg>)
    ensures r.Some?
    ensures IsHi(r.value)
    ensures BaseBits(r.value) == Low3(b)
  {
    TryParse(ClearBit3(b))
  }

  /** `Inst::len`. */
  function Len(i: Inst): (n: nat)
    ensures 1 <= n <= Capacity
  {
    match i
    case Call(_) => 6
    case Lea(_, _) => 7
    case Pop(reg) => if IsHi(reg) then 2 else 1
    case Push(_) => 1
    case Ret => 1
    case Syscall => 2
    case Xor(_, _) => 3
  }

  /** `Inst::from_bytes`: first match wins; the last pattern takes any
      remaining non-empty buffer as a `pop` read from the head byte alone,
      so only the empty buffer fails to decode. */
  function FromBytes(bytes: seq<byte>): (r: Option<Inst>)
    ensures r.None? <==> |bytes| == 0
  {
    if |bytes| >= 7 && bytes[0] == RexW && bytes[1] == 0x8D && bytes[2] == 0x0D then
      Some(Lea(Rcx, Int(Disp(bytes, 3))))
    else if |bytes| >= 6 && bytes[0] == 0xFF && bytes[1] == 0x15 then
      Some(Call(Disp(bytes, 2)))
    else if |bytes| >= 1 && bytes[0] == 0x50 then
      Some(Push(Register(Rax)))
    else if |bytes| == 2 && bytes[0] == 0x6A then
      Some(Push(Int(bytes[1])))
    else if |bytes| >= 2 && bytes[0] == 0x0F && bytes[1] == 0x05 then
      Some(Syscall)
    else if |bytes| >= 2 && bytes[0] == RexB then
      match TryParsePopTwo(bytes[1])
      case Some(reg) => Some(Pop(reg))
      case None => None
    else if |bytes| >= 1 && bytes[0] == 0xC3 then
      Some(Ret)
    else if |bytes| >= 1 then
      match TryParsePopOne(bytes[0])
      case Some(reg) => Some(Pop(reg))
      case None => None
    else
      None
  }

  /** The instructions `to_bytes` has an arm for; every other one reaches
      `unreachable!()`. */
  predicate Encodable(i: Inst) {
    match i
    case Call(_) | Pop(_) | Ret | Syscall => true
    case Lea(dst, src) => dst == Rcx && src.Int?
    case Push(arg) => arg == Register(Rax)
    case Xor(_, _) => false
  }

  /** `Inst::to_bytes`: unchecked pushes into the 15-byte vector; the
      encoding is exactly `len` bytes long. */
  function ToBytes(i: Inst): (r: seq<byte>)
    requires Encodable(i)
    ensures |r| == Len(i)
  {
    var e := New();
    var e := match i
      case Call(rel) => WriteBytes(WriteBytes(e, [0xFF, 0x15]), ToLeBytes(rel))
      case Lea(_, src) => WriteBytes(WriteBytes(e, [RexW, 0x8D, 0x0D]), ToLeBytes(src.value))
      case Pop(reg) =>
        if IsHi(reg) then WriteBytes(e, [RexB, OrLow3(0x58, BaseBits(reg))])
        else WriteU8(e, OrLow3(0x58, Bits(reg)))
      case Push(_) => WriteU8(e, 0x50)
      case Ret => WriteU8(e, 0xC3)
      case Syscall => WriteBytes(e, [0x0F, 0x05]);
    IntoVec(e)
  }

  /** An instruction together with the address it starts at. */
  datatype WithIp = WithIp(ip: nat, inst: Inst)

  /** The state of `InstIter`: the buffer, the address of its first byte and
      the cursor. */
  datatype InstIter = InstIter(bytes: seq<byte>, ip: nat, offset: nat)

  /** One call of `next`: the iterator's new state and what it returned. */
  datatype Step = Step(iter: InstIter, item: Option<WithIp>)

  /** `InstIter::from_bytes`: a cursor at the start of the buffer. */
  function IterFromBytes(ip: nat, bytes: seq<byte>): (it: InstIter)
    ensures it.offset == 0 && it.offset <= |it.bytes|
    ensures it.bytes == bytes && it.ip == ip
  {
    InstIter(bytes, ip, 0)
  }

  /** `InstIter::next`. The slice `bytes[offset..]` needs the cursor inside
      the buffer; unlike the library's iterator, a step does NOT keep it
      there (see `NextOverrunsBuffer`). */
  function Next(it: InstIter): (s: Step)
    requires it.offset <= |it.bytes|
    ensures s.iter.bytes == it.bytes && s.iter.ip == it.ip
    ensures s.item.None? <==> it.offset == |it.bytes|
    ensures s.item.None? ==> s.iter == it
    ensures s.item.Some? ==>
              && FromBytes(it.bytes[it.offset..]) == Some(s.item.value.inst)
              && s.item.value.ip == it.ip + it.offset
              && s.iter.offset == it.offset + Len(s.item.value.inst)
  {
    match FromBytes(it.bytes[it.offset..])
    case Some(inst) =>
      Step(it.(offset := it.offset + Len(inst)), Some(WithIp(it.ip + it.offset, inst)))
    case None => Step(it, None)
  }

  /** After `0x41` and any second byte the decoder yields `pop` of the hi
      register named by the second byte's low three bits. */
  lemma {:induction false} PopTwoIsExtended(b: seq<byte>)
    requires |b| >= 2 && b[0] == RexB
    ensures FromBytes(b).Some? && FromBytes(b).value.Pop?
    ensures IsHi(FromBytes(b).value.reg) && BaseBits(FromBytes(b).value.reg) == Low3(b[1])
  {
  }

  /** A head byte that no earlier pattern claims decodes as a `pop` read
      from it alone: of the lo register when bit 3 is set, of the hi
      register otherwise. */
  lemma {:induction false} FallbackIsPop(b: seq<byte>)
    requires |b| >= 1
    requires !(|b| >= 7 && b[0] == RexW && b[1] == 0x8D && b[2] == 0x0D)
    requires !(|b| >= 6 && b[0] == 0xFF && b[1] == 0x15)
    requires b[0] != 0x50
    requires !(|b| == 2 && b[0] == 0x6A)
    requires !(|b| >= 2 && b[0] == 0x0F && b[1] == 0x05)
    requires !(|b| >= 2 && b[0] == RexB)
    requires b[0] != 0xC3
    ensures FromBytes(b).Some? && FromBytes(b).value.Pop?
    ensures BaseBits(FromBytes(b).value.reg) == Low3(b[0])
    ensures IsLo(FromBytes(b).value.reg) <==> Bit3(b[0])
  {
  }

  /** `6A ib` is the only pattern that yields a pushed immediate: it matches
      a buffer of exactly two bytes, and the immediate is the second byte
      zero-extended. */
  lemma DecodePushImm(b: seq<byte>, v: i32)
    ensures FromBytes(b) == Some(Push(Int(v))) <==> |b| == 2 && b[0] == 0x6A && v == b[1]
    ensures FromBytes([0x6A, 0xFF]) == Some(Push(Int(255)))
    ensures FromBytes([0x6A, 0x01, 0x02]) == Some(Pop(Rdx))
  {
    assert TryParse(0x6A) == Some(Rdx);
  }

  /** Each opcode with a displacement, followed by the displacement's
      little-endian bytes, decodes to its instruction. */
  lemma DecodeDispEncodings(rel: i32)
    ensures FromBytes([0xFF, 0x15] + ToLeBytes(rel)) == Some(Call(rel))
    ensures FromBytes([RexW, 0x8D, 0x0D] + ToLeBytes(rel)) == Some(Lea(Rcx, Int(rel)))
  {
    DispAfterOpcode([0xFF, 0x15], rel);
    DispAfterOpcode([RexW, 0x8D, 0x0D], rel);
  }

  /** The one- and two-byte patterns before the fallback: `50` is
      `push rax`, `0F 05` is `syscall` and `C3` is `ret`, whatever follows. */
  lemma {:induction false} DecodeOpcodeTable(b: seq<byte>)
    requires |b| >= 1
    ensures b[0] == 0x50 ==> FromBytes(b) == Some(Push(Register(Rax)))
    ensures |b| >= 2 && b[0] == 0x0F && b[1] == 0x05 ==> FromBytes(b) == Some(Syscall)
    ensures b[0] == 0xC3 ==> FromBytes(b) == Some(Ret)
  {
  }

  /** The binary's encodings: the displacement of `call` and `lea` follows
      the opcode in little-endian order, `push rax`, `ret` and `syscall` are
      fixed bytes, and a `pop` is `58` plus its base bits, after a `41`
      prefix for R8..R15. */
  lemma {:induction false} EncodeOpcodeTable(rel: i32, r: Reg)
    ensures ToBytes(Call(rel)) == [0xFF, 0x15] + ToLeBytes(rel)
    ensures ToBytes(Lea(Rcx, Int(rel))) == [RexW, 0x8D, 0x0D] + ToLeBytes(rel)
    ensures ToBytes(Push(Register(Rax))) == [0x50]
    ensures ToBytes(Ret) == [0xC3]
    ensures ToBytes(Syscall) == [0x0F, 0x05]
    ensures ToBytes(Pop(r))
         == if IsHi(r) then [RexB, 0x58 + BaseBits(r)] else [0x58 + BaseBits(r)]
  {
  }

  /** Round trip from instructions for `call` and `lea`, which carry a
      displacement. */
  lemma {:induction false} EncodeDecodeDisp(i: Inst)
    requires Encodable(i) && (i.Call? || i.Lea?)
    ensures FromBytes(ToBytes(i)) == Some(i)
  {
    if i.Call? {
      assert ToBytes(i) == [0xFF, 0x15] + ToLeBytes(i.rel);
      DispAfterOpcode([0xFF, 0x15], i.rel);
    } else {
      assert ToBytes(i) == [RexW, 0x8D, 0x0D] + ToLeBytes(i.src.value);
      DispAfterOpcode([RexW, 0x8D, 0x0D], i.src.value);
    }
  }

  /** Round trip from instructions for `pop`. */
  lemma {:induction false} EncodeDecodePop(i: Inst)
    requires i.Pop?
    ensures FromBytes(ToBytes(i)) == Some(i)
  {
    var b := ToBytes(i);
    if IsHi(i.reg) {
      assert TryParsePopTwo(b[1]) == Some(i.reg);
    } else {
      assert TryParsePopOne(b[0]) == Some(i.reg);
    }
  }

  /** Round trip from instructions: decoding an encoding gives back the
      instruction. */
  lemma {:induction false} EncodeDecode(i: Inst)
    requires Encodable(i)
    ensures FromBytes(ToBytes(i)) == Some(i)
  {
    if i.Call? || i.Lea? {
      EncodeDecodeDisp(i);
    } else if i.Pop? {
      EncodeDecodePop(i);
    }
  }

  /** A decoded `pop` re-encodes to the head of its buffer exactly when its
      opcode byte was one of 0x58..0x5F, with or without the 0x41 prefix. */
  predicate PopOpcodeHead(b: seq<byte>) {
    || (|b| >= 2 && b[0] == RexB && 0x58 <= b[1] <= 0x5F)
    || (|b| >= 1 && 0x58 <= b[0] <= 0x5F)
  }

  /** Round trip from bytes: every decoded instruction except a pushed
      immediate can be encoded; its encoding is the head of the buffer for
      every instruction but `pop`, and for `pop` exactly when the opcode
      byte was a genuine pop opcode. */
  lemma {:induction false} DecodeEncode(b: seq<byte>, i: Inst)
    requires FromBytes(b) == Some(i)
    ensures Encodable(i) <==> !(i.Push? && i.arg.Int?)
    ensures Encodable(i) && !i.Pop? ==> ToBytes(i) <= b
    ensures i.Pop? ==> (ToBytes(i) <= b <==> PopOpcodeHead(b))
  {
    if i.Lea? {
      assert ToBytes(i) == [RexW, 0x8D, 0x0D] + ToLeBytes(i.src.value);
      OpcodeDispPrefix(b, [RexW, 0x8D, 0x0D]);
    } else if i.Call? {
      assert ToBytes(i) == [0xFF, 0x15] + ToLeBytes(i.rel);
      OpcodeDispPrefix(b, [0xFF, 0x15]);
    } else if i.Pop? {
      DecodedPop(b, i);
    }
  }

  /** The `pop` half of `DecodeEncode`. */
  lemma {:induction false} DecodedPop(b: seq<byte>, i: Inst)
    requires FromBytes(b) == Some(i) && i.Pop?
    ensures ToBytes(i) <= b <==> PopOpcodeHead(b)
  {
    if |b| >= 2 && b[0] == RexB {
      assert ToBytes(i) == [RexB, OrLow3(0x58, Low3(b[1]))];
    } else if IsHi(i.reg) {
      // the head byte had bit 3 clear, so it is no pop opcode, and the
      // two-byte encoding cannot be a prefix of it
      assert !(0x58 <= b[0] <= 0x5F);
      assert ToBytes(i)[0] == RexB;
      assert |b| < 2 || b[0] != RexB;
    } else {
      assert ToBytes(i) == [OrLow3(0x58, Low3(b[0]))];
    }
  }

  /** The zero byte decodes as `pop r8`, which encodes as `41 58`: the
      round trip fails for fallback bytes outside 0x58..0x5F. */
  lemma ZeroByteDoesNotRoundTrip()
    ensures FromBytes([0x00]) == Some(Pop(R8))
    ensures ToBytes(Pop(R8)) == [RexB, 0x58]
  {
    assert TryParse(0) == Some(R8);
  }

  /** `len` fits in the decoded buffer except when a single byte decodes as
      a `pop` of a hi register, whose length is 2. */
  lemma {:induction false} LenFitsUnlessShortPop(b: seq<byte>, i: Inst)
    requires FromBytes(b) == Some(i)
    ensures Len(i) <= |b| <==> !(|b| == 1 && i.Pop? && IsHi(i.reg))
  {
  }

  /** Because any head byte decodes, a buffer that stops short of a longer
      pattern decodes as a `pop` read from its head byte alone, and the
      bytes after it decide what it was: `FF` alone is `pop rdi`, `FF 15`
      followed by four bytes is a `call`, and `41` alone is `pop r9` while
      `41 58` is `pop r8`. */
  lemma TailChangesDecode()
    ensures FromBytes([0xFF]) == Some(Pop(Rdi)) && Len(Pop(Rdi)) == 1
    ensures FromBytes([0xFF, 0x15, 0, 0, 0, 0]) == Some(Call(0))
    ensures FromBytes([RexB]) == Some(Pop(R9))
    ensures FromBytes([RexB, 0x58]) == Some(Pop(R8))
  {
    TailChangesIndirectCall();
    TailChangesExtendedPop();
  }

  /** `FF` alone is `pop rdi`; `FF 15` and four bytes is a `call`. */
  lemma TailChangesIndirectCall()
    ensures FromBytes([0xFF]) == Some(Pop(Rdi))
    ensures FromBytes([0xFF, 0x15, 0, 0, 0, 0]) == Some(Call(0))
  {
    var short: seq<byte> := [0xFF];
    FallbackIsPop(short);
    assert TryParse(0xFF) == Some(Rdi);
    var long: seq<byte> := [0xFF, 0x15, 0, 0, 0, 0];
    assert Disp(long, 2) == FromLeBytes(0, 0, 0, 0) == 0;
  }

  /** `41` alone is `pop r9`; `41 58` is `pop r8`. */
  lemma TailChangesExtendedPop()
    ensures FromBytes([RexB]) == Some(Pop(R9))
    ensures FromBytes([RexB, 0x58]) == Some(Pop(R8))
  {
    assert TryParse(RexB) == Some(R9);
    assert TryParse(ClearBit3(0x58)) == Some(R8);
  }

  /** From `[0x41]` the iterator yields `pop r9` and moves its cursor to 2,
      past the end of the one-byte buffer, so the precondition of `next`
      is not maintained and the following call would slice out of range. */
  lemma NextOverrunsBuffer()
    ensures var s := Next(IterFromBytes(0x1000, [RexB]));
            && s.item == Some(WithIp(0x1000, Pop(R9)))
            && s.iter.offset == 2 > |s.iter.bytes|
  {
    assert [RexB][0..] == [RexB];
    assert TryParse(RexB) == Some(R9);
  }

  /** Trailing bytes do not change a decode other than a `pop`: every
      pattern before the fallback reads a fixed prefix, except the
      exact-length `6A ib`, whose head byte then falls through to `pop rdx`. */
  lemma {:induction false} DecodeIgnoresTail(b: seq<byte>, t: seq<byte>, i: Inst)
    requires FromBytes(b) == Some(i)
    requires !i.Pop?
    ensures !(i.Push? && i.arg.Int?) ==> FromBytes(b + t) == Some(i)
    ensures i.Push? && i.arg.Int? && |t| > 0 ==> FromBytes(b + t) == Some(Pop(Rdx))
  {
    var bt := b + t;
    assert forall k :: 0 <= k < |b| ==> bt[k] == b[k];
    if |b| >= 7 {
      assert Disp(bt, 3) == Disp(b, 3);
    }
    if |b| >= 6 {
      assert Disp(bt, 2) == Disp(b, 2);
    }
    if i.Push? && i.arg.Int? {
      assert TryParse(0x6A) == Some(Rdx);
    }
  }

  /** Because `len(Push(_))` is 1, after `6A ib` the iterator advances one
      byte and reads the immediate again as an opcode: over `6A 58` it yields
      the pushed immediate and then `pop rax`. */
  lemma PushImmLenSplitsStream()
    ensures var s1 := Next(IterFromBytes(0x1000, [0x6A, 0x58]));
            && s1.item == Some(WithIp(0x1000, Push(Int(0x58))))
            && s1.iter.offset == 1
            && var s2 := Next(s1.iter);
               && s2.item == Some(WithIp(0x1001, Pop(Rax)))
               && s2.iter.offset == 2
  {
    var it := IterFromBytes(0x1000, [0x6A, 0x58]);
    assert [0x6A, 0x58][0..] == [0x6A, 0x58];
    var s1 := Next(it);
    assert s1.item == Some(WithIp(0x1000, Push(Int(0x58))));
    assert [0x6A, 0x58][1..] == [0x58];
    assert TryParse(0x58) == Some(Rax);
  }

  /** The driver's vectors decode to push rax, the indirect call, pop rax,
      ret and pop r15, and each encodes back to its input. */
  lemma DriverVectors()
    ensures FromBytes([0x50]) == Some(Push(Register(Rax))) && ToBytes(Push(Register(Rax))) == [0x50]
    ensures FromBytes([0xFF, 0x15, 0x69, 0x69, 0x69, 0x69]) == Some(Call(0x6969_6969))
    ensures ToBytes(Call(0x6969_6969)) == [0xFF, 0x15, 0x69, 0x69, 0x69, 0x69]
    ensures FromBytes([0x58]) == Some(Pop(Rax)) && ToBytes(Pop(Rax)) == [0x58]
    ensures FromBytes([0xC3]) == Some(Ret) && ToBytes(Ret) == [0xC3]
    ensures FromBytes([RexB, 0x5F]) == Some(Pop(R15)) && ToBytes(Pop(R15)) == [RexB, 0x5F]
  {
    DriverCallVector();
    DriverPushVector();
    DriverPopVector();
    DriverRetVector();
    DriverExtendedPopVector();
  }

  /** The driver's indirect call vector round-trips. */
  lemma DriverCallVector()
    ensures FromBytes([0xFF, 0x15, 0x69, 0x69, 0x69, 0x69]) == Some(Call(0x6969_6969))
    ensures ToBytes(Call(0x6969_6969)) == [0xFF, 0x15, 0x69, 0x69, 0x69, 0x69]
  {
    var call: seq<byte> := [0xFF, 0x15, 0x69, 0x69, 0x69, 0x69];
    assert FromLeBytes(0x69, 0x69, 0x69, 0x69) == 0x6969_6969;
    assert FromBytes(call) == Some(Call(0x6969_6969));
    DecodeEncode(call, Call(0x6969_6969));
    assert call[..6] == call;
  }

  /** The driver's `push rax` vector round-trips. */
  lemma DriverPushVector()
    ensures FromBytes([0x50]) == Some(Push(Register(Rax))) && ToBytes(Push(Register(Rax))) == [0x50]
  {
    var r := ToBytes(Push(Register(Rax)));
    assert |r| == 1 && r[0] == 0x50;
  }

  /** The driver's `pop rax` vector round-trips. */
  lemma DriverPopVector()
    ensures FromBytes([0x58]) == Some(Pop(Rax)) && ToBytes(Pop(Rax)) == [0x58]
  {
    assert Low3(0x58) == 0 && Bit3(0x58);
    assert TryParse(0x58) == Some(Rax);
    var r := ToBytes(Pop(Rax));
    assert |r| == 1 && r[0] == OrLow3(0x58, Bits(Rax)) == 0x58;
  }

  /** The driver's `ret` vector round-trips. */
  lemma DriverRetVector()
    ensures FromBytes([0xC3]) == Some(Ret) && ToBytes(Ret) == [0xC3]
  {
    var r := ToBytes(Ret);
    assert |r| == 1 && r[0] == 0xC3;
  }

  /** The driver's `pop r15` vector round-trips. */
  lemma DriverExtendedPopVector()
    ensures FromBytes([RexB, 0x5F]) == Some(Pop(R15)) && ToBytes(Pop(R15)) == [RexB, 0x5F]
  {
    assert TryParse(ClearBit3(0x5F)) == Some(R15);
  }
}
