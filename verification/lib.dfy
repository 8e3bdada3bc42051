/** The library codec: decoding a byte buffer into an instruction by an
    ordered list of byte patterns, encoding an instruction back through the
    bounded `Encoder`, instruction lengths, RIP-relative address resolution
    and the iterator that walks a buffer instruction by instruction. */
module Dismal {

  import opened Options
  import opened Bytes
  import opened Registers
  import opened Encoding

  /** An operand: a register or a 32-bit integer. */
  datatype Arg = Register(reg: Reg) | Int(value: i32)

  datatype Inst =
    | Call(rel: i32)
    | Call2(rel: i32)
    | Lea(dst: Reg, src: Arg)
    | Mov(dst: Reg, src: Arg)
    | Pop(reg: Reg)
    | Push(arg: Arg)
    | Jmp(rel: i32)
    | Ret
    | Syscall
    | Xor(lhs: Reg, rhs: Reg)

  /** The REX prefix with the 64-bit operand-size bit. */
  const RexW: byte := 0x48

  /** The REX prefix that extends the opcode's register field. */
  const RexB: byte := 0x41

  /** `Inst::len`: the length the iterator advances by, which for every
      `Push` is 1, whatever its operand. */
  function Len(i: Inst): (n: nat)
    ensures 1 <= n <= Capacity
  {
    match i
    case Call(_) => 5
    case Call2(_) => 6
    case Lea(_, _) => 7
    case Jmp(_) => 6
    case Mov(_, _) => 7
    case Pop(reg) => if IsHi(reg) then 2 else 1
    case Push(_) => 1
    case Ret => 1
    case Syscall => 2
    case Xor(_, _) => 3
  }

  /** `Inst::from_bytes`: the first pattern that matches the head of the
      buffer wins; bytes after the pattern are ignored, except that the
      `0x6A ib` pattern matches a buffer of exactly two bytes. The immediate
      of `0x6A ib` is zero-extended. */
  function FromBytes(bytes: seq<byte>): (r: Option<Inst>)
    ensures r.Some? ==> Len(r.value) <= |bytes|
  {
    if |bytes| >= 7 && bytes[0] == RexW && bytes[1] == 0x8B && bytes[2] == 0x05 then
      Some(Mov(Rax, Int(Disp(bytes, 3))))
    else if |bytes| >= 7 && bytes[0] == RexW && bytes[1] == 0x8D && bytes[2] == 0x0D then
      Some(Lea(Rcx, Int(Disp(bytes, 3))))
    else if |bytes| >= 6 && bytes[0] == 0xFF && bytes[1] == 0x25 then
      Some(Jmp(Disp(bytes, 2)))
    else if |bytes| >= 6 && bytes[0] == 0xFF && bytes[1] == 0x15 then
      Some(Call2(Disp(bytes, 2)))
    else if |bytes| >= 5 && bytes[0] == 0xE8 then
      Some(Call(Disp(bytes, 1)))
    else if |bytes| == 2 && bytes[0] == 0x6A then
      Some(Push(Int(bytes[1])))
    else if |bytes| >= 2 && bytes[0] == 0x0F && bytes[1] == 0x05 then
      Some(Syscall)
    else if |bytes| >= 2 && bytes[0] == RexB && 0x50 <= bytes[1] <= 0x57 then
      Some(Push(Register(FromHiUnchecked(bytes[1]))))
    else if |bytes| >= 2 && bytes[0] == RexB && 0x58 <= bytes[1] <= 0x5F then
      Some(Pop(FromHiUnchecked(bytes[1])))
    else if |bytes| >= 1 && bytes[0] == 0xC3 then
      Some(Ret)
    else if |bytes| >= 1 && 0x50 <= bytes[0] <= 0x57 then
      Some(Push(Register(FromLoUnchecked(bytes[0]))))
    else if |bytes| >= 1 && 0x58 <= bytes[0] <= 0x5F then
      Some(Pop(FromLoUnchecked(bytes[0])))
    else
      None
  }

  /** The instructions `to_bytes` has an arm for; every other one reaches
      `unreachable!()`. */
  predicate Encodable(i: Inst) {
    match i
    case Call(_) | Call2(_) | Jmp(_) | Pop(_) | Ret | Syscall => true
    case Lea(dst, src) => dst == Rcx && src.Int?
    case Mov(dst, src) => dst == Rax && src.Int?
    case Push(arg) => arg.Register?
    case Xor(_, _) => false
  }

  /** `Inst::to_bytes`: every write goes through the unchecked encoder, and
      at most seven bytes are written, so the capacity obligations of the
      writes are all met. */
  function ToBytes(i: Inst): (r: seq<byte>)
    requires Encodable(i)
    ensures 1 <= |r| <= 7
  {
    var e := New();
    var e := match i
      case Call(rel) => WriteI32(WriteU8(e, 0xE8), rel)
      case Call2(rel) => WriteI32(WriteBytes(e, [0xFF, 0x15]), rel)
      case Lea(_, src) => WriteI32(WriteBytes(e, [RexW, 0x8D, 0x0D]), src.value)
      case Jmp(rel) => WriteI32(WriteBytes(e, [0xFF, 0x25]), rel)
      case Mov(_, src) => WriteI32(WriteBytes(e, [RexW, 0x8B, 0x05]), src.value)
      case Pop(reg) =>
        if IsHi(reg) then WriteBytes(e, [RexB, OrLow3(0x58, BaseBits(reg))])
        else WriteU8(e, OrLow3(0x58, Bits(reg)))
      case Push(arg) =>
        if IsHi(arg.reg) then WriteBytes(e, [RexB, OrLow3(0x50, BaseBits(arg.reg))])
        else WriteU8(e, OrLow3(0x50, Bits(arg.reg)))
      case Ret => WriteU8(e, 0xC3)
      case Syscall => WriteBytes(e, [0x0F, 0x05]);
    IntoVec(e)
  }

  /** `Inst::rel_addr`: the RIP-relative displacement, as an `isize`. */
  function RelAddr(i: Inst): (r: Option<int>)
    ensures r.Some? <==> (i.Call? || i.Call2? || i.Jmp? || (i.Mov? && i.dst == Rax && i.src.Int?))
  {
    match i
    case Call(rel) => Some(rel)
    case Call2(rel) => Some(rel)
    case Jmp(rel) => Some(rel)
    case Mov(Rax, Int(rel)) => Some(rel)
    case _ => None
  }

  /** An instruction together with the address it starts at. Addresses are
      unbounded integers. */
  datatype WithIp = WithIp(ip: nat, inst: Inst)

  /** `WithIp::next_ip`: the address just past the instruction. */
  function NextIp(w: WithIp): (n: nat)
    ensures w.ip < n <= w.ip + Capacity
    ensures n - w.ip == Len(w.inst)
  {
    w.ip + Len(w.inst)
  }

  /** `WithIp::abs_addr`: the displacement resolved against the address of
      the FOLLOWING instruction; absent when there is no displacement. */
  function AbsAddr(w: WithIp): (r: Option<int>)
    ensures r.Some? <==> RelAddr(w.inst).Some?
    ensures r.Some? ==> r.value - RelAddr(w.inst).value == NextIp(w)
  {
    match RelAddr(w.inst)
    case Some(rel) => Some(NextIp(w) + rel)
    case None => None
  }

  /** The state of `InstIter`: the buffer, the address of its first byte and
      the cursor. */
  datatype InstIter = InstIter(bytes: seq<byte>, ip: nat, offset: nat)

  /** One call of `next`: the iterator's new state and what it returned. */
  datatype Step = Step(iter: InstIter, item: Option<WithIp>)

  /** `InstIter::from_bytes`: a cursor at the start of the buffer. */
  function IterFromBytes(ip: nat, bytes: seq<byte>): (it: InstIter)
    ensures it.offset == 0 && it.offset <= |it.bytes|
    ensures it.bytes == bytes && it.ip == ip
  {
    InstIter(bytes, ip, 0)
  }

  /** `InstIter::next`: decodes at the cursor, returns the instruction with
      the address `ip + offset` and advances the cursor by its length; on a
      failed decode nothing moves. The slice `bytes[offset..]` needs the
      cursor inside the buffer, and the step keeps it there. */
  function Next(it: InstIter): (s: Step)
    requires it.offset <= |it.bytes|
    ensures s.iter.bytes == it.bytes && s.iter.ip == it.ip
    ensures s.iter.offset <= |it.bytes|
    ensures s.item.Some? <==> FromBytes(it.bytes[it.offset..]).Some?
    ensures s.item.None? ==> s.iter == it
    ensures s.item.Some? ==>
              && FromBytes(it.bytes[it.offset..]) == Some(s.item.value.inst)
              && s.item.value.ip == it.ip + it.offset
              && NextIp(s.item.value) == it.ip + s.iter.offset
  {
    match FromBytes(it.bytes[it.offset..])
    case Some(inst) =>
      Step(it.(offset := it.offset + Len(inst)), Some(WithIp(it.ip + it.offset, inst)))
    case None => Step(it, None)
  }

  /** Everything the iterator yields from `it` until its first `None`. */
  function Items(it: InstIter): (r: seq<WithIp>)
    requires it.offset <= |it.bytes|
    ensures forall k :: 0 <= k < |r| ==>
              it.ip + it.offset <= r[k].ip && NextIp(r[k]) <= it.ip + |it.bytes|
    ensures forall k :: 0 <= k < |r| - 1 ==> r[k + 1].ip == NextIp(r[k])
    ensures |r| > 0 ==> r[0].ip == it.ip + it.offset
    decreases |it.bytes| - it.offset
  {
    var s := Next(it);
    match s.item
    case Some(w) => [w] + Items(s.iter)
    case None => []
  }

  /** The encoding of an instruction with a displacement is its opcode
      bytes followed by the displacement's little-endian bytes. */
  lemma ToBytesWithDisp(i: Inst)
    requires Encodable(i) && (RelAddr(i).Some? || i.Lea?)
    ensures ToBytes(i) == match i
      case Call(rel) => [0xE8] + ToLeBytes(rel)
      case Call2(rel) => [0xFF, 0x15] + ToLeBytes(rel)
      case Jmp(rel) => [0xFF, 0x25] + ToLeBytes(rel)
      case Lea(_, src) => [RexW, 0x8D, 0x0D] + ToLeBytes(src.value)
      case Mov(_, src) => [RexW, 0x8B, 0x05] + ToLeBytes(src.value)
      case _ => []
  {
  }

  /** `6A ib` is the only pattern that yields a pushed immediate: it matches
      a buffer of exactly two bytes, and the immediate is the second byte
      zero-extended, so `6A FF` pushes 255 rather than -1. */
  lemma DecodePushImm(b: seq<byte>, v: i32)
    ensures FromBytes(b) == Some(Push(Int(v))) <==> |b| == 2 && b[0] == 0x6A && v == b[1]
    ensures FromBytes([0x6A, 0xFF]) == Some(Push(Int(255)))
  {
  }

  /** A buffer whose first byte starts no pattern does not decode, and a
      `ret` or one-byte `push`/`pop` head always decodes, to a one-byte
      instruction. */
  lemma DecodeByHead(b: seq<byte>)
    ensures |b| == 0
            || !(b[0] in {RexW, 0xFF, 0xE8, 0x6A, 0x0F, RexB, 0xC3} || 0x50 <= b[0] <= 0x5F)
            ==> FromBytes(b) == None
    ensures |b| >= 1 && (b[0] == 0xC3 || 0x50 <= b[0] <= 0x5F)
            ==> FromBytes(b).Some? && Len(FromBytes(b).value) == 1
  {
  }

  /** The opcode table of the patterns without a displacement: `0F 05` is
      `syscall`, `C3` is `ret`, `50+r` and `58+r` push and pop the lo
      register with base bits `r`, and `41` before them selects the hi
      register instead. */
  lemma {:induction false} DecodeOpcodeTable(b: seq<byte>)
    requires |b| >= 1
    ensures |b| >= 2 && b[0] == 0x0F && b[1] == 0x05 ==> FromBytes(b) == Some(Syscall)
    ensures b[0] == 0xC3 ==> FromBytes(b) == Some(Ret)
    ensures 0x50 <= b[0] <= 0x57 ==>
              var r := FromBytes(b);
              && r.Some? && r.value.Push? && r.value.arg.Register?
              && IsLo(r.value.arg.reg) && BaseBits(r.value.arg.reg) == Low3(b[0])
    ensures 0x58 <= b[0] <= 0x5F ==>
              var r := FromBytes(b);
              && r.Some? && r.value.Pop?
              && IsLo(r.value.reg) && BaseBits(r.value.reg) == Low3(b[0])
    ensures |b| >= 2 && b[0] == RexB && 0x50 <= b[1] <= 0x57 ==>
              var r := FromBytes(b);
              && r.Some? && r.value.Push? && r.value.arg.Register?
              && IsHi(r.value.arg.reg) && BaseBits(r.value.arg.reg) == Low3(b[1])
    ensures |b| >= 2 && b[0] == RexB && 0x58 <= b[1] <= 0x5F ==>
              var r := FromBytes(b);
              && r.Some? && r.value.Pop?
              && IsHi(r.value.reg) && BaseBits(r.value.reg) == Low3(b[1])
  {
  }

  /** The encodings without a displacement: `syscall` is `0F 05`, `ret` is
      `C3`, and a register push or pop is `50` or `58` plus its base bits,
      after a `41` prefix for R8..R15. */
  lemma {:induction false} EncodeOpcodeTable(r: Reg)
    ensures ToBytes(Syscall) == [0x0F, 0x05]
    ensures ToBytes(Ret) == [0xC3]
    ensures ToBytes(Push(Register(r)))
         == if IsHi(r) then [RexB, 0x50 + BaseBits(r)] else [0x50 + BaseBits(r)]
    ensures ToBytes(Pop(r))
         == if IsHi(r) then [RexB, 0x58 + BaseBits(r)] else [0x58 + BaseBits(r)]
  {
  }

  /** Round trip from bytes for `mov rax, [rip + d]` and `lea rcx, [rip + d]`. */
  lemma {:induction false} DecodeEncodeRexW(b: seq<byte>, i: Inst)
    requires FromBytes(b) == Some(i)
    requires i.Mov? || i.Lea?
    ensures Encodable(i) && ToBytes(i) <= b
  {
    ToBytesWithDisp(i);
    if i.Mov? {
      assert b[..3] == [RexW, 0x8B, 0x05] && i.src.value == Disp(b, 3);
      OpcodeDispPrefix(b, [RexW, 0x8B, 0x05]);
    } else {
      assert b[..3] == [RexW, 0x8D, 0x0D] && i.src.value == Disp(b, 3);
      OpcodeDispPrefix(b, [RexW, 0x8D, 0x0D]);
    }
  }

  /** Round trip from bytes for `jmp [rip + d]`. */
  lemma {:induction false} DecodeEncodeJmp(b: seq<byte>, i: Inst)
    requires FromBytes(b) == Some(i)
    requires i.Jmp?
    ensures Encodable(i) && ToBytes(i) <= b
  {
    ToBytesWithDisp(i);
    assert b[..2] == [0xFF, 0x25] && i.rel == Disp(b, 2);
    OpcodeDispPrefix(b, [0xFF, 0x25]);
  }

  /** Round trip from bytes for `call [rip + d]`. */
  lemma {:induction false} DecodeEncodeCall2(b: seq<byte>, i: Inst)
    requires FromBytes(b) == Some(i)
    requires i.Call2?
    ensures Encodable(i) && ToBytes(i) <= b
  {
    ToBytesWithDisp(i);
    assert b[..2] == [0xFF, 0x15] && i.rel == Disp(b, 2);
    OpcodeDispPrefix(b, [0xFF, 0x15]);
  }

  /** Round trip from bytes for `call rel32`. */
  lemma {:induction false} DecodeEncodeCall(b: seq<byte>, i: Inst)
    requires FromBytes(b) == Some(i)
    requires i.Call?
    ensures Encodable(i) && ToBytes(i) <= b
  {
    ToBytesWithDisp(i);
    assert b[..1] == [0xE8] && i.rel == Disp(b, 1);
    OpcodeDispPrefix(b, [0xE8]);
  }

  /** Round trip from bytes: every decoded instruction except a pushed
      immediate can be encoded, and its encoding is exactly the head of the
      buffer it came from. */
  lemma {:induction false} DecodeEncode(b: seq<byte>, i: Inst)
    requires FromBytes(b) == Some(i)
    ensures Encodable(i) <==> !(i.Push? && i.arg.Int?)
    ensures Encodable(i) ==> ToBytes(i) <= b
  {
    if i.Mov? || i.Lea? {
      DecodeEncodeRexW(b, i);
    } else if i.Jmp? {
      DecodeEncodeJmp(b, i);
    } else if i.Call2? {
      DecodeEncodeCall2(b, i);
    } else if i.Call? {
      DecodeEncodeCall(b, i);
    } else if (i.Push? && i.arg.Register?) || i.Pop? {
      DecodeEncodeReg(b, i);
    }
  }

  /** Round trip from bytes for pushes and pops of registers. */
  lemma {:induction false} DecodeEncodeReg(b: seq<byte>, i: Inst)
    requires FromBytes(b) == Some(i)
    requires (i.Push? && i.arg.Register?) || i.Pop?
    ensures Encodable(i) && ToBytes(i) <= b
  {
    var reg := if i.Pop? then i.reg else i.arg.reg;
    if IsHi(reg) {
      DecodeEncodeHiReg(b, i);
    } else {
      assert ToBytes(i) == b[..1];
    }
  }

  /** Round trip from bytes for `41` followed by a push or pop opcode. */
  lemma {:induction false} DecodeEncodeHiReg(b: seq<byte>, i: Inst)
    requires FromBytes(b) == Some(i)
    requires (i.Push? && i.arg.Register? && IsHi(i.arg.reg)) || (i.Pop? && IsHi(i.reg))
    ensures Encodable(i) && ToBytes(i) <= b
  {
    assert |b| >= 2 && b[0] == RexB;
    assert ToBytes(i) == b[..2];
  }

  /** Each opcode with a displacement, followed by the displacement's
      little-endian bytes, decodes to its instruction. */
  lemma DecodeDispEncodings(rel: i32)
    ensures FromBytes([0xE8] + ToLeBytes(rel)) == Some(Call(rel))
    ensures FromBytes([0xFF, 0x15] + ToLeBytes(rel)) == Some(Call2(rel))
    ensures FromBytes([0xFF, 0x25] + ToLeBytes(rel)) == Some(Jmp(rel))
    ensures FromBytes([RexW, 0x8D, 0x0D] + ToLeBytes(rel)) == Some(Lea(Rcx, Int(rel)))
    ensures FromBytes([RexW, 0x8B, 0x05] + ToLeBytes(rel)) == Some(Mov(Rax, Int(rel)))
  {
    DispAfterOpcode([0xE8], rel);
    DispAfterOpcode([0xFF, 0x15], rel);
    DispAfterOpcode([0xFF, 0x25], rel);
    DispAfterOpcode([RexW, 0x8D, 0x0D], rel);
    DispAfterOpcode([RexW, 0x8B, 0x05], rel);
  }

  /** Round trip from instructions for the encodings with a displacement. */
  lemma {:induction false} EncodeDecodeDisp(i: Inst)
    requires Encodable(i)
    requires RelAddr(i).Some? || i.Lea?
    ensures FromBytes(ToBytes(i)) == Some(i)
  {
    ToBytesWithDisp(i);
    match i
    case Call(rel) => DecodeDispEncodings(rel);
    case Call2(rel) => DecodeDispEncodings(rel);
    case Jmp(rel) => DecodeDispEncodings(rel);
    case Lea(_, src) => DecodeDispEncodings(src.value);
    case Mov(_, src) => DecodeDispEncodings(src.value);
  }

  /** Round trip from instructions for pushes and pops of registers. */
  lemma {:induction false} EncodeDecodeReg(i: Inst)
    requires Encodable(i)
    requires i.Pop? || i.Push?
    ensures FromBytes(ToBytes(i)) == Some(i)
  {
    var b := ToBytes(i);
    var reg := if i.Pop? then i.reg else i.arg.reg;
    if IsHi(reg) {
      assert FromHiUnchecked(b[1]) == reg;
    } else {
      assert FromLoUnchecked(b[0]) == reg;
    }
  }

  /** Round trip from instructions: decoding an encoding gives back the
      instruction. */
  lemma {:induction false} EncodeDecode(i: Inst)
    requires Encodable(i)
    ensures FromBytes(ToBytes(i)) == Some(i)
  {
    if RelAddr(i).Some? || i.Lea? {
      EncodeDecodeDisp(i);
    } else if i.Pop? || i.Push? {
      EncodeDecodeReg(i);
    }
  }

  /** Trailing bytes do not change a successful decode, except for the
      exact-length `0x6A ib` pattern, which no longer matches at all. */
  lemma {:induction false} DecodeIgnoresTail(b: seq<byte>, t: seq<byte>, i: Inst)
    requires FromBytes(b) == Some(i)
    ensures !(i.Push? && i.arg.Int?) ==> FromBytes(b + t) == Some(i)
    ensures i.Push? && i.arg.Int? && |t| > 0 ==> FromBytes(b + t) == None
  {
    var bt := b + t;
    assert forall k :: 0 <= k < |b| ==> bt[k] == b[k];
    if |b| >= 7 {
      assert Disp(bt, 3) == Disp(b, 3);
    }
    if |b| >= 6 {
      assert Disp(bt, 2) == Disp(b, 2);
    }
    if |b| >= 5 {
      assert Disp(bt, 1) == Disp(b, 1);
    }
  }

  /** `len` agrees with the encoding for every encodable instruction except a
      pushed hi register, whose encoding carries the 0x41 prefix. */
  lemma {:induction false} LenMatchesEncoding(i: Inst)
    requires Encodable(i)
    ensures |ToBytes(i)| == Len(i) <==> !(i.Push? && IsHi(i.arg.reg))
  {
  }

  /** Because `len(Push(_))` is 1, the iterator steps into the middle of
      `41 50` (push r8) and reads its second byte as `push rax`. */
  lemma PushLenSplitsExtendedPush()
    ensures ToBytes(Push(Register(R8))) == [RexB, 0x50]
    ensures Len(Push(Register(R8))) == 1
    ensures Items(IterFromBytes(0x1000, [RexB, 0x50]))
         == [WithIp(0x1000, Push(Register(R8))), WithIp(0x1001, Push(Register(Rax)))]
  {
    var it := IterFromBytes(0x1000, [RexB, 0x50]);
    var s1 := Next(it);
    assert [RexB, 0x50][0..] == [RexB, 0x50];
    assert FromHiUnchecked(0x50) == R8;
    assert s1.item == Some(WithIp(0x1000, Push(Register(R8))));
    var s2 := Next(s1.iter);
    assert [RexB, 0x50][1..] == [0x50];
    assert FromLoUnchecked(0x50) == Rax;
    assert s2.item == Some(WithIp(0x1001, Push(Register(Rax))));
    var s3 := Next(s2.iter);
    assert [RexB, 0x50][2..] == [];
    assert s3.item == None;
  }

  /** Because `len(Push(_))` is 1, after `6A ib` the iterator advances one
      byte and reads the immediate again as an opcode: over `6A 50` it yields
      the pushed immediate and then `push rax`. */
  lemma PushImmLenSplitsStream()
    ensures Len(Push(Int(0x50))) == 1
    ensures Items(IterFromBytes(0x1000, [0x6A, 0x50]))
         == [WithIp(0x1000, Push(Int(0x50))), WithIp(0x1001, Push(Register(Rax)))]
  {
    var it := IterFromBytes(0x1000, [0x6A, 0x50]);
    var s1 := Next(it);
    assert [0x6A, 0x50][0..] == [0x6A, 0x50];
    assert s1.item == Some(WithIp(0x1000, Push(Int(0x50))));
    var s2 := Next(s1.iter);
    assert [0x6A, 0x50][1..] == [0x50];
    assert FromLoUnchecked(0x50) == Rax;
    assert s2.item == Some(WithIp(0x1001, Push(Register(Rax))));
    var s3 := Next(s2.iter);
    assert [0x6A, 0x50][2..] == [];
    assert s3.item == None;
  }

  /** The displacement of a decoded instruction is the `i32` in the last four
      bytes of its pattern, so `abs_addr` adds it to the address where those
      bytes end. */
  lemma {:induction false} DisplacementEndsInstruction(b: seq<byte>, i: Inst, ip: nat)
    requires FromBytes(b) == Some(i)
    requires RelAddr(i).Some?
    ensures 4 <= Len(i) <= |b|
    ensures RelAddr(i) == Some(Disp(b, Len(i) - 4))
    ensures AbsAddr(WithIp(ip, i)) == Some(ip + Len(i) + Disp(b, Len(i) - 4))
  {
  }

  /** After a `None` every further call returns `None`. */
  lemma ExhaustedStaysExhausted(it: InstIter)
    requires it.offset <= |it.bytes|
    requires Next(it).item.None?
    ensures Next(Next(it).iter).item.None?
    ensures Items(it) == []
  {
  }

  /** The instructions whose encoding `len` describes exactly: everything
      `to_bytes` accepts except a push of R8..R15. */
  predicate Assemblable(i: Inst) {
    Encodable(i) && !(i.Push? && IsHi(i.arg.reg))
  }

  /** The encodings of a program, one after the other. */
  function Assemble(prog: seq<Inst>): (r: seq<byte>)
    requires forall k :: 0 <= k < |prog| ==> Assemblable(prog[k])
  {
    if |prog| == 0 then []
    else
      assert Assemblable(prog[0]);
      ToBytes(prog[0]) + Assemble(prog[1..])
  }

  /** A program laid out from address `ip`, each instruction starting where
      the previous one ends. */
  function Placed(ip: nat, prog: seq<Inst>): (r: seq<WithIp>)
    ensures |r| == |prog|
    decreases |prog|
  {
    if |prog| == 0 then [] else [WithIp(ip, prog[0])] + Placed(ip + Len(prog[0]), prog[1..])
  }

  /** The layout holds the program's instructions in order, the first at
      `ip` and each at the `next_ip` of the one before. */
  lemma {:induction false} PlacedLayout(ip: nat, prog: seq<Inst>)
    ensures var r := Placed(ip, prog);
            && (forall k :: 0 <= k < |r| ==> r[k].inst == prog[k])
            && (|r| > 0 ==> r[0].ip == ip)
            && (forall k :: 0 <= k < |r| - 1 ==> r[k + 1].ip == NextIp(r[k]))
    decreases |prog|
  {
    if |prog| > 0 {
      PlacedLayout(ip + Len(prog[0]), prog[1..]);
    }
  }

  /** At the end of the buffer the iterator yields nothing. */
  lemma ItemsAtEnd(it: InstIter)
    requires it.offset == |it.bytes|
    ensures Items(it) == []
  {
    assert it.bytes[it.offset..] == [];
  }

  /** A step that yields `w` and moves to `next` puts `w` in front of what
      `next` yields. */
  lemma ItemsCons(it: InstIter, w: WithIp, next: InstIter)
    requires it.offset <= |it.bytes|
    requires Next(it) == Step(next, Some(w))
    ensures Items(it) == [w] + Items(next)
  {
  }

  /** `bytes` from `offset` on decodes, instruction after instruction, to
      exactly the program `prog`, and ends where the program does. */
  predicate DecodesTo(bytes: seq<byte>, offset: nat, prog: seq<Inst>)
    decreases |prog|
  {
    && offset <= |bytes|
    && if |prog| == 0 then offset == |bytes|
       else FromBytes(bytes[offset..]) == Some(prog[0])
            && DecodesTo(bytes, offset + Len(prog[0]), prog[1..])
  }

  /** The encoding of an assemblable instruction, followed by anything,
      decodes to that instruction, and `len` skips exactly the encoding. */
  lemma {:induction false} DecodeEncodingHead(i: Inst, tail: seq<byte>)
    requires Assemblable(i)
    ensures FromBytes(ToBytes(i) + tail) == Some(i)
    ensures Len(i) == |ToBytes(i)|
  {
    EncodeDecode(i);
    DecodeIgnoresTail(ToBytes(i), tail, i);
    LenMatchesEncoding(i);
  }

  /** An assembled program decodes back to itself. */
  lemma {:induction false} AssembledDecodes(bytes: seq<byte>, offset: nat, prog: seq<Inst>)
    requires offset <= |bytes|
    requires forall k :: 0 <= k < |prog| ==> Assemblable(prog[k])
    requires bytes[offset..] == Assemble(prog)
    ensures DecodesTo(bytes, offset, prog)
    decreases |prog|
  {
    if |prog| > 0 {
      var i := prog[0];
      var b := ToBytes(i);
      assert Assemblable(i);
      assert bytes[offset..] == b + Assemble(prog[1..]);
      DecodeEncodingHead(i, Assemble(prog[1..]));
      assert bytes[offset + |b|..] == bytes[offset..][|b|..] == Assemble(prog[1..]);
      AssembledDecodes(bytes, offset + Len(i), prog[1..]);
    }
  }

  /** Iterating over a buffer that decodes to `prog` from the cursor on
      yields that program, instruction by instruction, at the addresses its
      lengths lay it out at. */
  lemma {:induction false} ItemsOfDecoded(it: InstIter, ip: nat, prog: seq<Inst>)
    requires DecodesTo(it.bytes, it.offset, prog)
    requires ip == it.ip + it.offset
    ensures Items(it) == Placed(ip, prog)
    decreases |prog|
  {
    if |prog| == 0 {
      ItemsAtEnd(it);
    } else {
      var next := it.(offset := it.offset + Len(prog[0]));
      DecodesToTail(it.bytes, it.offset, prog);
      ItemsOfDecoded(next, ip + Len(prog[0]), prog[1..]);
      ItemsPlacedStep(it, next, ip, prog);
    }
  }

  /** What follows the first instruction decodes to the rest of the
      program. */
  lemma DecodesToTail(bytes: seq<byte>, offset: nat, prog: seq<Inst>)
    requires DecodesTo(bytes, offset, prog) && |prog| > 0
    ensures DecodesTo(bytes, offset + Len(prog[0]), prog[1..])
  {
  }

  /** Where the first instruction of `prog` decodes at the cursor and the
      rest of the iteration lays out the rest of `prog`, the whole iteration
      lays out `prog`. */
  lemma ItemsPlacedStep(it: InstIter, next: InstIter, ip: nat, prog: seq<Inst>)
    requires DecodesTo(it.bytes, it.offset, prog) && |prog| > 0
    requires next == it.(offset := it.offset + Len(prog[0]))
    requires ip == it.ip + it.offset
    requires next.offset <= |next.bytes|
    requires Items(next) == Placed(ip + Len(prog[0]), prog[1..])
    ensures Items(it) == Placed(ip, prog)
  {
    ItemsCons(it, WithIp(ip, prog[0]), next);
    PlacedCons(ip, prog, Items(next));
  }

  /** A program laid out from `ip` is its first instruction at `ip`
      followed by the others laid out from where the first one ends. */
  lemma PlacedCons(ip: nat, prog: seq<Inst>, rest: seq<WithIp>)
    requires |prog| > 0 && rest == Placed(ip + Len(prog[0]), prog[1..])
    ensures Placed(ip, prog) == [WithIp(ip, prog[0])] + rest
  {
  }

  /** Disassembling an assembled program from address `ip` gives the program
      back, laid out from `ip`. */
  lemma DisassembleAssemble(ip: nat, prog: seq<Inst>)
    requires forall k :: 0 <= k < |prog| ==> Assemblable(prog[k])
    ensures Items(IterFromBytes(ip, Assemble(prog))) == Placed(ip, prog)
  {
    var bytes := Assemble(prog);
    assert bytes[0..] == bytes;
    AssembledDecodes(bytes, 0, prog);
    ItemsOfDecoded(IterFromBytes(ip, bytes), ip, prog);
  }

  /** A stream of push rax, an indirect call, pop rax and ret. */
  const ExampleStream: seq<byte> := [0x50, 0xFF, 0x15, 0x69, 0x69, 0x69, 0x69, 0x58, 0xC3]

  /** The example stream decodes, one instruction at a time, to push rax,
      the indirect call, pop rax and ret, and nothing after the last byte. */
  lemma ExampleStreamDecodes()
    ensures FromBytes(ExampleStream[0..]) == Some(Push(Register(Rax)))
    ensures FromBytes(ExampleStream[1..]) == Some(Call2(0x6969_6969))
    ensures FromBytes(ExampleStream[7..]) == Some(Pop(Rax))
    ensures FromBytes(ExampleStream[8..]) == Some(Ret)
    ensures FromBytes(ExampleStream[9..]) == None
  {
    assert ExampleStream[0..] == ExampleStream;
    assert FromLoUnchecked(0x50) == Rax;
    assert ExampleStream[1..] == [0xFF, 0x15, 0x69, 0x69, 0x69, 0x69, 0x58, 0xC3];
    assert FromLeBytes(0x69, 0x69, 0x69, 0x69) == 0x6969_6969;
    assert ExampleStream[7..] == [0x58, 0xC3];
    assert FromLoUnchecked(0x58) == Rax;
    assert ExampleStream[8..] == [0xC3];
    assert ExampleStream[9..] == [];
  }

  /** Each call of `next` on the example stream at base 0x1000. */
  lemma ExampleStreamSteps(it: InstIter)
    requires it == IterFromBytes(0x1000, ExampleStream)
    ensures Next(it.(offset := 9)) == Step(it.(offset := 9), None)
    ensures Next(it.(offset := 8)) == Step(it.(offset := 9), Some(WithIp(0x1008, Ret)))
    ensures Next(it.(offset := 7)) == Step(it.(offset := 8), Some(WithIp(0x1007, Pop(Rax))))
    ensures Next(it.(offset := 1))
         == Step(it.(offset := 7), Some(WithIp(0x1001, Call2(0x6969_6969))))
    ensures Next(it) == Step(it.(offset := 1), Some(WithIp(0x1000, Push(Register(Rax)))))
  {
    ExampleStreamDecodes();
  }

  /** The example stream at base 0x1000 yields push rax, the indirect call,
      pop rax and ret at 0x1000, 0x1001, 0x1007 and 0x1008, then ends; the
      call's target is resolved against 0x1007. */
  lemma StreamExample()
    ensures Items(IterFromBytes(0x1000, ExampleStream))
            == [ WithIp(0x1000, Push(Register(Rax))),
                 WithIp(0x1001, Call2(0x6969_6969)),
                 WithIp(0x1007, Pop(Rax)),
                 WithIp(0x1008, Ret) ]
    ensures AbsAddr(WithIp(0x1001, Call2(0x6969_6969))) == Some(0x1007 + 0x6969_6969)
  {
    var it := IterFromBytes(0x1000, ExampleStream);
    ExampleStreamSteps(it);
    assert Items(it.(offset := 9)) == [];
    assert Items(it.(offset := 8)) == [WithIp(0x1008, Ret)];
    assert Items(it.(offset := 7)) == [WithIp(0x1007, Pop(Rax)), WithIp(0x1008, Ret)];
    assert Items(it.(offset := 1))
        == [WithIp(0x1001, Call2(0x6969_6969)), WithIp(0x1007, Pop(Rax)), WithIp(0x1008, Ret)];
  }

  /** The example vectors decode to the instructions they encode and encode
      back to themselves. */
  lemma ExampleVectors()
    ensures FromBytes([RexW, 0x8B, 0x05, 0x5C, 0x4D, 0x99, 0x01])
         == Some(Mov(Rax, Int(0x0199_4D5C)))
    ensures ToBytes(Mov(Rax, Int(0x0199_4D5C))) == [RexW, 0x8B, 0x05, 0x5C, 0x4D, 0x99, 0x01]
    ensures FromBytes([0xE8, 0x70, 0xB2, 0x5E, 0x00]) == Some(Call(0x005E_B270))
    ensures ToBytes(Call(0x005E_B270)) == [0xE8, 0x70, 0xB2, 0x5E, 0x00]
    ensures FromBytes([0x41, 0x5F]) == Some(Pop(R15))
    ensures ToBytes(Pop(R15)) == [0x41, 0x5F]
  {
    MovExample();
    CallExample();
    assert FromHiUnchecked(0x5F) == R15;
  }

  /** `0F` followed by anything but `05` starts no pattern, so `0F 0B` does
      not decode. */
  lemma NoPatternExample()
    ensures FromBytes([0x0F, 0x0B]) == None
  {
  }

  lemma MovExample()
    ensures FromBytes([RexW, 0x8B, 0x05, 0x5C, 0x4D, 0x99, 0x01])
         == Some(Mov(Rax, Int(0x0199_4D5C)))
    ensures ToBytes(Mov(Rax, Int(0x0199_4D5C))) == [RexW, 0x8B, 0x05, 0x5C, 0x4D, 0x99, 0x01]
  {
    var b: seq<byte> := [RexW, 0x8B, 0x05, 0x5C, 0x4D, 0x99, 0x01];
    assert FromLeBytes(0x5C, 0x4D, 0x99, 0x01) == 0x0199_4D5C;
    assert FromBytes(b) == Some(Mov(Rax, Int(0x0199_4D5C)));
    DecodeEncode(b, Mov(Rax, Int(0x0199_4D5C)));
    assert b[..7] == b;
  }

  lemma CallExample()
    ensures FromBytes([0xE8, 0x70, 0xB2, 0x5E, 0x00]) == Some(Call(0x005E_B270))
    ensures ToBytes(Call(0x005E_B270)) == [0xE8, 0x70, 0xB2, 0x5E, 0x00]
  {
    var b: seq<byte> := [0xE8, 0x70, 0xB2, 0x5E, 0x00];
    assert FromLeBytes(0x70, 0xB2, 0x5E, 0x00) == 0x005E_B270;
    assert FromBytes(b) == Some(Call(0x005E_B270));
    DecodeEncode(b, Call(0x005E_B270));
    assert b[..5] == b;
  }
}
