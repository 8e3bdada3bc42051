# dismal: a model of a small x86-64 instruction codec

`dismal` decodes and encodes a handful of x86-64 instructions — RIP-relative
`call`, `jmp`, `mov rax` and `lea rcx`, `push`/`pop` of the sixteen
general-purpose registers, `push imm8`, `ret` and `syscall` — and walks a
byte buffer instruction by instruction, attaching to each instruction the
address it starts at. This project models that codec in Dafny:

- `Bytes` (bytes.dfy): unsigned bytes, the bit operations the codec applies
  to them (`& 0b0111`, `& 0b1000`, `& !0b1000`, `|`), and `i32::to_le_bytes` /
  `i32::from_le_bytes` written out as two's-complement base-256 arithmetic.
- `Registers` (reg.dfy, src/reg.rs): the register enum, the lo/hi halves,
  base bits and full register numbers, and `Reg::try_parse`.
- `Encoding` (encoder.dfy, src/encoder.rs): the append-only, 15-byte
  output buffer whose writes are unchecked; each write's `requires` is the
  capacity obligation the caller must meet.
- `Dismal` (lib.dfy, src/lib.rs): the library's `Inst`, `from_bytes`,
  `to_bytes`, `len`, `rel_addr`, `WithIp` with `next_ip`/`abs_addr`, and
  `InstIter`.
- `DismalBin` (main.dfy, src/main.rs): the binary's older, smaller codec
  with its own `Inst`, its catch-all `pop` decoder, encoder, `len` and
  iterator, and the vectors its `main` exercises.

Decoding is an ordered list of byte patterns where the first match wins;
every pattern is modelled in the source's order, with the same lengths and
the same "exactly two bytes" restriction on `6A ib`. Points where the code
departs from x86 conventions or from what its encodings suggest:

- the immediate of `6A ib` is the byte zero-extended (`*byte as i32` on a
  `u8`), not sign-extended;
- `len` of every `Push` is 1, although an extended push encodes as two bytes
  and `6A ib` is two bytes long; `Dismal.LenMatchesEncoding` and
  `Dismal.PushLenSplitsExtendedPush` state the consequences for the extended
  push, and `Dismal.PushImmLenSplitsStream` and
  `DismalBin.PushImmLenSplitsStream` show the iterator reading the immediate
  of `6A ib` again as an opcode;
- in the binary, the last pattern turns every remaining non-empty buffer
  into a `pop` read from the head byte alone, so decoding fails only on the
  empty buffer.

Restricted to the instructions whose `len` is exact — everything `to_bytes`
accepts except a push of R8..R15 — the codec and the iterator compose:
`Dismal.DisassembleAssemble` shows that iterating over the concatenated
encodings of such a program yields the program back, each instruction at
the address where the previous one ends.

`Reg::from_hi_unchecked` and `Reg::from_lo_unchecked` are called by
src/lib.rs but defined nowhere in src/reg.rs; the model assumes they keep
the low three bits and look them up in the hi (resp. lo) table, which is
the only reading under which `from_bytes` and `to_bytes` agree.

## Model

| member | source | states |
|---|---|---|
| Registers.IsHi | src/reg.rs:56-62 | R8..R15 are the hi registers |
| Registers.IsLo | src/reg.rs:51-54 | Rax..Rdi, and only they, are the lo registers, the complement of the hi ones |
| Registers.FromLo | src/reg.rs:84-98 | a lookup succeeds exactly for the bit patterns 0..7, and always yields a lo register |
| Registers.FromHi | src/reg.rs:101-115 | a lookup succeeds exactly for the bit patterns 0..7, and always yields a hi register |
| Registers.ToLo | src/reg.rs:117-132 | the base bits of a lo register are at most 7 and looking them up among the lo registers gives the register back |
| Registers.ToHi | src/reg.rs:134-149 | the base bits of a hi register are at most 7 and looking them up among the hi registers gives the register back |
| Registers.BaseBits | src/reg.rs:64-71 | the three base bits identify the register within its own half |
| Registers.Bits | src/reg.rs:73-80 | the register number is a four-bit value whose low three bits are the base bits and whose bit 3 is set exactly for R8..R15 |
| Registers.TryParse | src/reg.rs:39-49 | every byte parses; the result's base bits are the byte's low three bits, and it is a lo register exactly when bit 3 is set (the reverse of `bits`) |
| Registers.FromHiUnchecked | src/lib.rs:74-79 | the hi register whose base bits are the byte's low three bits |
| Registers.FromLoUnchecked | src/lib.rs:84-90 | the lo register whose base bits are the byte's low three bits |
| Registers.HiIffNumberAtLeastEight | src/reg.rs:56-80 | exactly the hi registers have a number of 8 or more |
| Registers.BaseBitsOrder | src/reg.rs:117-149 | base bits follow declaration order, 0..7 in each half |
| Registers.BitsInjective | src/reg.rs:73-80 | distinct registers have distinct numbers |
| Registers.BitsSurjective | src/reg.rs:73-80 | every number 0..15 names a register |
| Registers.TryParseLowNibble | src/reg.rs:39-49 | `try_parse` depends only on the low four bits of its input |
| Registers.TryParseHalves | src/reg.rs:39-49 | with bit 3 set `try_parse` consults the lo table, otherwise the hi table |
| Bytes.Unsigned | src/encoder.rs:20-25 | the two's-complement bit pattern of an `i32` is below 2^32 and congruent to it modulo 2^32 |
| Bytes.ToLeBytes | src/encoder.rs:22 | an `i32` becomes four bytes, the sign being the top bit of the last one |
| Bytes.FromLeBytes | src/lib.rs:50 | four little-endian bytes read as an `i32` are negative exactly when the top bit of the last byte is set |
| Bytes.FromToLeBytes | src/encoder.rs:20-25 | reading back the little-endian bytes of an `i32` gives the value |
| Bytes.ToFromLeBytes | src/lib.rs:49-50 | the little-endian bytes of the `i32` read from four bytes are those four bytes |
| Bytes.ClearBit3 | src/main.rs:32-35 | clearing bit 3 keeps the low three bits and the high nibble |
| Bytes.OrLow3 | src/lib.rs:124-129 | OR-ing base bits into an opcode with clear low bits puts them in the low three bits and keeps the opcode |
| Encoding.New | src/encoder.rs:8-13 | a new buffer is empty and within capacity |
| Encoding.WriteU8 | src/encoder.rs:15-18 | with room for it, the byte is appended and nothing before it changes |
| Encoding.WriteBytes | src/encoder.rs:27-30 | with room for them, the bytes are appended in order and nothing before them changes |
| Encoding.WriteI32 | src/encoder.rs:20-25 | four bytes are appended, the prefix is kept, and reading those bytes as a little-endian `i32` gives the value |
| Encoding.IntoVec | src/encoder.rs:32-35 | the vector holds exactly the written bytes and at most 15 of them |
| Dismal.Len | src/lib.rs:164-185 | every length is between 1 and 15 |
| Dismal.FromBytes | src/lib.rs:35-96 | a decoded instruction's length never exceeds the buffer |
| Dismal.ToBytes | src/lib.rs:98-149 | every encoding is 1 to 7 bytes, so the unchecked writes never overflow the 15-byte buffer |
| Dismal.RelAddr | src/lib.rs:151-163 | a displacement is present exactly for `call`, indirect `call`, `jmp` and `mov rax, [rip + d]` |
| Dismal.NextIp | src/lib.rs:225-231 | the next address lies `len` bytes after the instruction's own, between 1 and 15 bytes on |
| Dismal.AbsAddr | src/lib.rs:209-217 | an absolute address exists exactly when a displacement does, and it is the displacement added to the address of the following instruction |
| Dismal.IterFromBytes | src/lib.rs:257-262 | a fresh iterator sits at the start of the buffer |
| Dismal.Next | src/lib.rs:268-282 | a step yields the instruction decoded at the cursor with address `ip + offset`, advances the cursor to where that instruction ends and keeps it inside the buffer; a failed decode changes nothing |
| Dismal.Items | src/lib.rs:265-282 | the yielded instructions lie inside the buffer's address range and each starts where the previous one ends |
| Dismal.ToBytesWithDisp | src/lib.rs:104-123 | an instruction with a displacement encodes as its opcode bytes followed by the displacement's little-endian bytes |
| Bytes.OpcodeDispPrefix | src/lib.rs:49-65 | opcode bytes followed by the re-encoded displacement read after them are a prefix of the buffer |
| Bytes.DispAfterOpcode | src/lib.rs:104-123 | after the opcode bytes of an encoding the decoder finds the encoded displacement |
| Dismal.Encodable | src/lib.rs:103-144 | the instructions `to_bytes` handles without reaching `unreachable!()`: every `call`, `jmp`, `pop`, `ret`, `syscall`, `mov rax` and `lea rcx` from a displacement, and a push of a register |
| Dismal.DecodePushImm | src/lib.rs:67-68 | a pushed immediate is decoded exactly from a two-byte buffer `6A ib`, the immediate being the byte zero-extended |
| Dismal.DecodeByHead | src/lib.rs:35-96 | a buffer whose head byte starts no pattern does not decode, and a `ret` or one-byte `push`/`pop` head always decodes to a one-byte instruction |
| Dismal.DecodeEncodeRexW | src/lib.rs:48-56 | a decoded `mov rax` or `lea rcx` re-encodes to the head of its buffer |
| Dismal.DecodeEncodeJmp | src/lib.rs:58-59 | a decoded `jmp` re-encodes to the head of its buffer |
| Dismal.DecodeEncodeCall2 | src/lib.rs:61-62 | a decoded indirect `call` re-encodes to the head of its buffer |
| Dismal.DecodeEncodeCall | src/lib.rs:64-65 | a decoded `call rel32` re-encodes to the head of its buffer |
| Dismal.DecodeEncode | src/lib.rs:35-149 | every decoded instruction except a pushed immediate can be encoded, and its encoding is the head of the buffer it was decoded from |
| Dismal.EncodeDecodeDisp | src/lib.rs:99-123 | instructions with a displacement decode back from their encoding |
| Dismal.EncodeDecodeReg | src/lib.rs:124-137 | pushes and pops of registers decode back from their encoding |
| Dismal.EncodeDecode | src/lib.rs:35-149 | every encodable instruction decodes back from its encoding |
| Dismal.DecodeIgnoresTail | src/lib.rs:35-96 | appending bytes never changes a successful decode, except that `6A ib` stops matching |
| Dismal.LenMatchesEncoding | src/lib.rs:166-185 | `len` equals the encoding's length for every encodable instruction except a push of R8..R15 |
| Dismal.PushLenSplitsExtendedPush | src/lib.rs:268-282 | over `41 50` the iterator yields `push r8` and then `push rax` one byte later |
| Dismal.PushImmLenSplitsStream | src/lib.rs:180 | `len` of a pushed immediate is 1, so over `6A 50` the iterator yields the immediate at 0x1000 and then `push rax` at 0x1001 |
| Dismal.DisplacementEndsInstruction | src/lib.rs:209-217 | a decoded displacement is the last four bytes of its instruction, so `abs_addr` adds it to the address where it ends |
| Dismal.ExhaustedStaysExhausted | src/lib.rs:268-282 | once `next` returns `None` it keeps returning `None` |
| Dismal.Placed | src/lib.rs:225-231 | the reference layout of a program from an address has one entry per instruction |
| Dismal.PlacedLayout | src/lib.rs:225-231 | that layout holds the program's instructions in order, the first at the start address and each at the `next_ip` of the one before |
| Dismal.DecodeOpcodeTable | src/lib.rs:70-90 | `0F 05` decodes to `syscall`, `C3` to `ret`, `50+r`/`58+r` to a push/pop of the lo register with base bits `r`, and `41` followed by `50+r`/`58+r` to a push/pop of the hi register with base bits `r` |
| Dismal.EncodeOpcodeTable | src/lib.rs:124-143 | `syscall` encodes as `0F 05`, `ret` as `C3`, and a register push/pop as `50`/`58` plus its base bits, preceded by `41` for R8..R15 |
| Dismal.DecodeDispEncodings | src/lib.rs:48-65 | each opcode that carries a displacement, followed by the displacement's little-endian bytes, decodes to its instruction with that displacement |
| Dismal.DecodeEncodeHiReg | src/lib.rs:73-79 | a decoded `push` or `pop` of R8..R15 re-encodes to the two bytes at the head of its buffer |
| Dismal.DecodeEncodeReg | src/lib.rs:73-90 | a decoded register `push` or `pop` re-encodes to the head of its buffer, one byte or two |
| Dismal.DecodeEncodingHead | src/lib.rs:35-185 | the encoding of an instruction `len` describes exactly decodes to it whatever follows, and `len` is its length |
| Dismal.AssembledDecodes | src/lib.rs:35-185 | the concatenated encodings of a program decode, one instruction at a time and `len` bytes apart, back to the program, ending at the end of the buffer |
| Dismal.ItemsOfDecoded | src/lib.rs:268-282 | over a buffer that decodes instruction by instruction to a program, the iterator yields exactly that program, each instruction at the address where the previous one ends |
| Dismal.DisassembleAssemble | src/lib.rs:256-282 | iterating from address `ip` over an assembled program yields the program back, laid out from `ip` |
| Dismal.ExampleStreamDecodes | src/lib.rs:35-96 | the stream `50 FF15 69696969 58 C3` decodes instruction by instruction to push rax, indirect call, pop rax, ret, then nothing |
| Dismal.ExampleStreamSteps | src/lib.rs:268-282 | each `next` on that stream at base 0x1000 yields the expected address and cursor |
| Dismal.StreamExample | src/lib.rs:256-282 | that stream at base 0x1000 yields instructions at 0x1000, 0x1001, 0x1007 and 0x1008 and then ends; the call resolves against 0x1007 |
| Dismal.ExampleVectors | examples/foo.rs:17-31 | the example vectors `48 8B 05 …`, `E8 …` and `41 5F` decode to `mov rax`, `call`, `pop r15` and encode back to themselves |
| Dismal.NoPatternExample | src/lib.rs:71-92 | `0F` followed by a byte other than `05` starts no pattern, so `0F 0B` does not decode |
| Dismal.MovExample | examples/foo.rs:18 | `48 8B 05 5C 4D 99 01` is `mov rax, [rip + 0x01994D5C]` and re-encodes to itself |
| Dismal.CallExample | examples/foo.rs:20 | `E8 70 B2 5E 00` is `call 0x005EB270` and re-encodes to itself |
| DismalBin.TryParsePopOne | src/main.rs:27-30 | every byte parses; the register's base bits are the byte's low bits and it is lo exactly when bit 3 is set |
| DismalBin.TryParsePopTwo | src/main.rs:32-35 | every byte parses to the hi register named by its low three bits |
| DismalBin.Len | src/main.rs:114-132 | every length is between 1 and 15 |
| DismalBin.FromBytes | src/main.rs:38-75 | decoding fails exactly on the empty buffer |
| DismalBin.ToBytes | src/main.rs:77-112 | every encoding is exactly `len` bytes long |
| DismalBin.IterFromBytes | src/main.rs:175-182 | a fresh iterator sits at the start of the buffer |
| DismalBin.Next | src/main.rs:187-201 | a step yields the instruction decoded at the cursor with address `ip + offset` and advances the cursor by its length; it returns `None` exactly at the end of the buffer |
| DismalBin.PopTwoIsExtended | src/main.rs:62-63 | `41` followed by any byte decodes as `pop` of the hi register named by the second byte's low bits |
| DismalBin.FallbackIsPop | src/main.rs:68-69 | a head byte no earlier pattern claims decodes as a `pop` read from that byte alone, lo exactly when bit 3 is set |
| DismalBin.Encodable | src/main.rs:82-107 | the instructions the binary's `to_bytes` handles without reaching `unreachable!()`: `call`, `pop`, `ret`, `syscall`, `lea rcx` from a displacement, and `push rax` |
| DismalBin.DecodePushImm | src/main.rs:57 | a pushed immediate is decoded exactly from a two-byte buffer `6A ib`, zero-extended; with a third byte the same head falls through to `pop` |
| DismalBin.DecodeDispEncodings | src/main.rs:51-54 | `FF 15` and `48 8D 0D` followed by the little-endian bytes of a displacement decode to `call` and `lea rcx` with that displacement |
| DismalBin.DecodeOpcodeTable | src/main.rs:55-66 | `50` decodes to `push rax`, `0F 05` to `syscall` and `C3` to `ret`, whatever follows |
| DismalBin.EncodeOpcodeTable | src/main.rs:83-106 | `call` and `lea rcx` encode as their opcode bytes followed by the displacement's little-endian bytes, `push rax` as `50`, `ret` as `C3`, `syscall` as `0F 05`, and a `pop` as `58` plus its base bits, preceded by `41` for R8..R15 |
| DismalBin.EncodeDecodeDisp | src/main.rs:51-54 | `call` and `lea` decode back from their encoding with the same displacement |
| DismalBin.EncodeDecodePop | src/main.rs:62-69 | every `pop` decodes back from its encoding, one byte or two |
| DismalBin.EncodeDecode | src/main.rs:39-112 | every encodable instruction decodes back from its encoding |
| DismalBin.DecodeEncode | src/main.rs:39-112 | every decoded instruction but a pushed immediate is encodable; non-`pop` encodings are the head of their buffer, and a `pop`'s is exactly when the buffer starts with a genuine pop opcode |
| DismalBin.DecodeIgnoresTail | src/main.rs:38-75 | appending bytes never changes a decoded non-`pop` instruction, except that `6A ib` then falls through to `pop rdx` |
| DismalBin.PushImmLenSplitsStream | src/main.rs:127 | `len` of a pushed immediate is 1, so over `6A 58` the first step yields the immediate at 0x1000 with the cursor at 1 and the second yields `pop rax` at 0x1001 |
| DismalBin.DecodedPop | src/main.rs:62-97 | a decoded `pop` re-encodes to the head of its buffer exactly when the opcode byte is in 0x58..0x5F |
| DismalBin.ZeroByteDoesNotRoundTrip | src/main.rs:68-97 | byte 0x00 decodes as `pop r8`, which encodes as `41 58` |
| DismalBin.LenFitsUnlessShortPop | src/main.rs:114-132 | a decoded instruction's length fits in its buffer except for a single byte decoded as a hi `pop` |
| DismalBin.TailChangesDecode | src/main.rs:51-69 | the bytes after the head decide the decode: `FF` alone is `pop rdi` but `FF 15` and four bytes is a `call`; `41` alone is `pop r9` but `41 58` is `pop r8` |
| DismalBin.NextOverrunsBuffer | src/main.rs:187-201 | from the buffer `41`, `next` yields `pop r9` and moves the cursor past the end |
| DismalBin.DriverVectors | src/main.rs:218-228 | the driver's five vectors decode to push rax, indirect call, pop rax, ret, pop r15 and each re-encodes to itself |

## Left out

- Printing: `test` in src/main.rs and examples/foo.rs formats and prints; the model states what it would print as decode/encode lemmas.
- `WithIp::ip`, `WithIp::display` and the `Deref` impls are field accessors; the model reads the datatype fields directly.
- `WithIp::new` is the datatype constructor `WithIp`.
- The `pancake::Vec<u8, 15>` type is a sequence; its unchecked pushes are modelled through the `requires` of `Encoding.WriteU8` and `Encoding.WriteBytes`.
- Dismal.NextIp: addresses are unbounded integers, so the `usize` addition never wraps.
- Dismal.AbsAddr: returns the mathematical sum; the source's `isize` addition and the `as usize` cast wrap for addresses near the ends of the address space, which the model does not reproduce.
- DismalBin.Next: requires the cursor to be inside the buffer, as the slice `bytes[offset..]` does; the source panics otherwise, which `DismalBin.NextOverrunsBuffer` shows can happen.
- The binary's iterator has no `Items` sequence: its cursor can leave the buffer, so the sequence of yielded items is not well defined in the model.
- `Reg::from_hi_unchecked` and `Reg::from_lo_unchecked` are not defined in src/reg.rs; their behaviour is an assumption stated above.
