# x64asm assembler core in Dafny

This project models the byte encoder at the heart of the x64asm x86-64
assembler, together with the register model that encoder reads.

- **Encoding helpers.** Instructions reach the encoder as emit calls. Each call writes a few bytes at the buffer
  cursor:
  - legacy prefixes and the address-size override 0x67;
  - opcode bytes, optionally with a register number added into the last byte;
  - little-endian immediates of 1, 2, 4 and 8 bytes;
  - the REX prefix;
  - the ModR/M byte, with its SIB byte and displacement for memory operands.
- **The `Assembler` object.** It owns the output buffer and the cursor, the
  label table, and the list of 32-bit relative jump fields still waiting
  for a target.
  - Assembling a program binds labels and writes code.
  - `finish` then patches every recorded field with the distance from the end of
    the field to its label. A label that was never bound gets zero.
  - `write_binary` and `write_hex` run the whole pipeline and print the bytes.
    `write_hex` prints two hex digits per byte and starts a new line where each
    instruction ended.

Modules:

- `Bits` (`bits.dfy`): the byte type, little-endian stores, two's-complement reading, bitwise OR, and `Write`. `Write` is a run of bytes laid over a buffer image, and every emitter is specified by it.
- `Registers` (`registers.dfy`): register classes, their encodings, and the parent register.
- `Operands` (`operands.dfy`): memory operands, labels and instructions.
- `Encoding` (`encoding.dfy`): the ModR/M/SIB lookup table and the bytes each encoder routine produces, as functions, with their field-level properties.
- `Decoding` (`decoding.dfy`): an independent reader of REX, ModR/M, SIB and displacement bytes, following the Intel SDM Vol. 2A tables 2-2 and 2-3. Round-trip lemmas show that the encoder's bytes read back as the operands they encode.
- `Emitters` (`emitters.dfy`): the emit routines as methods over an `array<byte>` and a cursor. Each one is proved equal to `Write` of the bytes its function computes.
- `HexText` (`hexdump.dfy`): the text `write_hex` prints, and a parser for it that serves as its inverse.
- `Assembly` (`assembler.dfy`): the `Assembler` class, plus the functions that specify a whole program's image, label table, line breaks and patched image.

## Model

| member | source | states |
|---|---|---|
| Bits.LittleEndian | src/assembler/assembler.cc:161-174 | an n-byte store writes exactly n bytes |
| Bits.LittleEndianRoundTrip | src/assembler/assembler.cc:161-174 | reading back an n-byte store gives the value modulo 256^n (truncation of the immediate) |
| Bits.LittleEndianSignedRoundTrip | src/assembler/assembler.cc:166-169 | a value in the signed n-byte range reads back as itself when the stored bytes are taken as two's complement |
| Bits.ByteOr | src/assembler/assembler.cc:259-263 | `a \| b` on bytes: every bit is the OR of the operands' bits, the result is zero only when both are, and it stays below 16 for flags below 16 |
| Bits.Write | src/assembler/assembler.cc:97-99 | writing bytes at a position keeps the length, puts exactly those bytes there and leaves every other byte unchanged |
| Bits.WriteThenWrite | src/assembler/assembler.cc:97-99 | two adjacent writes equal one write of the concatenated bytes, so consecutive emits compose |
| Registers.Width | src/code/r.h:14-190 | every register is 8, 16, 32 or 64 bits wide |
| Registers.Parent | src/code/r.h:25-56 | the parent is a 64-bit register; only the high-byte class, which alone overrides `parent()`, departs from the shared rule (the rule itself is listed under Left out) |
| Registers.FixedEncodings | src/code/r.h:75-196 | AL, CL, AX, DX, EAX and RAX have encodings 0, 1, 0, 2, 0, 0; EAX and RAX differ only in width |
| Registers.ByteClassesDisjoint | src/code/r.h:29-72 | each byte register is in exactly one class: Rl is encodings 0-3, only Rb reaches 8-15, and Rh shares 4-7 with Rb |
| Registers.AddressCapableClasses | src/code/r.h:137-190 | exactly the 32- and 64-bit registers can form addresses |
| Registers.ParentOverriddenOnlyForHighBytes | src/code/r.h:25-56 | the parent keeps the encoding if and only if the register is not a high byte; a high byte shares its parent with its low-byte partner; parent is idempotent |
| Encoding.TableFormula | src/assembler/assembler.cc:14-84 | the table is 4×16×16, and entry [mod][rm][r] is `mod<<6 \| (r&7)<<3 \| (rm&7)` |
| Encoding.ModRm | src/assembler/assembler.cc:86-90 | the byte's mode, reg and r/m fields are `mod`, the low 3 bits of `r` and the low 3 bits of `rm` |
| Encoding.Sib | src/assembler/assembler.cc:92-95 | the transposed lookup gives a byte whose scale, index and base fields are the arguments' low bits |
| Encoding.MemMod | src/assembler/assembler.cc:216-224 | the mode chosen for a memory operand is never 3 |
| Encoding.MemHeadBytes | src/assembler/assembler.cc:227-233 | one ModR/M byte, plus a SIB byte exactly when there is no base, there is an index, or the base is RSP/R12 |
| Encoding.MemModField | src/assembler/assembler.cc:216-224 | the emitted mode is 0 with no base; with a zero displacement it is 0, or 1 for RBP/R13; with an 8-bit displacement it is 1; otherwise 2. The reg field is `r`'s low bits |
| Encoding.MemHead | src/assembler/assembler.cc:227-241 | the emitted bytes split into the ModR/M byte, the SIB byte when one is needed, then the displacement; the fields are stated by `MemRmField` and `MemSibFields` |
| Encoding.MemRmField | src/assembler/assembler.cc:227-233 | the r/m field is 4 if and only if a SIB byte follows; otherwise it holds the base's low bits |
| Encoding.MemSibFields | src/assembler/assembler.cc:229-230 | the SIB byte holds the scale, the index (4 when absent) and the base (5 when absent) |
| Encoding.MemLength | src/assembler/assembler.cc:200-242 | the length is 1 + SIB + the displacement size the emitted mode implies: 0, 1, or 4 (mode 2 or no base) |
| Encoding.RbpZeroDisplacement | src/assembler/assembler.cc:216-241 | base RBP/R13 with a zero displacement gets mode 1 and exactly one trailing zero byte |
| Encoding.NoBaseNoIndex | src/assembler/assembler.cc:200-242 | with no base and no index: 6 bytes, mode 0, SIB marker, SIB index 4 and base 5, and a 4-byte displacement that reads back as the operand's |
| Encoding.RexByteBits | src/assembler/assembler.cc:262-263 | `flags \| 0x40` for flags below 16 is 0x40 + flags and carries the same low four bits |
| Encoding.RexRmEmitted | src/assembler/assembler.cc:257-264 | a REX byte is written if and only if `rex` is nonzero, `rm` is 8 or above, or the hint is one of encodings 4-7 |
| Encoding.RexRmREmitted | src/assembler/assembler.cc:269-279 | as above, and also when `r` is 8 or above |
| Encoding.RexMemREmitted | src/assembler/assembler.cc:284-296 | a REX byte is written if and only if `rex`, `r`, a present base of 8 or above, a present index of 8 or above, or the hint asks for one |
| Encoding.RexMemEmitted | src/assembler/assembler.cc:300-311 | the same for the memory-only form, which never consults the hint |
| Encoding.ByteHintForcesRex | src/assembler/assembler.cc:262 | among byte registers, the hint forces REX exactly for encodings 4-7 and never for AL-BL; R8B-R15B get their REX from REX.B |
| Decoding.RexPrefixBits | src/assembler/assembler.cc:257-311 | an emitted prefix is a single REX byte (0x40-0x4f) whose W, R, X and B bits are the flags' bits 3, 2, 1, 0 |
| Decoding.RexRmDecoded | src/assembler/assembler.cc:257-264 | the prefix reads back as W from `rex` and B from `rm`, with R and X clear |
| Decoding.RexRmRDecoded | src/assembler/assembler.cc:269-279 | the prefix reads back as W from `rex`, R from `r` and B from `rm` |
| Decoding.RexMemRDecoded | src/assembler/assembler.cc:284-296 | the prefix reads back as W, R from `r`, B from the base and X from the index |
| Decoding.RexMemDecoded | src/assembler/assembler.cc:300-311 | the prefix reads back as W, B from the base and X from the index, with R clear |
| Decoding.RegisterFormRoundTrip | src/assembler/assembler.cc:192-196 | behind its REX prefix, a register-form ModR/M byte decodes to (r, register rm) and consumes one byte |
| Decoding.DispRoundTrip | src/assembler/assembler.cc:236-241 | the displacement bytes read back, sign-extended, as the operand's displacement |
| Decoding.MemoryFormRoundTrip | src/assembler/assembler.cc:200-242 | behind its REX prefix, every memory operand whose index is not RSP decodes to the same base, index, scale (when indexed) and displacement, and to the same `r`, consuming exactly its bytes |
| Decoding.SibFormRoundTrip | src/assembler/assembler.cc:227-241 | the SIB forms decode back to the operand |
| Decoding.BaseFormRoundTrip | src/assembler/assembler.cc:232-241 | the forms without SIB decode back to the operand |
| Decoding.SibIndexRead | src/assembler/assembler.cc:229-230 | the SIB index field (with REX.X) reads 4 if and only if there is no index, and otherwise gives the index and scale |
| Decoding.SibBaseRead | src/assembler/assembler.cc:216-230 | mode 0 with SIB base 5 appears if and only if there is no base; otherwise the base field with REX.B gives the base |
| Decoding.RspIndexReadsAsNoIndex | src/assembler/assembler.cc:229-230 | an RSP index is emitted as field 4, so the bytes read back as having no index |
| Decoding.Mod0Rm5IsRipRelative | src/assembler/assembler.cc:216-224 | mode 0 with r/m 5 reads as RIP-relative, which is why RBP/R13 bases never get mode 0 |
| Decoding.Mod0SibBase5HasNoBase | src/assembler/assembler.cc:216-230 | under a SIB byte, mode 0 with base field 5 reads as "no base" |
| Emitters.Emit | src/assembler/assembler.cc:97-99 | one byte is written at the cursor and the cursor advances by one |
| Emitters.Store | src/assembler/assembler.cc:161-174 | a multi-byte store writes exactly its bytes at the position |
| Emitters.EmitMemPrefix | src/assembler/assembler.cc:101-104 | 0x67 is written if and only if the operand has the address-size override |
| Emitters.EmitPrefix | src/assembler/assembler.cc:106-108 | one prefix byte is written |
| Emitters.EmitPrefix2 | src/assembler/assembler.cc:110-114 | two prefix bytes are written in order |
| Emitters.EmitPrefix3 | src/assembler/assembler.cc:116-121 | three prefix bytes are written in order |
| Emitters.Emit2 | src/assembler/assembler.cc:110-114 | two emits write both bytes, in order |
| Emitters.Emit3 | src/assembler/assembler.cc:116-121 | three emits write the three bytes, in order |
| Emitters.EmitOpcode | src/assembler/assembler.cc:123-125 | one opcode byte is written |
| Emitters.EmitOpcode2 | src/assembler/assembler.cc:131-135 | two opcode bytes are written in order |
| Emitters.EmitOpcode3 | src/assembler/assembler.cc:143-148 | three opcode bytes are written in order |
| Emitters.AddDeltaRoundTrip | src/assembler/assembler.cc:127-129 | for an opcode with its low 3 bits clear, the register reads back from the byte's low bits plus REX.B, and the opcode from the upper five bits |
| Emitters.EmitOpcodeDelta | src/assembler/assembler.cc:127-129 | the opcode byte is written with the register's low bits added, truncated to a byte |
| Emitters.EmitOpcode2Delta | src/assembler/assembler.cc:137-141 | the second of two opcode bytes carries the register's low bits |
| Emitters.EmitOpcode3Delta | src/assembler/assembler.cc:150-155 | the third of three opcode bytes carries the register's low bits |
| Emitters.EmitImm8 | src/assembler/assembler.cc:157-159 | one byte, `imm & 0xff`, is written |
| Emitters.EmitImm16 | src/assembler/assembler.cc:161-164 | the 2-byte little-endian store of the immediate is written |
| Emitters.EmitImm32 | src/assembler/assembler.cc:166-169 | the 4-byte little-endian store of the immediate is written |
| Emitters.EmitImm64 | src/assembler/assembler.cc:171-174 | the 8-byte little-endian store of the immediate is written |
| Emitters.EmitModRmReg | src/assembler/assembler.cc:192-196 | the register-form ModR/M byte (mode 3) is written |
| Emitters.EmitModRmMem | src/assembler/assembler.cc:200-242 | exactly the memory operand's ModR/M, SIB and displacement bytes are written (the bytes of `Encoding.MemModRmBytes`, whose properties are listed above) |
| Emitters.EmitModRmHead | src/assembler/assembler.cc:216-233 | the mode is chosen and exactly the ModR/M byte, plus the SIB byte when one is needed, is written |
| Emitters.EmitDisplacement | src/assembler/assembler.cc:236-241 | the displacement is written as 4 bytes for a 32-bit displacement or no base, 1 byte for a nonzero 8-bit one, a zero byte for RBP/R13, else nothing |
| Emitters.EmitRexRm | src/assembler/assembler.cc:257-264 | writes the prefix of `Encoding.RexRmBytes` |
| Emitters.EmitRexRmR | src/assembler/assembler.cc:269-279 | writes the prefix of `Encoding.RexRmRBytes` |
| Emitters.EmitRexMemR | src/assembler/assembler.cc:284-296 | writes the prefix of `Encoding.RexMemRBytes` |
| Emitters.EmitRexMem | src/assembler/assembler.cc:300-311 | writes the prefix of `Encoding.RexMemBytes`; the hint must be null |
| HexText.DumpRoundTrip | src/assembler/assembler.cc:363-379 | parsing the printed text gives back exactly the bytes, wherever the line breaks fall |
| HexText.ParsePair | src/assembler/assembler.cc:377 | a byte's two-digit, zero-filled token reads back as that byte |
| HexText.DumpLength | src/assembler/assembler.cc:374-378 | the text has exactly three characters per byte plus one line break per break position below the byte count; so exactly 3n when no break falls inside |
| HexText.DumpAlphabet | src/assembler/assembler.cc:374-378 | only lowercase hex digits, spaces and line breaks are printed |
| HexText.BreaksPastEndIgnored | src/assembler/assembler.cc:374-378 | a break at or past the end of the bytes prints nothing |
| Assembly.InstrBytes | src/assembler/assembler.cc:321-334 | an instruction writes at most one byte here: none for a label definition, otherwise the default nop |
| Assembly.ImagePrefix | src/assembler/assembler.cc:354-356 | the image of a prefix of the program is a prefix of its image |
| Assembly.ImageStep | src/assembler/assembler.cc:354-356 | assembling one more instruction appends exactly its bytes to the image |
| Assembly.AssembleStep | src/assembler/assembler.cc:354-356 | after one more instruction's bytes are written at the end of the image so far, the buffer holds the longer image; the label table grows by the instruction's binding, and the break set grows by the new end |
| Assembly.LabelTableBindsDefined | src/assembler/assembler.cc:323-325 | a label is bound if and only if the program defines it |
| Assembly.LabelTableBindsLastDefinition | src/assembler/assembler.cc:323-325 | a bound label's offset is the image length in front of its last definition |
| Assembly.LineBreaksWithinImage | src/assembler/assembler.cc:367-371 | every recorded break lies within the image, and the end of the image is one of them |
| Assembly.LabelAddsNoLine | src/assembler/assembler.cc:367-371 | a label definition adds neither bytes nor a new break |
| Assembly.FixupBytes | src/assembler/assembler.cc:336-346 | each fix-up is a 4-byte field |
| Assembly.Patched | src/assembler/assembler.cc:336-346 | patching keeps the image's length |
| Assembly.PatchedNoJumps | src/assembler/assembler.cc:336-346 | with no recorded jumps, finishing changes nothing |
| Assembly.PatchedLeavesOtherBytes | src/assembler/assembler.cc:336-346 | bytes outside every recorded field are left unchanged |
| Assembly.PatchedStep | src/assembler/assembler.cc:337-345 | patching one more field is one more 32-bit store, in recording order |
| Assembly.PatchedField | src/assembler/assembler.cc:336-346 | when fields do not overlap, each field ends up holding its own fix-up value |
| Assembly.JumpLandsOnLabel | src/assembler/assembler.cc:336-346 | read as a signed 32-bit displacement from the end of the field, a patched field reaches its label when the distance fits; an unbound label's field reads 0 |
| Assembly.InOrderDisjoint | src/assembler/assembler.cc:336-346 | fields recorded as the cursor advances never overlap |
| Assembly.Assembler.constructor | src/assembler/assembler.cc:381-386 | a new assembler is valid and empty at the head of its buffer |
| Assembly.Assembler.Start | src/assembler/assembler.cc:381-386 | start clears the labels and jumps and moves the cursor to the head of the buffer |
| Assembly.Assembler.Bind | src/assembler/assembler.cc:323-325 | the label is bound to the current cursor; nothing else changes |
| Assembly.Assembler.Assemble | src/assembler/assembler.cc:321-334 | a label definition binds its label and writes nothing; every other opcode writes 0x90 |
| Assembly.Assembler.EmitRel32 | src/assembler/assembler.cc:336-346 | a 4-byte rel32 field is written as zero and recorded with its label, for `finish` to patch |
| Assembly.Assembler.Finish | src/assembler/assembler.cc:336-346 | the buffer becomes the patched image of its old contents (whose properties are the `Patched*` lemmas) |
| Assembly.Assembler.AssembleAll | src/assembler/assembler.cc:351-356 | assembling a program writes its image, leaves its label table bound, and collects one break at the end of each instruction |
| Assembly.Assembler.WriteBinary | src/assembler/assembler.cc:351-361 | the output is exactly the program's image; afterwards the fresh 1 MiB buffer holds the image up to the cursor, the labels are the program's label table and no jumps are pending |
| Assembly.Assembler.WriteHex | src/assembler/assembler.cc:363-379 | the output is the hex dump of the program's image, with breaks at instruction ends, and parses back to the image; the object is left as `WriteBinary` leaves it |

## Left out

- The roughly 4000 per-mnemonic instruction emitters and the generated dispatch switch are not part of this model: `src/gen/assembler.switch` and `src/gen/assembler.defn` are not among the sources modelled. `Assemble` models the label-definition case and the default case. `EmitRel32` stands in for the part of a jump emitter that leaves a rel32 field for `finish`.
- Assembly.Assembler.Assemble: the default case carries `assert(false)` before emitting 0x90. The model follows the build with assertions disabled.
- The no-op `emit_mod_rm` and `emit_rex` overloads, which write nothing, are not modelled.
- The other `assert`s in the encoder routines (non-null operands, table indices below 16) become types and preconditions.
- `Assembler::start(Function&)` only forwards the function's buffer to `start(buffer)`, and `Function` is not part of this model.
- Output streams are not modelled. `WriteBinary` and `WriteHex` return the bytes or the text instead of writing to an `ostream`.
- The static 1 MiB buffer becomes a fresh array of that size, and the program's image must fit in it. The source does not check for overflow.
- Multi-byte immediates are stored through a wider integer pointer. The model assumes a little-endian host, as x86-64 is.
- Operands are modelled by their fields, not by the 64-bit bit-packed layout of `Operand` and `M`.
  - A null base or index is `None`.
  - An absent base or index contributes no REX.B or REX.X bit; the null encoding is not among the sources modelled.
  - A null byte-register hint never forces a REX prefix.
- The `bind` member is declared in a header that is not part of this model. Binding an already bound label overwrites it.
- Rh encodings are taken as 4-7 (AH, CH, DH, BH), as in the Intel SDM; the `Rh` constants are not among the sources modelled. With that choice `Encoding.ByteHintForcesRex` states that a high-byte hint would also force a REX prefix. The comment on `emit_rex` only says that ignoring high-byte registers there is fine and does not discuss the hint. The generated callers that would pass such a hint are not modelled.
- Registers.Parent: the bodies of `R::parent()` and `Rh::parent()` are not part of this model, only their declarations. The model assumes the 64-bit register with the same encoding, and for a high byte the one 4 below it, as the Intel SDM aliases AH-BH onto RAX-RBX.
- Decoding.RexRmDecoded: proved only for a caller `rex` of 0 or REX.W (8). The model assumes these are the values the generated instruction emitters pass, which are not part of this model. Other caller bits are not read back.
- Decoding.RexRmRDecoded: proved only for a caller `rex` of 0 or REX.W (8). The model assumes these are the values the generated instruction emitters pass, which are not part of this model. Other caller bits are not read back.
- Decoding.RexMemRDecoded: proved only for a caller `rex` of 0 or REX.W (8). The model assumes these are the values the generated instruction emitters pass, which are not part of this model. Other caller bits are not read back.
- Decoding.RexMemDecoded: proved only for a caller `rex` of 0 or REX.W (8). The model assumes these are the values the generated instruction emitters pass, which are not part of this model. Other caller bits are not read back.
- Decoding.RegisterFormRoundTrip: proved only for a caller `rex` of 0 or REX.W (8). The model assumes these are the values the generated instruction emitters pass, which are not part of this model. Other caller bits are not read back.
- Decoding.MemoryFormRoundTrip: proved only for a caller `rex` of 0 or REX.W (8). The model assumes these are the values the generated instruction emitters pass, which are not part of this model. Other caller bits are not read back.
- Register names, `type()`, `check()` and the AT&T/Intel writers in `r.h` are not modelled. They are printing and type tags, not encoding.
