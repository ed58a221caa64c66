/**
  The emitters: each writes a few bytes at the cursor of the output buffer
  and advances the cursor past them. A cursor passed by reference becomes a
  position in and a position out; every method is specified by `Write`, the
  buffer image with the bytes it emits laid over it, so that a sequence of
  emitters is one write of the concatenation of their bytes.
*/
module Emitters {
  import opened Bits
  import opened Registers
  import opened Operands
  import opened Encoding

  /** `*buf++ = c`. */
  method Emit(buf: array<byte>, pos: nat, c: byte) returns (next: nat)
    requires pos < buf.Length
    modifies buf
    ensures next == pos + 1
    ensures buf[..] == Write(old(buf[..]), pos, [c])
  {
    buf[pos] := c;
    next := pos + 1;
  }

  /** One store of several bytes at once, as a store through a wider
      integer pointer does on a little-endian machine. */
  method Store(buf: array<byte>, pos: nat, bs: seq<byte>)
    requires pos + |bs| <= buf.Length
    modifies buf
    ensures buf[..] == Write(old(buf[..]), pos, bs)
  {
    forall k | pos <= k < pos + |bs| {
      buf[k] := bs[k - pos];
    }
  }

  /** The address-size override prefix 0x67, present for 32-bit addressing. */
  function MemPrefixBytes(m: Mem): seq<byte>
  {
    if m.sizeOr then [0x67] else []
  }

  method EmitMemPrefix(buf: array<byte>, pos: nat, m: Mem) returns (next: nat)
    requires pos + |MemPrefixBytes(m)| <= buf.Length
    modifies buf
    ensures next == pos + |MemPrefixBytes(m)|
    ensures buf[..] == Write(old(buf[..]), pos, MemPrefixBytes(m))
  {
    next := pos;
    if m.sizeOr {
      next := Emit(buf, pos, 0x67);
    }
  }

  method EmitPrefix(buf: array<byte>, pos: nat, c: byte) returns (next: nat)
    requires pos + 1 <= buf.Length
    modifies buf
    ensures next == pos + 1
    ensures buf[..] == Write(old(buf[..]), pos, [c])
  {
    next := Emit(buf, pos, c);
  }

  /** Two emits in a row write the two bytes in order. */
  method Emit2(buf: array<byte>, pos: nat, c1: byte, c2: byte) returns (next: nat)
    requires pos + 2 <= buf.Length
    modifies buf
    ensures next == pos + 2
    ensures buf[..] == Write(old(buf[..]), pos, [c1, c2])
  {
    next := Emit(buf, pos, c1);
    next := Emit(buf, next, c2);
    WriteThenWrite(old(buf[..]), pos, [c1], [c2]);
    assert [c1] + [c2] == [c1, c2];
  }

  /** Three emits in a row write the three bytes in order. */
  method Emit3(buf: array<byte>, pos: nat, c1: byte, c2: byte, c3: byte) returns (next: nat)
    requires pos + 3 <= buf.Length
    modifies buf
    ensures next == pos + 3
    ensures buf[..] == Write(old(buf[..]), pos, [c1, c2, c3])
  {
    next := Emit2(buf, pos, c1, c2);
    next := Emit(buf, next, c3);
    WriteThenWrite(old(buf[..]), pos, [c1, c2], [c3]);
    assert [c1, c2] + [c3] == [c1, c2, c3];
  }

  method EmitPrefix2(buf: array<byte>, pos: nat, c1: byte, c2: byte) returns (next: nat)
    requires pos + 2 <= buf.Length
    modifies buf
    ensures next == pos + 2
    ensures buf[..] == Write(old(buf[..]), pos, [c1, c2])
  {
    next := Emit2(buf, pos, c1, c2);
  }

  method EmitPrefix3(buf: array<byte>, pos: nat, c1: byte, c2: byte, c3: byte) returns (next: nat)
    requires pos + 3 <= buf.Length
    modifies buf
    ensures next == pos + 3
    ensures buf[..] == Write(old(buf[..]), pos, [c1, c2, c3])
  {
    next := Emit3(buf, pos, c1, c2, c3);
  }

  method EmitOpcode(buf: array<byte>, pos: nat, c: byte) returns (next: nat)
    requires pos + 1 <= buf.Length
    modifies buf
    ensures next == pos + 1
    ensures buf[..] == Write(old(buf[..]), pos, [c])
  {
    next := Emit(buf, pos, c);
  }

  method EmitOpcode2(buf: array<byte>, pos: nat, c1: byte, c2: byte) returns (next: nat)
    requires pos + 2 <= buf.Length
    modifies buf
    ensures next == pos + 2
    ensures buf[..] == Write(old(buf[..]), pos, [c1, c2])
  {
    next := Emit2(buf, pos, c1, c2);
  }

  method EmitOpcode3(buf: array<byte>, pos: nat, c1: byte, c2: byte, c3: byte) returns (next: nat)
    requires pos + 3 <= buf.Length
    modifies buf
    ensures next == pos + 3
    ensures buf[..] == Write(old(buf[..]), pos, [c1, c2, c3])
  {
    next := Emit3(buf, pos, c1, c2, c3);
  }

  /** `c + (0x7 & delta)`, truncated to a byte when it is stored. */
  function AddDelta(c: byte, delta: Enc): byte
  {
    (c + delta % 8) % 256
  }

  /** An opcode whose low three bits are clear gets the register's low three
      bits there, and REX.B supplies the fourth: the register reads back
      from the opcode byte, and the opcode from the byte's upper five bits. */
  lemma AddDeltaRoundTrip(c: byte, delta: Enc)
    requires c % 8 == 0
    ensures AddDelta(c, delta) % 8 + (if RexB(delta) == 1 then 8 else 0) == delta
    ensures AddDelta(c, delta) - AddDelta(c, delta) % 8 == c
  {
    DivModUnique(c + delta % 8, 8, c / 8, delta % 8);
  }

  method EmitOpcodeDelta(buf: array<byte>, pos: nat, c: byte, delta: Enc) returns (next: nat)
    requires pos + 1 <= buf.Length
    modifies buf
    ensures next == pos + 1
    ensures buf[..] == Write(old(buf[..]), pos, [AddDelta(c, delta)])
  {
    next := Emit(buf, pos, AddDelta(c, delta));
  }

  method EmitOpcode2Delta(buf: array<byte>, pos: nat, c1: byte, c2: byte, delta: Enc) returns (next: nat)
    requires pos + 2 <= buf.Length
    modifies buf
    ensures next == pos + 2
    ensures buf[..] == Write(old(buf[..]), pos, [c1, AddDelta(c2, delta)])
  {
    next := Emit2(buf, pos, c1, AddDelta(c2, delta));
  }

  method EmitOpcode3Delta(buf: array<byte>, pos: nat, c1: byte, c2: byte, c3: byte, delta: Enc)
    returns (next: nat)
    requires pos + 3 <= buf.Length
    modifies buf
    ensures next == pos + 3
    ensures buf[..] == Write(old(buf[..]), pos, [c1, c2, AddDelta(c3, delta)])
  {
    next := Emit3(buf, pos, c1, c2, AddDelta(c3, delta));
  }

  /** `imm & 0xff`. */
  method EmitImm8(buf: array<byte>, pos: nat, imm: int) returns (next: nat)
    requires pos + 1 <= buf.Length
    modifies buf
    ensures next == pos + 1
    ensures buf[..] == Write(old(buf[..]), pos, LittleEndian(imm, 1))
  {
    next := Emit(buf, pos, imm % 256);
  }

  /** A 16-bit store of the immediate. */
  method EmitImm16(buf: array<byte>, pos: nat, imm: int) returns (next: nat)
    requires pos + 2 <= buf.Length
    modifies buf
    ensures next == pos + 2
    ensures buf[..] == Write(old(buf[..]), pos, LittleEndian(imm, 2))
  {
    Store(buf, pos, LittleEndian(imm, 2));
    next := pos + 2;
  }

  /** A 32-bit store of the immediate. */
  method EmitImm32(buf: array<byte>, pos: nat, imm: int) returns (next: nat)
    requires pos + 4 <= buf.Length
    modifies buf
    ensures next == pos + 4
    ensures buf[..] == Write(old(buf[..]), pos, LittleEndian(imm, 4))
  {
    Store(buf, pos, LittleEndian(imm, 4));
    next := pos + 4;
  }

  /** A 64-bit store of the immediate. */
  method EmitImm64(buf: array<byte>, pos: nat, imm: int) returns (next: nat)
    requires pos + 8 <= buf.Length
    modifies buf
    ensures next == pos + 8
    ensures buf[..] == Write(old(buf[..]), pos, LittleEndian(imm, 8))
  {
    Store(buf, pos, LittleEndian(imm, 8));
    next := pos + 8;
  }

  /** `emit_mod_rm(rm, r)` for two registers: mode 3. */
  method EmitModRmReg(buf: array<byte>, pos: nat, rm: Enc, r: Enc) returns (next: nat)
    requires pos + 1 <= buf.Length
    modifies buf
    ensures next == pos + 1
    ensures buf[..] == Write(old(buf[..]), pos, [ModRm(3, rm, r)])
  {
    next := Emit(buf, pos, ModRm(3, rm, r));
  }

  /** `emit_mod_rm(M, r)`: the mode, then ModR/M and SIB or ModR/M alone,
      then the displacement the mode calls for. */
  method EmitModRmMem(buf: array<byte>, pos: nat, m: Mem, r: Enc) returns (next: nat)
    requires pos + |MemModRmBytes(m, r)| <= buf.Length
    modifies buf
    ensures next == pos + |MemModRmBytes(m, r)|
    ensures buf[..] == Write(old(buf[..]), pos, MemModRmBytes(m, r))
  {
    next := EmitModRmHead(buf, pos, m, r);
    next := EmitDisplacement(buf, next, m);
    WriteThenWrite(old(buf[..]), pos, MemHeadBytes(m, r), DispBytes(m));
  }

  /** The head of `emit_mod_rm(M, r)`: the mode, then ModR/M and SIB, or
      ModR/M alone. */
  method EmitModRmHead(buf: array<byte>, pos: nat, m: Mem, r: Enc) returns (next: nat)
    requires pos + |MemHeadBytes(m, r)| <= buf.Length
    modifies buf
    ensures next == pos + |MemHeadBytes(m, r)|
    ensures buf[..] == Write(old(buf[..]), pos, MemHeadBytes(m, r))
  {
    var baseNull, indexNull := m.base.None?, m.index.None?;
    var disp0 := m.disp == 0;
    var disp8 := -128 <= m.disp < 128;
    var ripDisp32 := !baseNull && m.base.value.enc % 8 == 5;

    var mod := 0;
    if baseNull {
      mod := 0;
    } else if disp0 {
      mod := if ripDisp32 then 1 else 0;
    } else if disp8 {
      mod := 1;
    } else {
      mod := 2;
    }
    assert mod == MemMod(m);

    if baseNull || !indexNull || m.base.value.enc % 8 == 4 {
      next := Emit2(buf, pos, ModRm(mod, 4, r),
                    Sib(m.scale, if indexNull then RSP.enc else m.index.value.enc,
                        if baseNull then RBP.enc else m.base.value.enc));
    } else {
      next := Emit(buf, pos, ModRm(mod, m.base.value.enc, r));
    }
  }

  /** The displacement tail of `emit_mod_rm(M, r)`: four bytes for a 32-bit
      displacement or a missing base, one for a nonzero 8-bit displacement,
      a zero byte for RBP or R13, and nothing otherwise. */
  method EmitDisplacement(buf: array<byte>, pos: nat, m: Mem) returns (next: nat)
    requires pos + |DispBytes(m)| <= buf.Length
    modifies buf
    ensures next == pos + |DispBytes(m)|
    ensures buf[..] == Write(old(buf[..]), pos, DispBytes(m))
  {
    var baseNull := m.base.None?;
    var disp0 := m.disp == 0;
    var disp8 := -128 <= m.disp < 128;
    var disp32 := m.disp < -128 || m.disp >= 128;
    var ripDisp32 := !baseNull && m.base.value.enc % 8 == 5;
    if disp32 || baseNull {
      next := EmitImm32(buf, pos, m.disp);
    } else if disp8 && !disp0 {
      next := EmitImm8(buf, pos, m.disp);
    } else if ripDisp32 {
      next := EmitImm8(buf, pos, 0);
    } else {
      next := pos;
      assert buf[..] == Write(old(buf[..]), pos, []);
    }
  }

  /** `emit_rex(rm, rex, low)`. */
  method EmitRexRm(buf: array<byte>, pos: nat, rm: Enc, rex: byte, low: Option<Register>)
    returns (next: nat)
    requires pos + |RexRmBytes(rm, rex, low)| <= buf.Length
    modifies buf
    ensures next == pos + |RexRmBytes(rm, rex, low)|
    ensures buf[..] == Write(old(buf[..]), pos, RexRmBytes(rm, rex, low))
  {
    var flags := ByteOr(rex, RexB(rm));
    next := pos;
    if flags != 0 || ForcesRex(low) {
      next := Emit(buf, pos, ByteOr(flags, 0x40));
    }
  }

  /** `emit_rex(rm, r, rex, low)`. */
  method EmitRexRmR(buf: array<byte>, pos: nat, rm: Enc, r: Enc, rex: byte, low: Option<Register>)
    returns (next: nat)
    requires pos + |RexRmRBytes(rm, r, rex, low)| <= buf.Length
    modifies buf
    ensures next == pos + |RexRmRBytes(rm, r, rex, low)|
    ensures buf[..] == Write(old(buf[..]), pos, RexRmRBytes(rm, r, rex, low))
  {
    var flags := ByteOr(rex, RexB(rm));
    flags := ByteOr(flags, RexR(r));
    next := pos;
    if flags != 0 || ForcesRex(low) {
      next := Emit(buf, pos, ByteOr(flags, 0x40));
    }
  }

  /** `emit_rex(M, r, rex, low)`. */
  method EmitRexMemR(buf: array<byte>, pos: nat, m: Mem, r: Enc, rex: byte, low: Option<Register>)
    returns (next: nat)
    requires pos + |RexMemRBytes(m, r, rex, low)| <= buf.Length
    modifies buf
    ensures next == pos + |RexMemRBytes(m, r, rex, low)|
    ensures buf[..] == Write(old(buf[..]), pos, RexMemRBytes(m, r, rex, low))
  {
    var flags := ByteOr(rex, RexR(r));
    flags := ByteOr(flags, RexBaseB(m));
    flags := ByteOr(flags, RexIndexX(m));
    next := pos;
    if flags != 0 || ForcesRex(low) {
      next := Emit(buf, pos, ByteOr(flags, 0x40));
    }
  }

  /** `emit_rex(M, rex, low)`: the hint must be null. */
  method EmitRexMem(buf: array<byte>, pos: nat, m: Mem, rex: byte, low: Option<Register>)
    returns (next: nat)
    requires low.None?
    requires pos + |RexMemBytes(m, rex, low)| <= buf.Length
    modifies buf
    ensures next == pos + |RexMemBytes(m, rex, low)|
    ensures buf[..] == Write(old(buf[..]), pos, RexMemBytes(m, rex, low))
  {
    var flags := ByteOr(rex, RexBaseB(m));
    flags := ByteOr(flags, RexIndexX(m));
    next := pos;
    if flags != 0 {
      next := Emit(buf, pos, ByteOr(flags, 0x40));
    }
  }
}
