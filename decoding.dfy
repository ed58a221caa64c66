/**
  The processor's reading of a REX prefix and of the ModR/M, SIB and
  displacement bytes, following section 2.1.5 and section 2.2.1 of the
  Intel 64 and IA-32 Architectures Software Developer's Manual, Volume 2A.
  It is written independently of the encoder and serves as its reference:
  the round-trip lemmas show that what the encoder writes reads back as the
  operands it was given.
*/
module Decoding {
  import opened Bits
  import opened Registers
  import opened Operands
  import opened Encoding

  /** The W, R, X and B bits of a REX prefix; all clear without one. */
  datatype RexBits = RexBits(w: bool, r: bool, x: bool, b: bool)

  const NoRex := RexBits(false, false, false, false)

  /** The REX prefixes are the bytes 0x40-0x4f. */
  predicate IsRex(b: byte)
  {
    0x40 <= b < 0x50
  }

  /** The bits a prefix of at most one REX byte supplies. */
  function RexBitsOf(prefix: seq<byte>): RexBits
  {
    if prefix == [] then NoRex
    else RexBits(Bit(prefix[0], 3), Bit(prefix[0], 2), Bit(prefix[0], 1), Bit(prefix[0], 0))
  }

  /** The value a REX bit adds to a three-bit register field. */
  function Ext(bit: bool): nat
  {
    if bit then 8 else 0
  }

  /** What the r/m operand designates: a register, a base + index * scale +
      displacement address, or an address relative to the next instruction. */
  datatype Address =
    | Direct(reg: nat)
    | Indirect(base: Option<nat>, index: Option<nat>, scale: nat, disp: int)
    | RipRelative(disp: int)

  /** The reg field, the r/m operand and the number of bytes consumed. */
  datatype Decoded = Decoded(reg: nat, addr: Address, length: nat)

  /** A displacement of 0, 1 or 4 bytes, sign-extended. */
  function ReadDisp(bs: seq<byte>): int
  {
    if bs == [] then 0 else Signed(FromLittleEndian(bs), |bs|)
  }

  /** Reads the ModR/M byte at the head of `bs` and whatever SIB and
      displacement bytes it calls for; None when `bs` ends too early. */
  function DecodeModRm(rex: RexBits, bs: seq<byte>): Option<Decoded>
  {
    if bs == [] then None
    else
      var mod, rm := bs[0] / 64, bs[0] % 8;
      var reg := (bs[0] / 8) % 8 + Ext(rex.r);
      if mod == 3 then Some(Decoded(reg, Direct(rm + Ext(rex.b)), 1))
      else if rm == 4 then DecodeSib(rex, mod, reg, bs)
      else if mod == 0 && rm == 5 then
        if |bs| < 5 then None else Some(Decoded(reg, RipRelative(ReadDisp(bs[1..5])), 5))
      else
        var n := DispLength(mod, true);
        if |bs| < 1 + n then None
        else Some(Decoded(reg, Indirect(Some(rm + Ext(rex.b)), None, 0, ReadDisp(bs[1..1 + n])), 1 + n))
  }

  /** The SIB form: index field 4 (with REX.X clear) means no index, and base
      field 5 under mod 0 means no base and a 32-bit displacement. */
  function DecodeSib(rex: RexBits, mod: nat, reg: nat, bs: seq<byte>): Option<Decoded>
  {
    if |bs| < 2 then None
    else
      var s := bs[1];
      var index := (s / 8) % 8 + Ext(rex.x);
      var noBase := mod == 0 && s % 8 == 5;
      var n := DispLength(mod, !noBase);
      if |bs| < 2 + n then None
      else Some(Decoded(reg,
                        Indirect(if noBase then None else Some(s % 8 + Ext(rex.b)),
                                 if index == 4 then None else Some(index),
                                 if index == 4 then 0 else s / 64,
                                 ReadDisp(bs[2..2 + n])),
                        2 + n))
  }

  // ---------------------------------------------------------------------
  // The REX byte the encoder writes, as the decoder reads it

  /** The `rex` argument the instruction emitters pass: nothing, or REX.W. */
  predicate OnlyW(rex: byte)
  {
    rex == 0 || rex == 8
  }

  /** The low four bits of a value with at most one bit set. */
  lemma FlagBits(v: nat)
    requires v == 0 || v == 1 || v == 2 || v == 4 || v == 8
    ensures Bit(v, 0) == (v == 1) && Bit(v, 1) == (v == 2)
    ensures Bit(v, 2) == (v == 4) && Bit(v, 3) == (v == 8)
  {
    if v == 0 {
    } else if v == 1 {
    } else if v == 2 {
    } else if v == 4 {
    } else {
    }
  }

  /** A prefix built from flags below 16 is a REX byte carrying exactly those
      flags; no prefix at all carries none, just as flags 0 do. */
  lemma RexPrefixBits(flags: byte, force: bool)
    requires flags < 16
    ensures var p := RexPrefix(flags, force);
      && (p != [] ==> IsRex(p[0]))
      && RexBitsOf(p) == RexBits(Bit(flags, 3), Bit(flags, 2), Bit(flags, 1), Bit(flags, 0))
  {
    if flags == 0 {
      BitOfZero(0);
      BitOfZero(1);
      BitOfZero(2);
      BitOfZero(3);
    }
    RexByteBits(flags);
  }

  /** `emit_rex(rm, rex, low)` reads back as W from `rex` and B from `rm`. */
  lemma RexRmDecoded(rm: Enc, rex: byte, low: Option<Register>)
    requires OnlyW(rex)
    ensures RexBitsOf(RexRmBytes(rm, rex, low)) == RexBits(rex == 8, false, false, rm >= 8)
  {
    FlagBits(rex);
    FlagBits(RexB(rm));
    RexPrefixBits(ByteOr(rex, RexB(rm)), ForcesRex(low));
  }

  /** `emit_rex(rm, r, rex, low)` reads back as W from `rex`, R from `r` and
      B from `rm`. */
  lemma RexRmRDecoded(rm: Enc, r: Enc, rex: byte, low: Option<Register>)
    requires OnlyW(rex)
    ensures RexBitsOf(RexRmRBytes(rm, r, rex, low)) == RexBits(rex == 8, r >= 8, false, rm >= 8)
  {
    FlagBits(rex);
    FlagBits(RexB(rm));
    FlagBits(RexR(r));
    RexPrefixBits(ByteOr(ByteOr(rex, RexB(rm)), RexR(r)), ForcesRex(low));
  }

  /** The REX bits a memory operand's registers call for. */
  function MemRexBits(m: Mem, w: bool, r: Enc): RexBits
  {
    RexBits(w, r >= 8, m.index.Some? && m.index.value.enc >= 8,
            m.base.Some? && m.base.value.enc >= 8)
  }

  /** `emit_rex(M, r, rex, low)` reads back as W from `rex`, R from `r`, X
      from the index and B from the base. */
  lemma RexMemRDecoded(m: Mem, r: Enc, rex: byte, low: Option<Register>)
    requires OnlyW(rex)
    ensures RexBitsOf(RexMemRBytes(m, r, rex, low)) == MemRexBits(m, rex == 8, r)
  {
    FlagBits(rex);
    FlagBits(RexR(r));
    FlagBits(RexBaseB(m));
    FlagBits(RexIndexX(m));
    RexPrefixBits(ByteOr(ByteOr(ByteOr(rex, RexR(r)), RexBaseB(m)), RexIndexX(m)), ForcesRex(low));
  }

  /** `emit_rex(M, rex, low)` reads back as W from `rex`, X from the index
      and B from the base; R stays clear. */
  lemma RexMemDecoded(m: Mem, rex: byte)
    requires OnlyW(rex)
    ensures RexBitsOf(RexMemBytes(m, rex, None)) == MemRexBits(m, rex == 8, 0)
  {
    FlagBits(rex);
    FlagBits(RexBaseB(m));
    FlagBits(RexIndexX(m));
    RexPrefixBits(ByteOr(ByteOr(rex, RexBaseB(m)), RexIndexX(m)), false);
  }

  // ---------------------------------------------------------------------
  // Round trips of the ModR/M forms

  /** `emit_mod_rm(rm, r)` behind the prefix of `emit_rex(rm, r, rex, low)`
      reads back as the two registers, whatever bytes follow. */
  lemma RegisterFormRoundTrip(rm: Enc, r: Enc, rex: byte, low: Option<Register>, rest: seq<byte>)
    requires OnlyW(rex)
    ensures DecodeModRm(RexBitsOf(RexRmRBytes(rm, r, rex, low)), [ModRm(3, rm, r)] + rest)
         == Some(Decoded(r, Direct(rm), 1))
  {
    RexRmRDecoded(rm, r, rex, low);
    var rx := RexBits(rex == 8, r >= 8, false, rm >= 8);
    var bs := [ModRm(3, rm, r)] + rest;
    DecodeDirect(rx, bs);
    ExtendField(r);
    ExtendField(rm);
  }

  /** A three-bit field plus its REX extension bit is the 4-bit encoding. */
  lemma ExtendField(e: Enc)
    ensures e % 8 + Ext(e >= 8) == e
  {
  }

  /** Mode 3 names a register and consumes the ModR/M byte alone. */
  lemma DecodeDirect(rex: RexBits, bs: seq<byte>)
    requires bs != [] && bs[0] / 64 == 3
    ensures DecodeModRm(rex, bs)
         == Some(Decoded((bs[0] / 8) % 8 + Ext(rex.r), Direct(bs[0] % 8 + Ext(rex.b)), 1))
  {
  }

  function EncOf(reg: Option<AddrReg>): Option<nat>
  {
    if reg.None? then None else Some(reg.value.enc)
  }

  /** A displacement written by the encoder reads back as the operand's. */
  lemma DispRoundTrip(m: Mem)
    ensures ReadDisp(DispBytes(m)) == m.disp
  {
    var n := DispWidth(m);
    if n == 1 {
      LittleEndianSignedRoundTrip(m.disp, 1);
    } else if n == 4 {
      assert Pow256(4) == 0x1_0000_0000;
      LittleEndianSignedRoundTrip(m.disp, 4);
    }
  }

  /** Every memory operand whose index is not RSP (which the SIB byte cannot
      name as an index) reads back as its base, index, scale when an index is
      present, and displacement, with the reg field `r`, consuming exactly the
      bytes `emit_mod_rm(M, r)` wrote. */
  lemma MemoryFormRoundTrip(m: Mem, r: Enc, rex: byte, low: Option<Register>, rest: seq<byte>)
    requires OnlyW(rex)
    requires m.index.None? || m.index.value.enc != RSP.enc
    ensures DecodeModRm(RexBitsOf(RexMemRBytes(m, r, rex, low)), MemModRmBytes(m, r) + rest)
         == Some(MemOperandRead(m, r))
  {
    RexMemRDecoded(m, r, rex, low);
    if NeedsSib(m) {
      SibFormRoundTrip(m, r, rex == 8, rest);
    } else {
      BaseFormRoundTrip(m, r, rex == 8, rest);
    }
  }

  /** What reading a memory operand's bytes must give back: the reg field,
      the base, the index, the scale when an index is present, the
      displacement, and the length of the encoding. */
  function MemOperandRead(m: Mem, r: Enc): Decoded
  {
    Decoded(r, Indirect(EncOf(m.base), EncOf(m.index),
                        if m.index.Some? then m.scale else 0, m.disp),
            |MemModRmBytes(m, r)|)
  }

  lemma SibFormRoundTrip(m: Mem, r: Enc, w: bool, rest: seq<byte>)
    requires NeedsSib(m)
    requires m.index.None? || m.index.value.enc != RSP.enc
    ensures DecodeModRm(MemRexBits(m, w, r), MemModRmBytes(m, r) + rest) == Some(MemOperandRead(m, r))
  {
    var rx := MemRexBits(m, w, r);
    var enc := MemModRmBytes(m, r);
    var bs := enc + rest;
    SibFieldsRead(m, r, w);
    MemHead(m, r);
    DispRoundTrip(m);
    assert bs[0] == enc[0] && bs[1] == enc[1];
    var n := |enc| - 2;
    assert bs[2..2 + n] == DispBytes(m);
    SibDecodes(rx, m, r, bs, n);
  }

  /** Bytes whose ModR/M and SIB fields carry the operand's registers and
      scale, followed by its displacement, decode to that operand. */
  lemma SibDecodes(rx: RexBits, m: Mem, r: Enc, bs: seq<byte>, n: nat)
    requires |bs| >= 2 + n
    requires var mod, sib := bs[0] / 64, bs[1];
      var index := (sib / 8) % 8 + Ext(rx.x);
      && mod < 3 && bs[0] % 8 == 4 && (bs[0] / 8) % 8 + Ext(rx.r) == r
      && (index == 4 <==> m.index.None?)
      && (m.index.Some? ==> index == m.index.value.enc && sib / 64 == m.scale)
      && ((mod == 0 && sib % 8 == 5) <==> m.base.None?)
      && (m.base.Some? ==> sib % 8 + Ext(rx.b) == m.base.value.enc)
      && n == DispLength(mod, m.base.Some?)
    requires ReadDisp(bs[2..2 + n]) == m.disp
    ensures DecodeModRm(rx, bs)
         == Some(Decoded(r, Indirect(EncOf(m.base), EncOf(m.index),
                                     if m.index.Some? then m.scale else 0, m.disp), 2 + n))
  {
    DecodeSibForm(rx, bs);
    DecodeSibValue(rx, bs[0] / 64, r, bs);
  }

  /** The ModR/M and SIB fields of a SIB form, extended by the REX bits,
      give back the operand's registers and scale. */
  lemma SibFieldsRead(m: Mem, r: Enc, w: bool)
    requires NeedsSib(m)
    requires m.index.None? || m.index.value.enc != RSP.enc
    ensures var enc, rx := MemModRmBytes(m, r), MemRexBits(m, w, r);
      var mod, sib := enc[0] / 64, enc[1];
      var index := (sib / 8) % 8 + Ext(rx.x);
      && mod < 3 && enc[0] % 8 == 4 && (enc[0] / 8) % 8 + Ext(rx.r) == r
      && (index == 4 <==> m.index.None?)
      && (m.index.Some? ==> index == m.index.value.enc && sib / 64 == m.scale)
      && ((mod == 0 && sib % 8 == 5) <==> m.base.None?)
      && (m.base.Some? ==> sib % 8 + Ext(rx.b) == m.base.value.enc)
      && |enc| == 2 + DispLength(mod, m.base.Some?)
  {
    MemModField(m, r);
    MemRmField(m, r);
    MemLength(m, r);
    ExtendField(r);
    SibIndexRead(m, r, w);
    SibBaseRead(m, r, w);
  }

  lemma SibIndexRead(m: Mem, r: Enc, w: bool)
    requires NeedsSib(m)
    requires m.index.None? || m.index.value.enc != RSP.enc
    ensures var sib := MemModRmBytes(m, r)[1];
      var index := (sib / 8) % 8 + Ext(MemRexBits(m, w, r).x);
      && (index == 4 <==> m.index.None?)
      && (m.index.Some? ==> index == m.index.value.enc && sib / 64 == m.scale)
  {
    MemSibFields(m, r);
    if m.index.Some? {
      ExtendField(m.index.value.enc);
    }
  }

  lemma SibBaseRead(m: Mem, r: Enc, w: bool)
    requires NeedsSib(m)
    ensures var enc := MemModRmBytes(m, r);
      && ((enc[0] / 64 == 0 && enc[1] % 8 == 5) <==> m.base.None?)
      && (m.base.Some? ==> enc[1] % 8 + Ext(MemRexBits(m, w, r).b) == m.base.value.enc)
  {
    var enc := MemModRmBytes(m, r);
    MemModField(m, r);
    MemSibFields(m, r);
    NoBaseMarker(m, enc[0] / 64, enc[1] % 8);
    if m.base.Some? {
      ExtendField(m.base.value.enc);
    }
  }

  /** Mode 0 with SIB base field 5 is exactly the missing base: a base whose
      low bits are 5 never gets mode 0. */
  lemma NoBaseMarker(m: Mem, mod: int, base: int)
    requires mod == (if m.base.None? then 0
                     else if m.disp == 0 then (if m.base.value.enc % 8 == 5 then 1 else 0)
                     else if -128 <= m.disp < 128 then 1
                     else 2)
    requires base == SibBase(m) % 8
    ensures (mod == 0 && base == 5) <==> m.base.None?
  {
  }

  lemma BaseFormRoundTrip(m: Mem, r: Enc, w: bool, rest: seq<byte>)
    requires !NeedsSib(m)
    ensures DecodeModRm(MemRexBits(m, w, r), MemModRmBytes(m, r) + rest) == Some(MemOperandRead(m, r))
  {
    var rx := MemRexBits(m, w, r);
    var enc := MemModRmBytes(m, r);
    var bs := enc + rest;
    MemModField(m, r);
    MemRmField(m, r);
    MemLength(m, r);
    MemHead(m, r);
    DispRoundTrip(m);
    assert bs[0] == enc[0];
    ExtendField(r);
    ExtendField(m.base.value.enc);
    var n := |enc| - 1;
    assert bs[1..1 + n] == DispBytes(m);
    DecodeBaseForm(rx, bs);
  }

  /** r/m value 4 outside mode 3 hands over to the SIB byte. */
  lemma DecodeSibForm(rex: RexBits, bs: seq<byte>)
    requires bs != [] && bs[0] / 64 < 3 && bs[0] % 8 == 4
    ensures DecodeModRm(rex, bs) == DecodeSib(rex, bs[0] / 64, (bs[0] / 8) % 8 + Ext(rex.r), bs)
  {
  }

  /** A SIB form with all its bytes present decodes to an indirect address. */
  lemma DecodeSibValue(rex: RexBits, mod: nat, reg: nat, bs: seq<byte>)
    requires |bs| >= 2 && |bs| >= 2 + DispLength(mod, !(mod == 0 && bs[1] % 8 == 5))
    ensures var s := bs[1];
      var index := (s / 8) % 8 + Ext(rex.x);
      var noBase := mod == 0 && s % 8 == 5;
      var n := DispLength(mod, !noBase);
      DecodeSib(rex, mod, reg, bs)
      == Some(Decoded(reg,
                      Indirect(if noBase then None else Some(s % 8 + Ext(rex.b)),
                               if index == 4 then None else Some(index),
                               if index == 4 then 0 else s / 64,
                               ReadDisp(bs[2..2 + n])),
                      2 + n))
  {
  }

  /** Any other r/m value outside mode 3, except 5 under mode 0, is a base
      register followed by the displacement the mode calls for. */
  lemma DecodeBaseForm(rex: RexBits, bs: seq<byte>)
    requires bs != [] && bs[0] / 64 < 3 && bs[0] % 8 != 4
    requires !(bs[0] / 64 == 0 && bs[0] % 8 == 5)
    requires |bs| >= 1 + DispLength(bs[0] / 64, true)
    ensures var n := DispLength(bs[0] / 64, true);
      DecodeModRm(rex, bs)
      == Some(Decoded((bs[0] / 8) % 8 + Ext(rex.r),
                      Indirect(Some(bs[0] % 8 + Ext(rex.b)), None, 0, ReadDisp(bs[1..1 + n])),
                      1 + n))
  {
  }

  /** Index RSP is lost: its SIB value 4 is the one that means "no index". */
  lemma RspIndexReadsAsNoIndex(m: Mem, r: Enc, rex: byte, low: Option<Register>, rest: seq<byte>)
    requires OnlyW(rex)
    requires m.index.Some? && m.index.value == RSP
    ensures var d := DecodeModRm(RexBitsOf(RexMemRBytes(m, r, rex, low)), MemModRmBytes(m, r) + rest);
      d.Some? && d.value.addr.Indirect? && d.value.addr.index.None?
  {
    RexMemRDecoded(m, r, rex, low);
    var enc := MemModRmBytes(m, r);
    var bs := enc + rest;
    MemModField(m, r);
    MemRmField(m, r);
    MemLength(m, r);
    MemSibFields(m, r);
    assert bs[0] == enc[0] && bs[1] == enc[1];
  }

  /** Why RBP and R13 never get mod 0: r/m value 5 under mod 0 means an
      address relative to the instruction pointer, not [rbp]. */
  lemma Mod0Rm5IsRipRelative(r: Enc, rest: seq<byte>)
    requires |rest| >= 4
    ensures var d := DecodeModRm(NoRex, [ModRm(0, RBP.enc, r)] + rest);
      d.Some? && d.value.addr.RipRelative? && d.value.length == 5
  {
  }

  /** And under a SIB byte, base value 5 with mod 0 means no base at all. */
  lemma Mod0SibBase5HasNoBase(r: Enc, rest: seq<byte>)
    requires |rest| >= 4
    ensures var d := DecodeModRm(NoRex, [ModRm(0, 4, r), Sib(0, RAX.enc, RBP.enc)] + rest);
      d.Some? && d.value.addr.Indirect? && d.value.addr.base.None? && d.value.length == 6
  {
  }
}
