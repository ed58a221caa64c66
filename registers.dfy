/**
  General-purpose registers. A register is an immutable value: a width and
  aliasing class plus a 4-bit hardware encoding whose bit 3 is the extension
  bit that a REX prefix carries. The classes are those of the register class
  lattice: the legacy low bytes (Rl), the legacy high bytes (Rh), the bytes
  that are reachable only with a REX prefix present (Rb), and the 16-, 32-
  and 64-bit registers; the 32- and 64-bit ones may form addresses (AddrR).
*/
module Registers {

  datatype RegClass = Rl | Rh | Rb | R16 | R32 | R64

  datatype Reg = Reg(cls: RegClass, enc: nat)

  /** The encodings each class admits: AL, CL, DL, BL are 0-3; AH, CH, DH,
      BH share 4-7 with SPL, BPL, SIL, DIL, which with R8B-R15B make up Rb;
      the word, doubleword and quadword classes use all of 0-15. */
  predicate WellFormed(r: Reg)
  {
    match r.cls
    case Rl => r.enc < 4
    case Rh => 4 <= r.enc < 8
    case Rb => 4 <= r.enc < 16
    case _ => r.enc < 16
  }

  type Register = r: Reg | WellFormed(r) witness Reg(R64, 0)

  /** A 4-bit register field value, as the encoder reads it from an operand. */
  type Enc = x: nat | x < 16

  const AL: Register := Reg(Rl, 0)
  const CL: Register := Reg(Rl, 1)
  const AX: Register := Reg(R16, 0)
  const DX: Register := Reg(R16, 2)
  const EAX: Register := Reg(R32, 0)
  const RAX: Register := Reg(R64, 0)
  const RSP: Register := Reg(R64, 4)
  const RBP: Register := Reg(R64, 5)

  predicate IsByte(r: Register)
  {
    r.cls == Rl || r.cls == Rh || r.cls == Rb
  }

  /** The registers that may be a memory operand's base or index. */
  predicate IsAddrR(r: Register)
  {
    r.cls == R32 || r.cls == R64
  }

  function Width(r: Register): (w: nat)
    ensures w in {8, 16, 32, 64}
  {
    match r.cls
    case Rl => 8
    case Rh => 8
    case Rb => 8
    case R16 => 16
    case R32 => 32
    case R64 => 64
  }

  /** The 64-bit register this register is part of. A high byte is bits 8-15
      of the register whose low byte has an encoding 4 smaller, so only the
      high-byte class departs from "same encoding, 64 bits wide". */
  function Parent(r: Register): (p: Register)
    ensures p.cls == R64
    ensures r.cls != Rh ==> p.enc == r.enc
    ensures r.cls == Rh ==> p.enc + 4 == r.enc
  {
    if r.cls == Rh then Reg(R64, r.enc - 4) else Reg(R64, r.enc)
  }

  /** The fixed registers have the encodings of their instruction forms, and
      EAX and RAX share an encoding, so the width comes from the class alone. */
  lemma FixedEncodings()
    ensures AL.enc == 0 && CL.enc == 1 && AX.enc == 0 && DX.enc == 2
    ensures EAX.enc == RAX.enc == 0 && Width(EAX) == 32 && Width(RAX) == 64
    ensures AL.cls == CL.cls == Rl && AX.cls == DX.cls == R16
  {
  }

  /** Every byte register lies in exactly one of the three byte classes;
      Rl is told apart by encoding alone, while Rh and Rb share 4-7 and only
      Rb reaches 8-15. */
  lemma ByteClassesDisjoint(r: Register)
    requires IsByte(r)
    ensures (r.cls == Rl) != (r.cls == Rh || r.cls == Rb)
    ensures r.cls == Rl <==> r.enc < 4
    ensures r.enc >= 8 ==> r.cls == Rb
    ensures r.cls == Rh ==> Reg(Rb, r.enc) != r && WellFormed(Reg(Rb, r.enc))
  {
  }

  /** Only the doubleword and quadword classes can form addresses. */
  lemma AddressCapableClasses(r: Register)
    ensures IsAddrR(r) <==> Width(r) >= 32
  {
  }

  /** The parent keeps the encoding exactly when the register is not a high
      byte, and a high byte and its low-byte partner share a parent. */
  lemma ParentOverriddenOnlyForHighBytes(r: Register)
    ensures Parent(r).enc == r.enc <==> r.cls != Rh
    ensures r.cls == Rh ==> Parent(r) == Parent(Reg(Rl, r.enc - 4))
    ensures Width(Parent(r)) == 64 && Parent(Parent(r)) == Parent(r)
  {
  }
}
