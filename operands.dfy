/**
  The operands the encoder consumes: memory operands as a record of their
  components, labels, and instructions as an opcode plus an operand list.
*/
module Operands {
  import opened Bits
  import opened Registers

  /** A register that may appear as a memory operand's base or index. */
  type AddrReg = r: Register | IsAddrR(r) witness Reg(R64, 0)

  /** The two-bit scale field: 0-3 for a factor of 1, 2, 4 or 8. */
  type Scale = x: nat | x < 4

  /** A displacement: a signed 32-bit integer. */
  type Disp32 = x: int | -0x8000_0000 <= x < 0x8000_0000

  /** A memory operand: an optional base, an optional index with its scale,
      a displacement and the 32-bit address-size override flag. */
  datatype Mem = Mem(base: Option<AddrReg>, index: Option<AddrReg>, scale: Scale,
                     disp: Disp32, sizeOr: bool)

  /** A symbolic position in the code, used as a branch target. */
  datatype Label = Label(id: nat)

  datatype Operand =
    | RegOp(reg: Register)
    | MemOp(mem: Mem)
    | ImmOp(value: int)
    | LabelOp(target: Label)

  /** The label-definition pseudo-opcode, or an opcode that has no case in
      the dispatch switch of this model. */
  datatype Opcode = LabelDefn | Unlisted(code: nat)

  datatype Instruction = Instruction(opcode: Opcode, operands: seq<Operand>)

  /** A label definition carries its label as its first operand. */
  predicate WellFormed(instr: Instruction)
  {
    instr.opcode.LabelDefn? ==> |instr.operands| > 0 && instr.operands[0].LabelOp?
  }

  /** The label a label definition binds. */
  function DefinedLabel(instr: Instruction): Label
    requires WellFormed(instr) && instr.opcode.LabelDefn?
  {
    instr.operands[0].target
  }
}
