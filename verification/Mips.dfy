/** The instruction model and decoder of core/mips.h and core/mips.cc. */
module Mips {
  import opened Wrappers

  type Register = r: nat | r < 32
  type FpRegister = r: nat | r < 32

  const ZERO: Register := 0
  const AT: Register := 1
  const V0: Register := 2
  const V1: Register := 3
  const A0: Register := 4
  const A1: Register := 5
  const A2: Register := 6
  const A3: Register := 7
  const T0: Register := 8
  const T8: Register := 24
  const T9: Register := 25
  const K0: Register := 26
  const K1: Register := 27
  const GP: Register := 28
  const SP: Register := 29
  const FP: Register := 30
  const RA: Register := 31

  datatype Opcode =
    | Unknown
    | Add | Addu | Sub | Subu | And | Or | Xor | Nor | Sll | Srl | Sra | Sllv | Srlv | Srav | Slt
    | Sltu
    | Addi | Addiu | Andi | Ori | Xori | Lui | Slti | Sltiu
    | Mult | Multu | Div | Divu | Mfhi | Mthi | Mflo | Mtlo
    | Lb | Lbu | Lh | Lhu | Lw | Lwl | Lwr | Sb | Sh | Sw | Swl | Swr
    | Ld | Sd | Lld | Scd | Ldl | Ldr | Lwu | Sdl | Sdr | Dadd | Daddu | Daddi | Daddiu | Dsub | Dsubu
    | Dsll | Dsrl | Dsra | Dsll32 | Dsrl32 | Dsra32 | Dsllv | Dsrlv | Dsrav | Dmult | Dmultu | Ddiv
    | Ddivu
    | J | Jal | Jr | Jalr
    | Beq | Bne | Blez | Bgtz | Bltz | Bgez | Bltzal | Bgezal
    | Beql | Bnel | Blezl | Bgtzl | Bltzl | Bgezl | Bltzall | Bgezall
    | Lwc1 | Swc1 | Ldc1 | Sdc1 | Mfc1 | Mtc1 | Cfc1 | Ctc1 | Dmfc1 | Dmtc1 | AddS | SubS | MulS | DivS
    | SqrtS | AbsS | MovS | NegS | AddD | SubD | MulD | DivD | SqrtD | AbsD | MovD | NegD | CvtSD
    | CvtDS | CvtSW | CvtDW | CvtWS | CvtWD | CvtLS | CvtLD | CvtSL | CvtDL | TruncWS | TruncWD
    | RoundWS | RoundWD | CeilWS | CeilWD | FloorWS | FloorWD | CFS | CUnS | CEqS | CUeqS | COltS
    | CUltS | COleS | CUleS | CSfS | CNgleS | CSeqS | CNglS | CLtS | CNgeS | CLeS | CNgtS | CFD | CUnD
    | CEqD | CUeqD | COltD | CUltD | COleD | CUleD | CSfD | CNgleD | CSeqD | CNglD | CLtD | CNgeD
    | CLeD | CNgtD | Bc1t | Bc1f | Bc1tl | Bc1fl
    | Syscall | Break | Sync | Mfc0 | Mtc0

  datatype Instruction = Instruction(
    rawWord: bv32,
    vram: bv32,
    opcode: Opcode,
    rd: Option<Register>,
    rs: Option<Register>,
    rt: Option<Register>,
    fd: Option<FpRegister>,
    fs: Option<FpRegister>,
    ft: Option<FpRegister>,
    immediate: bv16,
    shiftAmount: bv32,
    target: bv32)
  {
    predicate IsBranch() { IsBranchOp(opcode) }

    predicate IsUnconditionalBranch() {
      if opcode.Beq? || opcode.Beql? then rs.Some? && rt.Some? && rs.value == rt.value
      else if opcode.Bgez? || opcode.Bgezl? || opcode.Bgezal? || opcode.Bgezall? then
        rs.Some? && rs.value == ZERO
      else if opcode.Blez? || opcode.Blezl? then rs.Some? && rs.value == ZERO
      else false
    }

    predicate IsJump() { opcode.J? || opcode.Jal? || opcode.Jr? || opcode.Jalr? }

    predicate IsCall() { IsCallOp(opcode) }

    predicate IsReturn() { opcode.Jr? && rs == Some(RA) }

    predicate HasDelaySlot() { IsBranch() || IsJump() }

    predicate IsNop() {
      rawWord == 0 || (opcode.Sll? && rd == Some(ZERO) && rt == Some(ZERO) && shiftAmount == 0)
    }

    /** vram + 4 + (immediate << 2), in 32 bits. */
    function BranchTarget(): bv32 { vram + 4 + (SignExtend(immediate) << 2) }

    /** The 256 MB region of the jump, with the 26-bit field as word index. */
    function JumpTarget(): bv32 { (vram & 0xF0000000) | (target << 2) }
  }

  function SignExtend(imm: bv16): bv32 {
    if imm & 0x8000 != 0 then (imm as bv32) | 0xFFFF0000 else imm as bv32
  }

  function ZeroExtend(imm: bv16): bv32 { imm as bv32 }

  predicate IsBranchOp(op: Opcode) {
    match op
    case Beq | Bne | Blez | Bgtz | Bltz | Bgez | Bltzal | Bgezal | Beql | Bnel | Blezl | Bgtzl
       | Bltzl | Bgezl | Bltzall | Bgezall | Bc1t | Bc1f | Bc1tl | Bc1fl => true
    case _ => false
  }

  predicate IsCallOp(op: Opcode) {
    match op
    case Jal | Jalr | Bltzal | Bgezal | Bltzall | Bgezall => true
    case _ => false
  }

  // ----- Decoding -----

  function ToRegister(field: bv32): Register { (field & 0x1F) as nat }

  function ToFpRegister(field: bv32): FpRegister { (field & 0x1F) as nat }

  function MajorOp(word: bv32): bv32 { (word >> 26) & 0x3F }
  function RsField(word: bv32): bv32 { (word >> 21) & 0x1F }
  function RtField(word: bv32): bv32 { (word >> 16) & 0x1F }
  function RdField(word: bv32): bv32 { (word >> 11) & 0x1F }
  function SaField(word: bv32): bv32 { (word >> 6) & 0x1F }
  function Funct(word: bv32): bv32 { word & 0x3F }

  function DecodeSpecial(funct: bv32): Opcode {
    if funct == 0x00 then Sll
    else if funct == 0x02 then Srl
    else if funct == 0x03 then Sra
    else if funct == 0x04 then Sllv
    else if funct == 0x06 then Srlv
    else if funct == 0x07 then Srav
    else if funct == 0x08 then Jr
    else if funct == 0x09 then Jalr
    else if funct == 0x0C then Syscall
    else if funct == 0x0D then Break
    else if funct == 0x0F then Sync
    else if funct == 0x10 then Mfhi
    else if funct == 0x11 then Mthi
    else if funct == 0x12 then Mflo
    else if funct == 0x13 then Mtlo
    else if funct == 0x14 then Dsllv
    else if funct == 0x16 then Dsrlv
    else if funct == 0x17 then Dsrav
    else if funct == 0x18 then Mult
    else if funct == 0x19 then Multu
    else if funct == 0x1A then Div
    else if funct == 0x1B then Divu
    else if funct == 0x1C then Dmult
    else if funct == 0x1D then Dmultu
    else if funct == 0x1E then Ddiv
    else if funct == 0x1F then Ddivu
    else if funct == 0x20 then Add
    else if funct == 0x21 then Addu
    else if funct == 0x22 then Sub
    else if funct == 0x23 then Subu
    else if funct == 0x24 then And
    else if funct == 0x25 then Or
    else if funct == 0x26 then Xor
    else if funct == 0x27 then Nor
    else if funct == 0x2A then Slt
    else if funct == 0x2B then Sltu
    else if funct == 0x2C then Dadd
    else if funct == 0x2D then Daddu
    else if funct == 0x2E then Dsub
    else if funct == 0x2F then Dsubu
    else if funct == 0x38 then Dsll
    else if funct == 0x3A then Dsrl
    else if funct == 0x3B then Dsra
    else if funct == 0x3C then Dsll32
    else if funct == 0x3E then Dsrl32
    else if funct == 0x3F then Dsra32
    else Unknown
  }

  function DecodeRegimm(rt: bv32): Opcode {
    if rt == 0x00 then Bltz
    else if rt == 0x01 then Bgez
    else if rt == 0x02 then Bltzl
    else if rt == 0x03 then Bgezl
    else if rt == 0x10 then Bltzal
    else if rt == 0x11 then Bgezal
    else if rt == 0x12 then Bltzall
    else if rt == 0x13 then Bgezall
    else Unknown
  }

  function DecodeCop1Float(funct: bv32, isDouble: bool): Opcode {
    if funct == 0x00 then (if isDouble then AddD else AddS)
    else if funct == 0x01 then (if isDouble then SubD else SubS)
    else if funct == 0x02 then (if isDouble then MulD else MulS)
    else if funct == 0x03 then (if isDouble then DivD else DivS)
    else if funct == 0x04 then (if isDouble then SqrtD else SqrtS)
    else if funct == 0x05 then (if isDouble then AbsD else AbsS)
    else if funct == 0x06 then (if isDouble then MovD else MovS)
    else if funct == 0x07 then (if isDouble then NegD else NegS)
    else if funct == 0x0C then (if isDouble then RoundWD else RoundWS)
    else if funct == 0x0D then (if isDouble then TruncWD else TruncWS)
    else if funct == 0x0E then (if isDouble then CeilWD else CeilWS)
    else if funct == 0x0F then (if isDouble then FloorWD else FloorWS)
    else if funct == 0x20 then (if isDouble then CvtSD else Unknown)
    else if funct == 0x21 then (if isDouble then Unknown else CvtDS)
    else if funct == 0x24 then (if isDouble then CvtWD else CvtWS)
    else if funct == 0x25 then (if isDouble then CvtLD else CvtLS)
    else if funct == 0x30 then (if isDouble then CFD else CFS)
    else if funct == 0x31 then (if isDouble then CUnD else CUnS)
    else if funct == 0x32 then (if isDouble then CEqD else CEqS)
    else if funct == 0x33 then (if isDouble then CUeqD else CUeqS)
    else if funct == 0x34 then (if isDouble then COltD else COltS)
    else if funct == 0x35 then (if isDouble then CUltD else CUltS)
    else if funct == 0x36 then (if isDouble then COleD else COleS)
    else if funct == 0x37 then (if isDouble then CUleD else CUleS)
    else if funct == 0x38 then (if isDouble then CSfD else CSfS)
    else if funct == 0x39 then (if isDouble then CNgleD else CNgleS)
    else if funct == 0x3A then (if isDouble then CSeqD else CSeqS)
    else if funct == 0x3B then (if isDouble then CNglD else CNglS)
    else if funct == 0x3C then (if isDouble then CLtD else CLtS)
    else if funct == 0x3D then (if isDouble then CNgeD else CNgeS)
    else if funct == 0x3E then (if isDouble then CLeD else CLeS)
    else if funct == 0x3F then (if isDouble then CNgtD else CNgtS)
    else Unknown
  }

  function DecodeBc1(rt: bv32): Opcode {
    if rt == 0x00 then Bc1f
    else if rt == 0x01 then Bc1t
    else if rt == 0x02 then Bc1fl
    else if rt == 0x03 then Bc1tl
    else Unknown
  }

  function DecodeMajor(major: bv32): Opcode {
    if major == 0x02 then J
    else if major == 0x03 then Jal
    else if major == 0x04 then Beq
    else if major == 0x05 then Bne
    else if major == 0x06 then Blez
    else if major == 0x07 then Bgtz
    else if major == 0x08 then Addi
    else if major == 0x09 then Addiu
    else if major == 0x0A then Slti
    else if major == 0x0B then Sltiu
    else if major == 0x0C then Andi
    else if major == 0x0D then Ori
    else if major == 0x0E then Xori
    else if major == 0x0F then Lui
    else if major == 0x14 then Beql
    else if major == 0x15 then Bnel
    else if major == 0x16 then Blezl
    else if major == 0x17 then Bgtzl
    else if major == 0x18 then Daddi
    else if major == 0x19 then Daddiu
    else if major == 0x1A then Ldl
    else if major == 0x1B then Ldr
    else if major == 0x20 then Lb
    else if major == 0x21 then Lh
    else if major == 0x22 then Lwl
    else if major == 0x23 then Lw
    else if major == 0x24 then Lbu
    else if major == 0x25 then Lhu
    else if major == 0x26 then Lwr
    else if major == 0x27 then Lwu
    else if major == 0x28 then Sb
    else if major == 0x29 then Sh
    else if major == 0x2A then Swl
    else if major == 0x2B then Sw
    else if major == 0x2C then Sdl
    else if major == 0x2D then Sdr
    else if major == 0x2E then Swr
    else if major == 0x31 then Lwc1
    else if major == 0x34 then Lld
    else if major == 0x35 then Ldc1
    else if major == 0x37 then Ld
    else if major == 0x39 then Swc1
    else if major == 0x3C then Scd
    else if major == 0x3D then Sdc1
    else if major == 0x3F then Sd
    else Unknown
  }

  /** Coprocessor 1 moves, selected by the rs field. */
  function DecodeCop1Move(rs: bv32): Opcode {
    if rs == 0x00 then Mfc1
    else if rs == 0x01 then Dmfc1
    else if rs == 0x02 then Cfc1
    else if rs == 0x04 then Mtc1
    else if rs == 0x05 then Dmtc1
    else if rs == 0x06 then Ctc1
    else Unknown
  }

  function DecodeCop1(base: Instruction, word: bv32): Instruction {
    var rs := RsField(word);
    var withFp := base.(
      ft := Some(ToFpRegister(RtField(word))),
      fs := Some(ToFpRegister(RdField(word))),
      fd := Some(ToFpRegister(SaField(word))));
    if !DecodeCop1Move(rs).Unknown? then
      withFp.(opcode := DecodeCop1Move(rs), rt := Some(ToRegister(RtField(word))))
    else if rs == 0x08 then
      base.(opcode := DecodeBc1(RtField(word)))
    else if rs == 0x10 || rs == 0x11 then
      withFp.(opcode := DecodeCop1Float(Funct(word), rs == 0x11))
    else if rs == 0x14 then
      withFp.(opcode := if Funct(word) == 0x20 then CvtSW else if Funct(word) == 0x21 then CvtDW else Unknown)
    else if rs == 0x15 then
      withFp.(opcode := if Funct(word) == 0x20 then CvtSL else if Funct(word) == 0x21 then CvtDL else Unknown)
    else
      withFp
  }

  function DecodeImmediate(base: Instruction, word: bv32): Instruction {
    var op := DecodeMajor(MajorOp(word));
    if op.J? || op.Jal? then base.(opcode := op)
    else
      var withRs := base.(opcode := op, rs := Some(ToRegister(RsField(word))));
      if op.Lwc1? || op.Ldc1? || op.Swc1? || op.Sdc1? then
        withRs.(ft := Some(ToFpRegister(RtField(word))))
      else
        withRs.(rt := Some(ToRegister(RtField(word))))
  }

  function DecodeRegister(base: Instruction, word: bv32): Instruction {
    base.(opcode := DecodeSpecial(Funct(word)), rd := Some(ToRegister(RdField(word))),
          rs := Some(ToRegister(RsField(word))), rt := Some(ToRegister(RtField(word))))
  }

  function DecodeCop0(base: Instruction, word: bv32): Instruction {
    base.(opcode := if RsField(word) == 0x00 then Mfc0 else Mtc0,
          rt := Some(ToRegister(RtField(word))), rd := Some(ToRegister(RdField(word))))
  }

  /** The decoder never fails: words it does not know come out with opcode Unknown. */
  function DecodeInstruction(word: bv32, vram: bv32): Instruction {
    var base := Instruction(word, vram, Unknown, None, None, None, None, None, None,
                            (word & 0xFFFF) as bv16, SaField(word), word & 0x03FFFFFF);
    var major := MajorOp(word);
    if major == 0x00 then DecodeRegister(base, word)
    else if major == 0x01 then
      base.(opcode := DecodeRegimm(RtField(word)), rs := Some(ToRegister(RsField(word))))
    else if major == 0x10 && (RsField(word) == 0x00 || RsField(word) == 0x04) then DecodeCop0(base, word)
    else if major == 0x11 then DecodeCop1(base, word)
    else DecodeImmediate(base, word)
  }
}
