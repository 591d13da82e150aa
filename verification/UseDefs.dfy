/** Which registers an instruction reads and writes: the extractor of core/register_tracker.cc, and
    an independent table of the destinations the instruction set defines. */
module UseDefs {
  import opened Mips
  import opened Wrappers

  datatype UseDef = UseDef(
    gprUses: seq<Register>, gprDefs: seq<Register>, fprUses: seq<FpRegister>, fprDefs: seq<FpRegister>,
    usesHi: bool, usesLo: bool, defsHi: bool, defsLo: bool)

  /** An operand as a list; $zero is never recorded. */
  function Gpr(r: Option<Register>): seq<Register> {
    if r.Some? && r.value != ZERO then [r.value] else []
  }

  function Fpr(f: Option<FpRegister>): seq<FpRegister> {
    if f.Some? then [f.value] else []
  }

  /** The register a call leaves the return address in. */
  function LinkRegister(inst: Instruction): Register {
    if inst.opcode.Jalr? && inst.rd.Some? then inst.rd.value else RA
  }

  datatype OperandFormat =
    | RegisterAlu | ShiftImmediate | ShiftVariable | ImmediateAlu | LoadUpper | Load | Store
    | StoreConditional | MultiplyDivide | MoveFromHi | MoveFromLo | MoveToHi | MoveToLo
    | CompareBranch | ZeroBranch | LinkBranch | JumpAndLink | JumpRegister | JumpAndLinkRegister
    | FpLoad | FpStore | MoveFromFp | MoveToFp | ControlFromFp | ControlToFp | FpBinary | FpUnary
    | FpCompare | MoveFromCop0 | MoveToCop0 | Other

  /** Opcodes that read and write the same operand slots. */
  function FormatOf(op: Opcode): OperandFormat {
    match op
    case Add | Addu | Sub | Subu | Dadd | Daddu | Dsub | Dsubu | And | Or | Xor | Nor | Slt | Sltu => RegisterAlu
    case Sll | Srl | Sra | Dsll | Dsrl | Dsra | Dsll32 | Dsrl32 | Dsra32 => ShiftImmediate
    case Sllv | Srlv | Srav | Dsllv | Dsrlv | Dsrav => ShiftVariable
    case Addi | Addiu | Daddi | Daddiu | Andi | Ori | Xori | Slti | Sltiu => ImmediateAlu
    case Lui => LoadUpper
    case Lw | Lh | Lhu | Lb | Lbu | Lwl | Lwr | Lwu | Ld | Lld | Ldl | Ldr => Load
    case Sw | Sh | Sb | Swl | Swr | Sd | Sdl | Sdr => Store
    case Scd => StoreConditional
    case Mult | Multu | Div | Divu | Dmult | Dmultu | Ddiv | Ddivu => MultiplyDivide
    case Mfhi => MoveFromHi
    case Mflo => MoveFromLo
    case Mthi => MoveToHi
    case Mtlo => MoveToLo
    case Beq | Bne | Beql | Bnel => CompareBranch
    case Blez | Bgtz | Bltz | Bgez | Blezl | Bgtzl | Bltzl | Bgezl => ZeroBranch
    case Bltzal | Bgezal | Bltzall | Bgezall => LinkBranch
    case Jal => JumpAndLink
    case Jr => JumpRegister
    case Jalr => JumpAndLinkRegister
    case Lwc1 | Ldc1 => FpLoad
    case Swc1 | Sdc1 => FpStore
    case Mfc1 | Dmfc1 => MoveFromFp
    case Mtc1 | Dmtc1 => MoveToFp
    case Cfc1 => ControlFromFp
    case Ctc1 => ControlToFp
    case AddS | SubS | MulS | DivS | AddD | SubD | MulD | DivD => FpBinary
    case SqrtS | AbsS | MovS | NegS | SqrtD | AbsD | MovD | NegD | CvtSD | CvtDS | CvtSW | CvtDW
       | CvtWS | CvtWD | CvtLS | CvtLD | CvtSL | CvtDL | TruncWS | TruncWD | RoundWS | RoundWD
       | CeilWS | CeilWD | FloorWS | FloorWD => FpUnary
    case CFS | CUnS | CEqS | CUeqS | COltS | CUltS | COleS | CUleS | CSfS | CNgleS | CSeqS | CNglS
       | CLtS | CNgeS | CLeS | CNgtS | CFD | CUnD | CEqD | CUeqD | COltD | CUltD | COleD | CUleD
       | CSfD | CNgleD | CSeqD | CNglD | CLtD | CNgeD | CLeD | CNgtD => FpCompare
    case Mfc0 => MoveFromCop0
    case Mtc0 => MoveToCop0
    case _ => Other
  }

  function GetInstructionUseDef(inst: Instruction): UseDef {
    match FormatOf(inst.opcode)
    case RegisterAlu =>
      UseDef(Gpr(inst.rs) + Gpr(inst.rt), Gpr(inst.rd), [], [], false, false, false, false)
    case ShiftImmediate =>
      UseDef(Gpr(inst.rt), Gpr(inst.rd), [], [], false, false, false, false)
    case ShiftVariable =>
      UseDef(Gpr(inst.rs) + Gpr(inst.rt), Gpr(inst.rd), [], [], false, false, false, false)
    case ImmediateAlu =>
      UseDef(Gpr(inst.rs), Gpr(inst.rt), [], [], false, false, false, false)
    case LoadUpper =>
      UseDef([], Gpr(inst.rt), [], [], false, false, false, false)
    case Load =>
      UseDef(Gpr(inst.rs), Gpr(inst.rt), [], [], false, false, false, false)
    case Store =>
      UseDef(Gpr(inst.rs) + Gpr(inst.rt), [], [], [], false, false, false, false)
    case StoreConditional =>
      UseDef(Gpr(inst.rs) + Gpr(inst.rt), Gpr(inst.rt), [], [], false, false, false, false)
    case MultiplyDivide =>
      UseDef(Gpr(inst.rs) + Gpr(inst.rt), [], [], [], false, false, true, true)
    case MoveFromHi =>
      UseDef([], Gpr(inst.rd), [], [], true, false, false, false)
    case MoveFromLo =>
      UseDef([], Gpr(inst.rd), [], [], false, true, false, false)
    case MoveToHi =>
      UseDef(Gpr(inst.rs), [], [], [], false, false, true, false)
    case MoveToLo =>
      UseDef(Gpr(inst.rs), [], [], [], false, false, false, true)
    case CompareBranch =>
      UseDef(Gpr(inst.rs) + Gpr(inst.rt), [], [], [], false, false, false, false)
    case ZeroBranch =>
      UseDef(Gpr(inst.rs), [], [], [], false, false, false, false)
    case LinkBranch =>
      UseDef(Gpr(inst.rs), Gpr(Some(RA)), [], [], false, false, false, false)
    case JumpAndLink =>
      UseDef([], Gpr(Some(RA)), [], [], false, false, false, false)
    case JumpRegister =>
      UseDef(Gpr(inst.rs), [], [], [], false, false, false, false)
    case JumpAndLinkRegister =>
      UseDef(Gpr(inst.rs), Gpr(Some(LinkRegister(inst))), [], [], false, false, false, false)
    case FpLoad =>
      UseDef(Gpr(inst.rs), [], [], Fpr(inst.ft), false, false, false, false)
    case FpStore =>
      UseDef(Gpr(inst.rs), [], Fpr(inst.ft), [], false, false, false, false)
    case MoveFromFp =>
      UseDef([], Gpr(inst.rt), Fpr(inst.fs), [], false, false, false, false)
    case MoveToFp =>
      UseDef(Gpr(inst.rt), [], [], Fpr(inst.fs), false, false, false, false)
    case ControlFromFp =>
      UseDef([], Gpr(inst.rt), [], [], false, false, false, false)
    case ControlToFp =>
      UseDef(Gpr(inst.rt), [], [], [], false, false, false, false)
    case FpBinary =>
      UseDef([], [], Fpr(inst.fs) + Fpr(inst.ft), Fpr(inst.fd), false, false, false, false)
    case FpUnary =>
      UseDef([], [], Fpr(inst.fs), Fpr(inst.fd), false, false, false, false)
    case FpCompare =>
      UseDef([], [], Fpr(inst.fs) + Fpr(inst.ft), [], false, false, false, false)
    case MoveFromCop0 =>
      UseDef([], Gpr(inst.rt), [], [], false, false, false, false)
    case MoveToCop0 =>
      UseDef(Gpr(inst.rt), [], [], [], false, false, false, false)
    case Other =>
      UseDef([], [], [], [], false, false, false, false)
  }

  /** The registers numbered lo and up. */
  function RegistersFrom(lo: nat): set<Register>
    requires lo <= 32
    decreases 32 - lo
  {
    if lo == 32 then {} else {lo as Register} + RegistersFrom(lo + 1)
  }

  lemma {:induction false} RegistersFromAre(lo: nat)
    requires lo <= 32
    ensures |RegistersFrom(lo)| == 32 - lo
    ensures forall r: Register :: r in RegistersFrom(lo) <==> lo <= r
    decreases 32 - lo
  {
    if lo < 32 {
      RegistersFromAre(lo + 1);
      var rest, first: Register := RegistersFrom(lo + 1), lo;
      assert first !in rest && RegistersFrom(lo) == {first} + rest;
      hide RegistersFrom;
    }
  }

  // ----- The instruction set's own view -----

  /** Where an instruction puts an integer result. */
  datatype ResultSlot = NoResult | InRd | InRt

  function GprResultSlot(op: Opcode): ResultSlot {
    match op
    // three-operand arithmetic and shifts name their result rd
    case Add | Addu | Sub | Subu | Dadd | Daddu | Dsub | Dsubu | And | Or | Xor | Nor | Slt | Sltu => InRd
    case Sll | Srl | Sra | Dsll | Dsrl | Dsra | Dsll32 | Dsrl32 | Dsra32 => InRd
    case Sllv | Srlv | Srav | Dsllv | Dsrlv | Dsrav => InRd
    // immediate forms and loads name it rt
    case Addi | Addiu | Daddi | Daddiu | Andi | Ori | Xori | Slti | Sltiu => InRt
    case Lui => InRt
    case Lw | Lh | Lhu | Lb | Lbu | Lwl | Lwr | Lwu | Ld | Lld | Ldl | Ldr => InRt
    // store conditional reports success in rt
    case Scd => InRt
    // moves from HI, LO and the coprocessors
    case Mfhi => InRd
    case Mflo => InRd
    case Mfc1 | Dmfc1 => InRt
    case Cfc1 => InRt
    case Mfc0 => InRt
    case _ => NoResult
  }

  function GprResult(inst: Instruction): Option<Register> {
    match GprResultSlot(inst.opcode)
    case InRd => inst.rd
    case InRt => inst.rt
    case NoResult => None
  }

  /** The floating-point register an instruction names as its destination. */
  datatype FprSlot = NoFpr | InFd | InFs | InFt

  function FprResultSlot(op: Opcode): FprSlot {
    match op
    case Lwc1 | Ldc1 => InFt
    case Mtc1 | Dmtc1 => InFs
    case AddS | SubS | MulS | DivS | SqrtS | AbsS | MovS | NegS => InFd
    case AddD | SubD | MulD | DivD | SqrtD | AbsD | MovD | NegD => InFd
    case CvtSD | CvtDS | CvtSW | CvtDW | CvtWS | CvtWD | CvtLS | CvtLD | CvtSL | CvtDL => InFd
    case TruncWS | TruncWD | RoundWS | RoundWD | CeilWS | CeilWD | FloorWS | FloorWD => InFd
    case _ => NoFpr
  }

  function FprResult(inst: Instruction): Option<FpRegister> {
    match FprResultSlot(inst.opcode)
    case InFd => inst.fd
    case InFs => inst.fs
    case InFt => inst.ft
    case NoFpr => None
  }

  /** The extractor's definitions are exactly what the instruction set writes: the named result (never
      $zero) or, for a call, the link register. */
  lemma GprDefsExact(inst: Instruction)
    ensures GetInstructionUseDef(inst).gprDefs ==
            if inst.IsCall() then Gpr(Some(LinkRegister(inst))) else Gpr(GprResult(inst))
  {
    if inst.IsCall() {
      GprDefsOfCall(inst);
    } else {
      GprDefsOfOther(inst);
    }
  }

  lemma LinkBranchIsCall(op: Opcode)
    requires FormatOf(op).LinkBranch?
    ensures op.Bltzal? || op.Bgezal? || op.Bltzall? || op.Bgezall?
  {
  }

  lemma LinkBranchOps(op: Opcode)
    requires op.Bltzal? || op.Bgezal? || op.Bltzall? || op.Bgezall?
    ensures FormatOf(op).LinkBranch?
  {
  }

  lemma JumpAndLinkOps(op: Opcode)
    ensures FormatOf(op).JumpAndLink? == op.Jal?
  {
  }

  lemma RegisterCallOps(op: Opcode)
    ensures FormatOf(op).JumpAndLinkRegister? == op.Jalr?
  {
  }

  /** Being a call is a matter of the operand format alone. */
  lemma CallsOfFormat(op: Opcode)
    ensures IsCallOp(op) ==
            (FormatOf(op).LinkBranch? || FormatOf(op).JumpAndLink? || FormatOf(op).JumpAndLinkRegister?)
    ensures op.Jalr? == FormatOf(op).JumpAndLinkRegister?
  {
    hide FormatOf;
    if FormatOf(op).LinkBranch? {
      LinkBranchIsCall(op);
    }
    if op.Bltzal? || op.Bgezal? || op.Bltzall? || op.Bgezall? {
      LinkBranchOps(op);
    }
    JumpAndLinkOps(op);
    RegisterCallOps(op);
  }

  lemma GprDefsOfCall(inst: Instruction)
    requires inst.IsCall()
    ensures GetInstructionUseDef(inst).gprDefs == Gpr(Some(LinkRegister(inst)))
  {
    CallsOfFormat(inst.opcode);
    hide FormatOf, IsCallOp;
  }

  lemma ResultOfRegisterFormats(op: Opcode)
    requires FormatOf(op).RegisterAlu? || FormatOf(op).ShiftImmediate? || FormatOf(op).ShiftVariable?
    ensures GprResultSlot(op).InRd?
  {
  }

  lemma ResultOfImmediateFormats(op: Opcode)
    requires FormatOf(op).ImmediateAlu? || FormatOf(op).LoadUpper?
    ensures GprResultSlot(op).InRt?
  {
  }

  lemma ResultOfLoadFormats(op: Opcode)
    requires FormatOf(op).Load? || FormatOf(op).StoreConditional?
    ensures GprResultSlot(op).InRt?
  {
  }

  lemma ResultOfHiLoMoves(op: Opcode)
    requires FormatOf(op).MoveFromHi? || FormatOf(op).MoveFromLo?
    ensures GprResultSlot(op).InRd?
  {
  }

  lemma ResultOfCoprocessorMoves(op: Opcode)
    requires FormatOf(op).MoveFromFp? || FormatOf(op).ControlFromFp? || FormatOf(op).MoveFromCop0?
    ensures GprResultSlot(op).InRt?
  {
  }

  predicate HasResult(f: OperandFormat) {
    match f
    case RegisterAlu | ShiftImmediate | ShiftVariable | MoveFromHi | MoveFromLo => true
    case ImmediateAlu | LoadUpper | Load | StoreConditional => true
    case MoveFromFp | ControlFromFp | MoveFromCop0 => true
    case _ => false
  }

  lemma OtherFormatsHaveNoResult(op: Opcode)
    requires !HasResult(FormatOf(op))
    ensures GprResultSlot(op).NoResult?
  {
  }

  /** The result slot is a matter of the operand format alone. */
  lemma ResultSlotOfFormat(op: Opcode)
    ensures GprResultSlot(op) ==
            match FormatOf(op)
            case RegisterAlu | ShiftImmediate | ShiftVariable | MoveFromHi | MoveFromLo => InRd
            case ImmediateAlu | LoadUpper | Load | StoreConditional => InRt
            case MoveFromFp | ControlFromFp | MoveFromCop0 => InRt
            case _ => NoResult
  {
    hide FormatOf, GprResultSlot;
    var f := FormatOf(op);
    if f.RegisterAlu? || f.ShiftImmediate? || f.ShiftVariable? {
      ResultOfRegisterFormats(op);
    } else if f.ImmediateAlu? || f.LoadUpper? {
      ResultOfImmediateFormats(op);
    } else if f.Load? || f.StoreConditional? {
      ResultOfLoadFormats(op);
    } else if f.MoveFromHi? || f.MoveFromLo? {
      ResultOfHiLoMoves(op);
    } else if HasResult(f) {
      ResultOfCoprocessorMoves(op);
    } else {
      OtherFormatsHaveNoResult(op);
    }
  }

  lemma GprDefsOfOther(inst: Instruction)
    requires !inst.IsCall()
    ensures GetInstructionUseDef(inst).gprDefs == Gpr(GprResult(inst))
  {
    ResultSlotOfFormat(inst.opcode);
    CallsOfFormat(inst.opcode);
    hide FormatOf, GprResultSlot, IsCallOp;
  }

  lemma FprOfTransfers(op: Opcode)
    requires FormatOf(op).FpLoad? || FormatOf(op).MoveToFp?
    ensures if FormatOf(op).FpLoad? then FprResultSlot(op).InFt? else FprResultSlot(op).InFs?
  {
  }

  lemma FprOfArithmetic(op: Opcode)
    requires FormatOf(op).FpBinary? || FormatOf(op).FpUnary?
    ensures FprResultSlot(op).InFd?
  {
  }

  lemma FprOfOthers(op: Opcode)
    requires var f := FormatOf(op); !f.FpLoad? && !f.MoveToFp? && !f.FpBinary? && !f.FpUnary?
    ensures FprResultSlot(op).NoFpr?
  {
  }

  /** The same for floating-point destinations. */
  lemma FprDefsExact(inst: Instruction)
    ensures GetInstructionUseDef(inst).fprDefs == Fpr(FprResult(inst))
  {
    hide FormatOf, FprResultSlot;
    var f := FormatOf(inst.opcode);
    if f.FpLoad? || f.MoveToFp? {
      FprOfTransfers(inst.opcode);
    } else if f.FpBinary? || f.FpUnary? {
      FprOfArithmetic(inst.opcode);
    } else {
      FprOfOthers(inst.opcode);
    }
  }

  // ----- Operands of decoded instructions -----

  predicate IsAddImmediate(op: Opcode) { op.Addi? || op.Addiu? || op.Daddi? || op.Daddiu? }

  predicate IsLogicImmediate(op: Opcode) { op.Andi? || op.Ori? || op.Xori? }

  predicate IsAddRegisters(op: Opcode) { op.Addu? || op.Add? || op.Daddu? || op.Dadd? }

  /** The source operands of an addition or of an immediate logic operation are present. */
  predicate HasOperands(inst: Instruction) {
    && (IsAddImmediate(inst.opcode) || IsLogicImmediate(inst.opcode) ==> inst.rs.Some?)
    && (IsAddRegisters(inst.opcode) ==> inst.rs.Some? && inst.rt.Some?)
  }

  predicate NeedsNothing(op: Opcode) {
    !IsAddImmediate(op) && !IsLogicImmediate(op) && !IsAddRegisters(op)
  }

  lemma DecodedMajor(major: bv32)
    ensures !IsAddRegisters(DecodeMajor(major))
  {
  }

  lemma DecodedRegimm(rt: bv32)
    ensures NeedsNothing(DecodeRegimm(rt))
  {
  }

  lemma DecodedFloat(funct: bv32, isDouble: bool)
    ensures NeedsNothing(DecodeCop1Float(funct, isDouble))
  {
  }

  lemma DecodedTransfers(rs: bv32, rt: bv32)
    ensures NeedsNothing(DecodeCop1Move(rs)) && NeedsNothing(DecodeBc1(rt))
  {
  }

  lemma DecodedCop1(base: Instruction, word: bv32)
    requires base.opcode.Unknown?
    ensures NeedsNothing(DecodeCop1(base, word).opcode)
  {
    DecodedFloat(Funct(word), RsField(word) == 0x11);
    DecodedTransfers(RsField(word), RtField(word));
    hide DecodeCop1Float, DecodeCop1Move, DecodeBc1;
  }

  lemma DecodedImmediate(base: Instruction, word: bv32)
    ensures HasOperands(DecodeImmediate(base, word))
  {
    DecodedMajor(MajorOp(word));
    hide DecodeMajor;
  }

  /** Decoded words always come with the source operands their opcode needs. */
  lemma DecodedHasOperands(word: bv32, vram: bv32)
    ensures HasOperands(DecodeInstruction(word, vram))
  {
    var base := Instruction(word, vram, Unknown, None, None, None, None, None, None,
                            (word & 0xFFFF) as bv16, SaField(word), word & 0x03FFFFFF);
    DecodedCop1(base, word);
    DecodedImmediate(base, word);
    DecodedRegimm(RtField(word));
    hide DecodeSpecial, DecodeRegimm, DecodeImmediate, DecodeCop1;
  }
}
