// The instruction set of the simulator: abstract instructions, the simulator's decoder, and the
// encodings of the RISC-V Unprivileged ISA that the decoder is checked against.
module Isa {
  import opened Words

  datatype AluOp = OpAnd | OpOr | OpXor | OpAdd | OpSub | OpSlt | OpSltu | OpSll | OpSrl | OpSra
  datatype MulOp = Mul | Mulh | Mulhsu | Mulhu | Div | Divu | Rem | Remu
  datatype Cond = Eq | Ne | Lt | Ge | Ltu | Geu
  datatype CsrOp = CsrWrite | CsrSet | CsrClear
  datatype Width = Byte | Half | Full

  /** Immediates are kept as the sign-extended words the simulator adds to registers. */
  datatype Instr =
    | AluImm(op: AluOp, rd: bv5, rs1: bv5, imm: Word)
    | Alu(op: AluOp, rd: bv5, rs1: bv5, rs2: bv5)
    | MulDiv(mop: MulOp, rd: bv5, rs1: bv5, rs2: bv5)
    | Lui(rd: bv5, imm: Word)
    | Auipc(rd: bv5, imm: Word)
    | Jal(rd: bv5, imm: Word)
    | Jalr(rd: bv5, rs1: bv5, imm: Word)
    | Branch(cond: Cond, rs1: bv5, rs2: bv5, imm: Word)
    | Load(width: Width, sext: bool, rd: bv5, rs1: bv5, imm: Word)
    | Store(width: Width, rs1: bv5, rs2: bv5, imm: Word)
    | Ecall
    | Ebreak
    | Mret
    | Sret
    | Wfi
    | Fence(rd: bv5)
    | Csr(cop: CsrOp, immediate: bool, rd: bv5, rs1: bv5, csr: bv12)
    | Illegal

  function Rd(o: bv32): bv5 { ((o >> 7) & 0x1F) as bv5 }
  function Rs1(o: bv32): bv5 { ((o >> 15) & 0x1F) as bv5 }
  function Rs2(o: bv32): bv5 { ((o >> 20) & 0x1F) as bv5 }

  /** All ones when the sign bit of the instruction is set. */
  function Sign(o: bv32): bv32 { if o & 0x8000_0000 != 0 then 0xFFFF_FFFF else 0 }

  /** The arithmetic right shift of the top twelve bits. */
  function ImmI(o: bv32): bv32 { (o >> 20) | (Sign(o) << 12) }

  function ImmU(o: bv32): bv32 { o & 0xFFFF_F000 }

  function Shamt(o: bv32): bv32 { (o >> 20) & 0x3F }

  function ImmS(o: bv32): bv32 { ((o >> 7) & 0x1F) | (((o >> 25) & 0x7F) << 5) | (Sign(o) << 12) }

  function ImmB(o: bv32): bv32 {
    (((o >> 8) & 0xF) << 1) | (((o >> 25) & 0x3F) << 5) | (((o >> 7) & 1) << 11) | (Sign(o) << 12)
  }

  function ImmJ(o: bv32): bv32 {
    (((o >> 21) & 0x3FF) << 1) | (((o >> 20) & 1) << 11) | (((o >> 12) & 0xFF) << 12) | (Sign(o) << 20)
  }

  // The decoder, in the order of the source. Instructions with the same mask are matched together.

  function Decode(o: bv32): Instr {
    if o == 0 then Illegal
    else match o & 0x7F
      case 0x37 => Lui(Rd(o), Word(ImmU(o)))
      case 0x17 => Auipc(Rd(o), Word(ImmU(o)))
      case 0x6F => Jal(Rd(o), Word(ImmJ(o)))
      case 0x13 => DecodeOpImm(o)
      case 0x33 => DecodeOp(o)
      case 0x73 => DecodeSystem(o)
      case _ => DecodeMemory(o)
  }

  function DecodeOpImm(o: bv32): Instr {
    match o & 0x707F
    case 0x7013 => AluImm(OpAnd, Rd(o), Rs1(o), Word(ImmI(o)))
    case 0x6013 => AluImm(OpOr, Rd(o), Rs1(o), Word(ImmI(o)))
    case 0x4013 => AluImm(OpXor, Rd(o), Rs1(o), Word(ImmI(o)))
    case 0x0013 => AluImm(OpAdd, Rd(o), Rs1(o), Word(ImmI(o)))
    case 0x2013 => AluImm(OpSlt, Rd(o), Rs1(o), Word(ImmI(o)))
    case 0x3013 => AluImm(OpSltu, Rd(o), Rs1(o), Word(ImmI(o)))
    case _ =>
      match o & 0xFC00_707F
      case 0x1013 => AluImm(OpSll, Rd(o), Rs1(o), Word(Shamt(o)))
      case 0x5013 => AluImm(OpSrl, Rd(o), Rs1(o), Word(Shamt(o)))
      case 0x4000_5013 => AluImm(OpSra, Rd(o), Rs1(o), Word(Shamt(o)))
      case _ => Illegal
  }

  function DecodeOp(o: bv32): Instr {
    match o & 0xFE00_707F
    case 0x0000_0033 => Alu(OpAdd, Rd(o), Rs1(o), Rs2(o))
    case 0x4000_0033 => Alu(OpSub, Rd(o), Rs1(o), Rs2(o))
    case 0x0000_2033 => Alu(OpSlt, Rd(o), Rs1(o), Rs2(o))
    case 0x0000_3033 => Alu(OpSltu, Rd(o), Rs1(o), Rs2(o))
    case 0x0000_4033 => Alu(OpXor, Rd(o), Rs1(o), Rs2(o))
    case 0x0000_6033 => Alu(OpOr, Rd(o), Rs1(o), Rs2(o))
    case 0x0000_7033 => Alu(OpAnd, Rd(o), Rs1(o), Rs2(o))
    case 0x0000_1033 => Alu(OpSll, Rd(o), Rs1(o), Rs2(o))
    case 0x0000_5033 => Alu(OpSrl, Rd(o), Rs1(o), Rs2(o))
    case 0x4000_5033 => Alu(OpSra, Rd(o), Rs1(o), Rs2(o))
    case 0x0200_0033 => MulDiv(Mul, Rd(o), Rs1(o), Rs2(o))
    case 0x0200_1033 => MulDiv(Mulh, Rd(o), Rs1(o), Rs2(o))
    case 0x0200_2033 => MulDiv(Mulhsu, Rd(o), Rs1(o), Rs2(o))
    case 0x0200_3033 => MulDiv(Mulhu, Rd(o), Rs1(o), Rs2(o))
    case 0x0200_4033 => MulDiv(Div, Rd(o), Rs1(o), Rs2(o))
    case 0x0200_5033 => MulDiv(Divu, Rd(o), Rs1(o), Rs2(o))
    case 0x0200_6033 => MulDiv(Rem, Rd(o), Rs1(o), Rs2(o))
    case 0x0200_7033 => MulDiv(Remu, Rd(o), Rs1(o), Rs2(o))
    case _ => Illegal
  }

  function DecodeMemory(o: bv32): Instr {
    match o & 0x707F
    case 0x0067 => Jalr(Rd(o), Rs1(o), Word(ImmI(o)))
    case 0x0063 => Branch(Eq, Rs1(o), Rs2(o), Word(ImmB(o)))
    case 0x1063 => Branch(Ne, Rs1(o), Rs2(o), Word(ImmB(o)))
    case 0x4063 => Branch(Lt, Rs1(o), Rs2(o), Word(ImmB(o)))
    case 0x5063 => Branch(Ge, Rs1(o), Rs2(o), Word(ImmB(o)))
    case 0x6063 => Branch(Ltu, Rs1(o), Rs2(o), Word(ImmB(o)))
    case 0x7063 => Branch(Geu, Rs1(o), Rs2(o), Word(ImmB(o)))
    case 0x0003 => Load(Byte, true, Rd(o), Rs1(o), Word(ImmI(o)))
    case 0x1003 => Load(Half, true, Rd(o), Rs1(o), Word(ImmI(o)))
    case 0x2003 => Load(Full, true, Rd(o), Rs1(o), Word(ImmI(o)))
    case 0x4003 => Load(Byte, false, Rd(o), Rs1(o), Word(ImmI(o)))
    case 0x5003 => Load(Half, false, Rd(o), Rs1(o), Word(ImmI(o)))
    case 0x6003 => Load(Full, false, Rd(o), Rs1(o), Word(ImmI(o)))
    case 0x0023 => Store(Byte, Rs1(o), Rs2(o), Word(ImmS(o)))
    case 0x1023 => Store(Half, Rs1(o), Rs2(o), Word(ImmS(o)))
    case 0x2023 => Store(Full, Rs1(o), Rs2(o), Word(ImmS(o)))
    case 0x000F => Fence(Rd(o))
    case 0x100F => Fence(Rd(o))
    case _ => Illegal
  }

  function DecodeSystem(o: bv32): Instr {
    if o == 0x0000_0073 then Ecall
    else if o == 0x0010_0073 then Ebreak
    else if o == 0x3020_0073 then Mret
    else if o == 0x1020_0073 then Sret
    else if o & 0xFE00_7FFF == 0x1200_0073 then Fence(0)
    else
      match o & 0x707F
      case 0x1073 => Csr(CsrWrite, false, Rd(o), Rs1(o), (o >> 20) as bv12)
      case 0x2073 => Csr(CsrSet, false, Rd(o), Rs1(o), (o >> 20) as bv12)
      case 0x3073 => Csr(CsrClear, false, Rd(o), Rs1(o), (o >> 20) as bv12)
      case 0x5073 => Csr(CsrWrite, true, Rd(o), Rs1(o), (o >> 20) as bv12)
      case 0x6073 => Csr(CsrSet, true, Rd(o), Rs1(o), (o >> 20) as bv12)
      case 0x7073 => Csr(CsrClear, true, Rd(o), Rs1(o), (o >> 20) as bv12)
      case _ => if o & 0xFFFF_8FFF == 0x1050_0073 then Wfi else Illegal
  }

  // ---------------------------------------------------------------------------------------------
  // Encodings: the formats R, I, S, B, U and J of section 2.3 of the RISC-V Unprivileged ISA. A
  // format places slices of the immediate, named by their bit positions, around the register fields.

  function Core(rs1: bv5, f3: bv32, op: bv32): bv32 { ((rs1 as bv32) << 15) | (f3 << 12) | op }

  function FormatR(f7: bv32, rs2: bv5, rs1: bv5, f3: bv32, rd: bv5, op: bv32): bv32 {
    (f7 << 25) | ((rs2 as bv32) << 20) | Core(rs1, f3, op) | ((rd as bv32) << 7)
  }

  function FormatI(imm: bv32, rs1: bv5, f3: bv32, rd: bv5, op: bv32): bv32 {
    ((imm & 0xFFF) << 20) | Core(rs1, f3, op) | ((rd as bv32) << 7)
  }

  function FormatS(imm: bv32, rs2: bv5, rs1: bv5, f3: bv32, op: bv32): bv32 {
    (((imm >> 5) & 0x7F) << 25) | ((rs2 as bv32) << 20) | Core(rs1, f3, op) | ((imm & 0x1F) << 7)
  }

  function FormatB(imm: bv32, rs2: bv5, rs1: bv5, f3: bv32, op: bv32): bv32 {
    (((imm >> 12) & 0x1) << 31) | (((imm >> 5) & 0x3F) << 25) | ((rs2 as bv32) << 20) | Core(rs1, f3, op)
    | (((imm >> 1) & 0xF) << 8) | (((imm >> 11) & 0x1) << 7)
  }

  function FormatU(imm: bv32, rd: bv5, op: bv32): bv32 { (((imm >> 12) & 0xFFFFF) << 12) | ((rd as bv32) << 7) | op }

  function FormatJ(imm: bv32, rd: bv5, op: bv32): bv32 {
    (((imm >> 20) & 0x1) << 31) | (((imm >> 1) & 0x3FF) << 21)
      | (((imm >> 11) & 0x1) << 20) | (((imm >> 12) & 0xFF) << 12)
    | ((rd as bv32) << 7) | op
  }

  function AluF3(op: AluOp): bv32 {
    match op
    case OpAdd => 0 case OpSub => 0
    case OpSll => 1
    case OpSlt => 2
    case OpSltu => 3
    case OpXor => 4
    case OpSrl => 5 case OpSra => 5
    case OpOr => 6
    case OpAnd => 7
  }

  function AluF7(op: AluOp): bv32 { if op == OpSub || op == OpSra then 0x20 else 0 }

  function MulF3(op: MulOp): bv32 {
    match op
    case Mul => 0 case Mulh => 1 case Mulhsu => 2 case Mulhu => 3
    case Div => 4 case Divu => 5 case Rem => 6 case Remu => 7
  }

  function CondF3(c: Cond): bv32 {
    match c
    case Eq => 0 case Ne => 1 case Lt => 4 case Ge => 5 case Ltu => 6 case Geu => 7
  }

  function WidthF3(w: Width): bv32 { match w case Byte => 0 case Half => 1 case Full => 2 }

  function CsrF3(op: CsrOp): bv32 { match op case CsrWrite => 1 case CsrSet => 2 case CsrClear => 3 }

  predicate IsShift(op: AluOp) { op == OpSll || op == OpSrl || op == OpSra }

  // imm is the sign extension of its low 12, 13 or 21 bits.
  predicate Fits12(imm: bv32) { imm <= 0x7FF || imm >= 0xFFFF_F800 }
  predicate Fits13(imm: bv32) { imm <= 0xFFF || imm >= 0xFFFF_F000 }
  predicate Fits21(imm: bv32) { imm <= 0xF_FFFF || imm >= 0xFFF0_0000 }

  /** The instructions an assembler for RV32IM with the Zicsr, M- and S-mode instructions can emit. */
  predicate Encodable(i: Instr) {
    match i
    case AluImm(op, _, _, imm) => op != OpSub && if IsShift(op) then imm.bits < 32 else Fits12(imm.bits)
    case Lui(_, imm) => imm.bits & 0xFFF == 0
    case Auipc(_, imm) => imm.bits & 0xFFF == 0
    case Jal(_, imm) => Fits21(imm.bits) && imm.bits & 1 == 0
    case Jalr(_, _, imm) => Fits12(imm.bits)
    case Branch(_, _, _, imm) => Fits13(imm.bits) && imm.bits & 1 == 0
    case Load(_, _, _, _, imm) => Fits12(imm.bits)
    case Store(_, _, _, imm) => Fits12(imm.bits)
    case Illegal => false
    case _ => true
  }

  function Encode(i: Instr): bv32
    requires Encodable(i)
  {
    match i
    case AluImm(op, rd, rs1, imm) =>
      if IsShift(op) then FormatR(AluF7(op), (imm.bits & 0x1F) as bv5, rs1, AluF3(op), rd, 0x13)
      else FormatI(imm.bits, rs1, AluF3(op), rd, 0x13)
    case Alu(op, rd, rs1, rs2) => FormatR(AluF7(op), rs2, rs1, AluF3(op), rd, 0x33)
    case MulDiv(op, rd, rs1, rs2) => FormatR(1, rs2, rs1, MulF3(op), rd, 0x33)
    case Lui(rd, imm) => FormatU(imm.bits, rd, 0x37)
    case Auipc(rd, imm) => FormatU(imm.bits, rd, 0x17)
    case Jal(rd, imm) => FormatJ(imm.bits, rd, 0x6F)
    case Jalr(rd, rs1, imm) => FormatI(imm.bits, rs1, 0, rd, 0x67)
    case Branch(c, rs1, rs2, imm) => FormatB(imm.bits, rs2, rs1, CondF3(c), 0x63)
    case Load(width, sext, rd, rs1, imm) => FormatI(imm.bits, rs1, WidthF3(width) | (if sext then 0 else 4), rd, 0x03)
    case Store(width, rs1, rs2, imm) => FormatS(imm.bits, rs2, rs1, WidthF3(width), 0x23)
    case Ecall => FormatI(0, 0, 0, 0, 0x73)
    case Ebreak => FormatI(1, 0, 0, 0, 0x73)
    case Mret => FormatR(0x18, 2, 0, 0, 0, 0x73)
    case Sret => FormatR(0x08, 2, 0, 0, 0, 0x73)
    case Wfi => FormatR(0x08, 5, 0, 0, 0, 0x73)
    case Fence(rd) => FormatI(0, 0, 0, rd, 0x0F)
    case Csr(op, immediate, rd, rs1, csr) =>
      FormatI(csr as bv32, rs1, CsrF3(op) | (if immediate then 4 else 0), rd, 0x73)
    case Illegal => 0
  }

  lemma FieldsOfR(f7: bv32, rs2: bv5, rs1: bv5, f3: bv32, rd: bv5, op: bv32)
    requires f7 < 128 && f3 < 8 && op < 128
    ensures var o := FormatR(f7, rs2, rs1, f3, rd, op);
      && Rd(o) == rd && Rs1(o) == rs1 && Rs2(o) == rs2
      && o & 0x7F == op && o & 0x707F == (f3 << 12) | op
      && o & 0xFE00_707F == (f7 << 25) | (f3 << 12) | op
      && (f7 & 1 == 0 ==> o & 0xFC00_707F == (f7 << 25) | (f3 << 12) | op && Shamt(o) == rs2 as bv32)
  {
  }

  lemma FieldsOfI(imm: bv32, rs1: bv5, f3: bv32, rd: bv5, op: bv32)
    requires f3 < 8 && op < 128
    ensures var o := FormatI(imm, rs1, f3, rd, op);
      && Rd(o) == rd && Rs1(o) == rs1
      && o & 0x7F == op && o & 0x707F == (f3 << 12) | op
      && (Fits12(imm) ==> ImmI(o) == imm)
  {
  }

  lemma FieldsOfS(imm: bv32, rs2: bv5, rs1: bv5, f3: bv32, op: bv32)
    requires f3 < 8 && op < 128 && Fits12(imm)
    ensures var o := FormatS(imm, rs2, rs1, f3, op);
      && Rs1(o) == rs1 && Rs2(o) == rs2
      && o & 0x7F == op && o & 0x707F == (f3 << 12) | op
      && ImmS(o) == imm
  {
  }

  /** o has register fields rd, rs1 and rs2 and the given bits under the mask of R-format instructions. */
  predicate HasFields(o: bv32, bits: bv32, rs2: bv5, rs1: bv5, rd: bv5) {
    o & 0xFE00_707F == bits && Rd(o) == rd && Rs1(o) == rs1 && Rs2(o) == rs2
  }

  lemma DecodesByOpcode(o: bv32)
    ensures o & 0x7F == 0x13 ==> Decode(o) == DecodeOpImm(o)
    ensures o & 0x7F == 0x33 ==> Decode(o) == DecodeOp(o)
  {
  }

  lemma DecodesShift(o: bv32, op: AluOp, rd: bv5, rs1: bv5, shamt: bv5)
    requires IsShift(op)
    requires o & 0xFC00_707F == (AluF7(op) << 25) | (AluF3(op) << 12) | 0x13
    requires Rd(o) == rd && Rs1(o) == rs1 && Shamt(o) == shamt as bv32
    ensures DecodeOpImm(o) == AluImm(op, rd, rs1, Word(shamt as bv32))
  {
    assert o & 0x707F == (AluF3(op) << 12) | 0x13;
  }

  lemma DecodesAlu(o: bv32, op: AluOp, rd: bv5, rs1: bv5, rs2: bv5)
    requires HasFields(o, (AluF7(op) << 25) | (AluF3(op) << 12) | 0x33, rs2, rs1, rd)
    ensures DecodeOp(o) == Alu(op, rd, rs1, rs2)
  {
  }

  lemma DecodesMulDiv(o: bv32, op: MulOp, rd: bv5, rs1: bv5, rs2: bv5)
    requires HasFields(o, (1 << 25) | (MulF3(op) << 12) | 0x33, rs2, rs1, rd)
    ensures DecodeOp(o) == MulDiv(op, rd, rs1, rs2)
  {
  }

  lemma DecodesImm(o: bv32, op: AluOp, rd: bv5, rs1: bv5, imm: bv32)
    requires !IsShift(op) && op != OpSub
    requires o & 0x707F == (AluF3(op) << 12) | 0x13
    requires Rd(o) == rd && Rs1(o) == rs1 && ImmI(o) == imm
    ensures DecodeOpImm(o) == AluImm(op, rd, rs1, Word(imm))
  {
  }

  lemma ShiftRoundTrip(op: AluOp, rd: bv5, rs1: bv5, shamt: bv5)
    requires IsShift(op)
    ensures Decode(FormatR(AluF7(op), shamt, rs1, AluF3(op), rd, 0x13)) == AluImm(op, rd, rs1, Word(shamt as bv32))
  {
    var o := FormatR(AluF7(op), shamt, rs1, AluF3(op), rd, 0x13);
    FieldsOfR(AluF7(op), shamt, rs1, AluF3(op), rd, 0x13);
    DecodesByOpcode(o);
    DecodesShift(o, op, rd, rs1, shamt);
  }

  lemma ImmRoundTrip(op: AluOp, rd: bv5, rs1: bv5, imm: bv32)
    requires !IsShift(op) && op != OpSub && Fits12(imm)
    ensures Decode(FormatI(imm, rs1, AluF3(op), rd, 0x13)) == AluImm(op, rd, rs1, Word(imm))
  {
    var o := FormatI(imm, rs1, AluF3(op), rd, 0x13);
    FieldsOfI(imm, rs1, AluF3(op), rd, 0x13);
    DecodesByOpcode(o);
    DecodesImm(o, op, rd, rs1, imm);
  }

  lemma ShamtKept(imm: bv32)
    requires imm < 32
    ensures ((imm & 0x1F) as bv5) as bv32 == imm
  {
  }

  lemma OpImmRoundTrip(op: AluOp, rd: bv5, rs1: bv5, imm: Word)
    requires Encodable(AluImm(op, rd, rs1, imm))
    ensures Decode(Encode(AluImm(op, rd, rs1, imm))) == AluImm(op, rd, rs1, imm)
  {
    if IsShift(op) {
      ShiftRoundTrip(op, rd, rs1, (imm.bits & 0x1F) as bv5);
      ShamtKept(imm.bits);
    } else {
      ImmRoundTrip(op, rd, rs1, imm.bits);
    }
  }

  lemma OpRoundTrip(op: AluOp, rd: bv5, rs1: bv5, rs2: bv5)
    ensures Decode(Encode(Alu(op, rd, rs1, rs2))) == Alu(op, rd, rs1, rs2)
  {
    var o := Encode(Alu(op, rd, rs1, rs2));
    FieldsOfR(AluF7(op), rs2, rs1, AluF3(op), rd, 0x33);
    DecodesByOpcode(o);
    DecodesAlu(o, op, rd, rs1, rs2);
  }

  lemma MulDivRoundTrip(op: MulOp, rd: bv5, rs1: bv5, rs2: bv5)
    ensures Decode(Encode(MulDiv(op, rd, rs1, rs2))) == MulDiv(op, rd, rs1, rs2)
  {
    var o := Encode(MulDiv(op, rd, rs1, rs2));
    FieldsOfR(1, rs2, rs1, MulF3(op), rd, 0x33);
    DecodesByOpcode(o);
    DecodesMulDiv(o, op, rd, rs1, rs2);
  }

  lemma UpperRoundTrip(i: Instr)
    requires (i.Lui? || i.Auipc? || i.Jal?) && Encodable(i)
    ensures Decode(Encode(i)) == i
  {
  }

  lemma BranchRoundTrip(i: Instr)
    requires (i.Branch?) && Encodable(i)
    ensures Decode(Encode(i)) == i
  {
  }

  lemma LoadRoundTrip(i: Instr)
    requires (i.Load? || i.Jalr?) && Encodable(i)
    ensures Decode(Encode(i)) == i
  {
    var o := Encode(i);
    if i.Load? {
      FieldsOfI(i.imm.bits, i.rs1, WidthF3(i.width) | (if i.sext then 0 else 4), i.rd, 0x03);
    } else {
      FieldsOfI(i.imm.bits, i.rs1, 0, i.rd, 0x67);
    }
    assert Decode(o) == DecodeMemory(o);
  }

  lemma StoreRoundTrip(i: Instr)
    requires (i.Store?) && Encodable(i)
    ensures Decode(Encode(i)) == i
  {
    var o := Encode(i);
    FieldsOfS(i.imm.bits, i.rs2, i.rs1, WidthF3(i.width), 0x23);
    assert Decode(o) == DecodeMemory(o);
  }

  lemma CsrRoundTrip(i: Instr)
    requires (i.Csr?) && Encodable(i)
    ensures Decode(Encode(i)) == i
  {
  }

  lemma RestRoundTrip(i: Instr)
    requires (i.Ecall? || i.Ebreak? || i.Mret? || i.Sret? || i.Wfi? || i.Fence?) && Encodable(i)
    ensures Decode(Encode(i)) == i
  {
  }

  /** Encoding an instruction and decoding the word returns the instruction, whatever it is. */
  lemma DecodeEncode(i: Instr)
    requires Encodable(i)
    ensures Decode(Encode(i)) == i
  {
    match i
    case AluImm(op, rd, rs1, imm) => OpImmRoundTrip(op, rd, rs1, imm);
    case Alu(op, rd, rs1, rs2) => OpRoundTrip(op, rd, rs1, rs2);
    case MulDiv(op, rd, rs1, rs2) => MulDivRoundTrip(op, rd, rs1, rs2);
    case Lui(_, _) => UpperRoundTrip(i);
    case Auipc(_, _) => UpperRoundTrip(i);
    case Jal(_, _) => UpperRoundTrip(i);
    case Jalr(_, _, _) => LoadRoundTrip(i);
    case Branch(_, _, _, _) => BranchRoundTrip(i);
    case Load(_, _, _, _, _) => LoadRoundTrip(i);
    case Store(_, _, _, _) => StoreRoundTrip(i);
    case Csr(_, _, _, _, _) => CsrRoundTrip(i);
    case _ => RestRoundTrip(i);
  }
}
