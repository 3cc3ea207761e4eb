/**
 One RV64 instruction at a time: the word decoders of src/apps/c4c-objdump.cpp, the
 printed form of a decoded instruction as operand tokens, and the line parser and encoder
 of src/backend/mir/riscv/codegen/rv64_line_assembler.cpp.
 */
module Rv64Isa {
  import opened Machine
  import opened Rv64Bits

  datatype ROp = ADD | SUB | SLL | SLT | SLTU | XOR | SRL | SRA | OR | AND | ADDW | SUBW | SLLW | SRLW | SRAW
  datatype IOp = ADDI | SLTI | SLTIU | XORI | ORI | ANDI | ADDIW
  datatype ShiftOp = SLLI | SRLI | SRAI | SLLIW | SRLIW | SRAIW
  datatype LoadOp = LB | LH | LW | LD | LBU | LHU | LWU
  datatype StoreOp = SB | SH | SW | SD
  datatype UOp = LUI | AUIPC
  datatype BranchOp = BEQ | BNE | BLT | BGE | BLTU | BGEU

  /** Mnemonics, grouped by the table that lists them; spellings are distinct across tables. */
  datatype Mnemonic =
    | RM(r: ROp) | IM(i: IOp) | ShiftM(shift: ShiftOp) | LoadM(load: LoadOp) | StoreM(store: StoreOp)
    | UM(u: UOp) | BranchM(branch: BranchOp) | JAL | JALR | LI | RET | INSN_D

  // --------------------------------------------------------------- decoder

  datatype Format = RType | IType | Load | Store | UType | Jalr | Branch | Jal

  datatype Decoded =
    | DecodedInsnD(major: bv32, operation: bv32, destination: bv32, lhs: bv32, rhs: bv32, accumulator: bv32,
                   dtype: bv32)
    | DecodedLi(destination: bv32, immediate: int)
    | DecodedRet
    | DecodedRv64I(format: Format, mnemonic: Mnemonic, destination: bv32, lhs: bv32, rhs: bv32, immediate: int,
                   targetLabel: string)

  predicate IsControlFlow(d: Decoded)
  {
    d.DecodedRv64I? && (d.format.Branch? || d.format.Jal?)
  }

  function Asr(x: bv32, s: bv6): bv32
    requires s < 32
  {
    if x < 0x8000_0000 then x >> s else (x >> s) | !(0xffff_ffff >> s)
  }

  function SignExtend(value: bv32, width: bv6): bv32
    requires 0 < width <= 32
  {
    Asr(value << (32 - width), 32 - width)
  }

  function DecodeInsnD(w: bv64): Option<Decoded>
  {
    if w & 0x7f != 0x3f || (w >> 12) & 7 != 0 || (w >> 45) & 7 != 0 then None
    else
      Some(DecodedInsnD(((w >> 25) & 0x7f) as bv32, ((w >> 32) & 0xff) as bv32, ((w >> 7) & 0x1f) as bv32,
                        ((w >> 15) & 0x1f) as bv32, ((w >> 20) & 0x1f) as bv32, ((w >> 40) & 0x1f) as bv32,
                        ((w >> 48) & 0xffff) as bv32))
  }

  function Opcode(w: bv32): bv32 { w & 0x7f }
  function Rd(w: bv32): bv32 { (w >> 7) & 0x1f }
  function Funct3(w: bv32): bv32 { (w >> 12) & 7 }
  function Rs1(w: bv32): bv32 { (w >> 15) & 0x1f }
  function Rs2(w: bv32): bv32 { (w >> 20) & 0x1f }
  function Funct7(w: bv32): bv32 { (w >> 25) & 0x7f }
  function Imm12(w: bv32): bv32 { (w >> 20) & 0xfff }

  function IImm(w: bv32): bv32 { Asr(w, 20) }
  function SRaw(w: bv32): bv32 { ((w >> 25) << 5) | ((w >> 7) & 0x1f) }
  function SImm(w: bv32): bv32 { SignExtend(SRaw(w), 12) }
  function UImm(w: bv32): bv32 { SignExtend(w >> 12, 20) }

  function BRaw(w: bv32): bv32
  {
    ((w >> 31) << 12) | (((w >> 25) & 0x3f) << 5) | (((w >> 8) & 0xf) << 1) | (((w >> 7) & 1) << 11)
  }

  function BImm(w: bv32): bv32 { SignExtend(BRaw(w), 13) }

  function JRaw(w: bv32): bv32
  {
    ((w >> 31) << 20) | (((w >> 21) & 0x3ff) << 1) | (((w >> 20) & 1) << 11) | (((w >> 12) & 0xff) << 12)
  }

  function JImm(w: bv32): bv32 { SignExtend(JRaw(w), 21) }

  function DecodeLi(w: bv32): Option<Decoded>
  {
    if Opcode(w) != 0x13 || Rd(w) != 10 || Funct3(w) != 0 || Rs1(w) != 0 || IImm(w) != 0 then None
    else Some(DecodedLi(Rd(w), Signed(IImm(w))))
  }

  function DecodeRet(w: bv32): Option<Decoded>
  {
    if Opcode(w) != 0x67 || Rd(w) != 0 || Funct3(w) != 0 || Rs1(w) != 1 || IImm(w) != 0 then None
    else Some(DecodedRet)
  }

  /** The register-register table, scanned in source order. */
  function RMnemonic(op: bv32, f3: bv32, f7: bv32): Option<ROp>
  {
    if op == 0x33 && f3 == 0 && f7 == 0x00 then Some(ADD)
    else if op == 0x33 && f3 == 0 && f7 == 0x20 then Some(SUB)
    else if op == 0x33 && f3 == 1 && f7 == 0x00 then Some(SLL)
    else if op == 0x33 && f3 == 2 && f7 == 0x00 then Some(SLT)
    else if op == 0x33 && f3 == 3 && f7 == 0x00 then Some(SLTU)
    else if op == 0x33 && f3 == 4 && f7 == 0x00 then Some(XOR)
    else if op == 0x33 && f3 == 5 && f7 == 0x00 then Some(SRL)
    else if op == 0x33 && f3 == 5 && f7 == 0x20 then Some(SRA)
    else if op == 0x33 && f3 == 6 && f7 == 0x00 then Some(OR)
    else if op == 0x33 && f3 == 7 && f7 == 0x00 then Some(AND)
    else if op == 0x3b && f3 == 0 && f7 == 0x00 then Some(ADDW)
    else if op == 0x3b && f3 == 0 && f7 == 0x20 then Some(SUBW)
    else if op == 0x3b && f3 == 1 && f7 == 0x00 then Some(SLLW)
    else if op == 0x3b && f3 == 5 && f7 == 0x00 then Some(SRLW)
    else if op == 0x3b && f3 == 5 && f7 == 0x20 then Some(SRAW)
    else None
  }

  datatype ShiftMatch = ShiftMatch(shift: ShiftOp, shamt: bv32)

  /** The shift table: the bits of `imm12` above the shift amount select the row. */
  function ShiftMnemonic(op: bv32, f3: bv32, imm12: bv32): Option<ShiftMatch>
  {
    if op == 0x13 then ShiftIn(f3, imm12, 0x3f, SLLI, SRLI, SRAI)
    else if op == 0x1b then ShiftIn(f3, imm12, 0x1f, SLLIW, SRLIW, SRAIW)
    else None
  }

  /** The three rows of one opcode: left, logical right, arithmetic right. */
  function ShiftIn(f3: bv32, imm12: bv32, mask: bv32, left: ShiftOp, logical: ShiftOp, arithmetic: ShiftOp)
    : Option<ShiftMatch>
  {
    var selector := imm12 & !mask;
    if f3 == 1 && selector == 0x00 << 5 then Some(ShiftMatch(left, imm12 & mask))
    else if f3 == 5 && selector == 0x00 << 5 then Some(ShiftMatch(logical, imm12 & mask))
    else if f3 == 5 && selector == 0x20 << 5 then Some(ShiftMatch(arithmetic, imm12 & mask))
    else None
  }

  function IMnemonic(op: bv32, f3: bv32): Option<IOp>
  {
    if op == 0x13 && f3 == 0 then Some(ADDI)
    else if op == 0x13 && f3 == 2 then Some(SLTI)
    else if op == 0x13 && f3 == 3 then Some(SLTIU)
    else if op == 0x13 && f3 == 4 then Some(XORI)
    else if op == 0x13 && f3 == 6 then Some(ORI)
    else if op == 0x13 && f3 == 7 then Some(ANDI)
    else if op == 0x1b && f3 == 0 then Some(ADDIW)
    else None
  }

  function LoadMnemonic(op: bv32, f3: bv32): Option<LoadOp>
  {
    if op != 0x03 then None
    else if f3 == 0 then Some(LB)
    else if f3 == 1 then Some(LH)
    else if f3 == 2 then Some(LW)
    else if f3 == 3 then Some(LD)
    else if f3 == 4 then Some(LBU)
    else if f3 == 5 then Some(LHU)
    else if f3 == 6 then Some(LWU)
    else None
  }

  function StoreMnemonic(op: bv32, f3: bv32): Option<StoreOp>
  {
    if op != 0x23 then None
    else if f3 == 0 then Some(SB)
    else if f3 == 1 then Some(SH)
    else if f3 == 2 then Some(SW)
    else if f3 == 3 then Some(SD)
    else None
  }

  function UMnemonic(op: bv32): Option<UOp>
  {
    if op == 0x37 then Some(LUI) else if op == 0x17 then Some(AUIPC) else None
  }

  function BranchMnemonic(f3: bv32): Option<BranchOp>
  {
    if f3 == 0 then Some(BEQ)
    else if f3 == 1 then Some(BNE)
    else if f3 == 4 then Some(BLT)
    else if f3 == 5 then Some(BGE)
    else if f3 == 6 then Some(BLTU)
    else if f3 == 7 then Some(BGEU)
    else None
  }

  function DecodeRv64I(w: bv32): Option<Decoded>
  {
    var op, f3 := Opcode(w), Funct3(w);
    var r := RMnemonic(op, f3, Funct7(w));
    var shift := ShiftMnemonic(op, f3, Imm12(w));
    var i := IMnemonic(op, f3);
    var branch := BranchMnemonic(f3);
    var load, store, u := LoadMnemonic(op, f3), StoreMnemonic(op, f3), UMnemonic(op);
    if r.Some? then Some(DecodedRv64I(RType, RM(r.value), Rd(w), Rs1(w), Rs2(w), 0, ""))
    else if shift.Some? then
      Some(DecodedRv64I(IType, ShiftM(shift.value.shift), Rd(w), Rs1(w), 0, Signed(shift.value.shamt), ""))
    else if i.Some? then Some(DecodedRv64I(IType, IM(i.value), Rd(w), Rs1(w), 0, Signed(IImm(w)), ""))
    else if op == 0x67 && f3 == 0 then Some(DecodedRv64I(Jalr, JALR, Rd(w), Rs1(w), 0, Signed(IImm(w)), ""))
    else if op == 0x6f then Some(DecodedRv64I(Jal, JAL, Rd(w), 0, 0, Signed(JImm(w)), ""))
    else if op == 0x63 && branch.Some? then
      Some(DecodedRv64I(Branch, BranchM(branch.value), 0, Rs1(w), Rs2(w), Signed(BImm(w)), ""))
    else if load.Some? then Some(DecodedRv64I(Load, LoadM(load.value), Rd(w), Rs1(w), 0, Signed(IImm(w)), ""))
    else if store.Some? then Some(DecodedRv64I(Store, StoreM(store.value), 0, Rs1(w), Rs2(w), Signed(SImm(w)), ""))
    else if u.Some? then Some(DecodedRv64I(UType, UM(u.value), Rd(w), 0, 0, Signed(UImm(w)), ""))
    else None
  }

  /** A 4-byte word: `li`, then `ret`, then the base table. */
  function DecodeWord(w: bv32): Option<Decoded>
  {
    if DecodeLi(w).Some? then DecodeLi(w)
    else if DecodeRet(w).Some? then DecodeRet(w)
    else DecodeRv64I(w)
  }

  // --------------------------------------------------------------- printer

  /** Operand tokens; the spelling of each token is an injective table or a decimal number. */
  datatype Operand =
    | Gpr(reg: bv32) | Vec(reg: bv32) | Num(word: bv32) | Imm(value: int) | Mem(offset: int, base: bv32)
    | Sym(name: string)

  function PrintMnemonic(d: Decoded): Mnemonic
  {
    match d
    case DecodedInsnD(_, _, _, _, _, _, _) => INSN_D
    case DecodedLi(_, _) => LI
    case DecodedRet => RET
    case DecodedRv64I(_, m, _, _, _, _, _) => m
  }

  function PrintOperands(d: Decoded): seq<Operand>
  {
    match d
    case DecodedInsnD(major, operation, destination, lhs, rhs, accumulator, dtype) =>
      [Num(major), Num(operation), Vec(destination), Vec(lhs), Vec(rhs), Vec(accumulator), Num(dtype)]
    case DecodedLi(destination, immediate) => [Gpr(destination), Imm(immediate)]
    case DecodedRet => []
    case DecodedRv64I(format, _, rd, rs1, rs2, immediate, target) =>
      match format
      case RType => [Gpr(rd), Gpr(rs1), Gpr(rs2)]
      case IType => [Gpr(rd), Gpr(rs1), Imm(immediate)]
      case Load => [Gpr(rd), Mem(immediate, rs1)]
      case Jalr => [Gpr(rd), Mem(immediate, rs1)]
      case Store => [Gpr(rs2), Mem(immediate, rs1)]
      case UType => [Gpr(rd), Imm(immediate)]
      case Branch => [Gpr(rs1), Gpr(rs2), Sym(target)]
      case Jal => [Gpr(rd), Sym(target)]
  }

  // ----------------------------------------------------- line parser

  datatype LineFormat = LineR | LineI | LineS | LineU

  datatype AsmLine =
    | InsnDLine(major: bv32, operation: bv32, destination: bv32, lhs: bv32, rhs: bv32, accumulator: bv32, dtype: bv32)
    | LiLine(destination: bv32, immediate: int)
    | RetLine
    | ILine(format: LineFormat, opcode: bv32, funct3: bv32, funct7: bv32, destination: bv32, lhs: bv32, rhs: bv32,
            immediate: int)
    | BranchLine(opcode: bv32, funct3: bv32, lhs: bv32, rhs: bv32, immediate: int, targetLabel: string)
    | JumpLine(destination: bv32, immediate: int, targetLabel: string)

  predicate FitsSigned12(v: int) { -2048 <= v <= 2047 }
  predicate FitsSigned20(v: int) { -0x8_0000 <= v <= 0x7_ffff }
  predicate FitsBranch(v: int) { -4096 <= v <= 4094 && v % 2 == 0 }
  predicate FitsJump(v: int) { -0x10_0000 <= v <= 0x10_0000 - 2 && v % 2 == 0 }

  predicate IsSymbolStart(c: char)
  {
    'a' <= c <= 'z' || 'A' <= c <= 'Z' || c == '_' || c == '.' || c == '$'
  }

  predicate IsValidSymbol(s: string)
  {
    && s != []
    && IsSymbolStart(s[0])
    && forall i :: 1 <= i < |s| ==> IsSymbolStart(s[i]) || '0' <= s[i] <= '9'
  }

  datatype Encoding = Encoding(op: bv32, f3: bv32, f7: bv32)
  datatype ShiftEncoding = ShiftEncoding(op: bv32, f3: bv32, f7: bv32, maxShamt: int)

  function RSpec(m: ROp): Encoding
  {
    match m
    case ADD => Encoding(0x33, 0, 0x00)
    case SUB => Encoding(0x33, 0, 0x20)
    case SLL => Encoding(0x33, 1, 0x00)
    case SLT => Encoding(0x33, 2, 0x00)
    case SLTU => Encoding(0x33, 3, 0x00)
    case XOR => Encoding(0x33, 4, 0x00)
    case SRL => Encoding(0x33, 5, 0x00)
    case SRA => Encoding(0x33, 5, 0x20)
    case OR => Encoding(0x33, 6, 0x00)
    case AND => Encoding(0x33, 7, 0x00)
    case ADDW => Encoding(0x3b, 0, 0x00)
    case SUBW => Encoding(0x3b, 0, 0x20)
    case SLLW => Encoding(0x3b, 1, 0x00)
    case SRLW => Encoding(0x3b, 5, 0x00)
    case SRAW => Encoding(0x3b, 5, 0x20)
  }

  function ISpec(m: IOp): Encoding
  {
    match m
    case ADDI => Encoding(0x13, 0, 0)
    case SLTI => Encoding(0x13, 2, 0)
    case SLTIU => Encoding(0x13, 3, 0)
    case XORI => Encoding(0x13, 4, 0)
    case ORI => Encoding(0x13, 6, 0)
    case ANDI => Encoding(0x13, 7, 0)
    case ADDIW => Encoding(0x1b, 0, 0)
  }

  /** Opcode, funct3, funct7 and the largest shift amount. */
  function ShiftSpec(m: ShiftOp): ShiftEncoding
  {
    match m
    case SLLI => ShiftEncoding(0x13, 1, 0x00, 63)
    case SRLI => ShiftEncoding(0x13, 5, 0x00, 63)
    case SRAI => ShiftEncoding(0x13, 5, 0x20, 63)
    case SLLIW => ShiftEncoding(0x1b, 1, 0x00, 31)
    case SRLIW => ShiftEncoding(0x1b, 5, 0x00, 31)
    case SRAIW => ShiftEncoding(0x1b, 5, 0x20, 31)
  }

  function LoadSpec(m: LoadOp): Encoding
  {
    match m
    case LB => Encoding(0x03, 0, 0)
    case LH => Encoding(0x03, 1, 0)
    case LW => Encoding(0x03, 2, 0)
    case LD => Encoding(0x03, 3, 0)
    case LBU => Encoding(0x03, 4, 0)
    case LHU => Encoding(0x03, 5, 0)
    case LWU => Encoding(0x03, 6, 0)
  }

  function StoreSpec(m: StoreOp): Encoding
  {
    match m
    case SB => Encoding(0x23, 0, 0)
    case SH => Encoding(0x23, 1, 0)
    case SW => Encoding(0x23, 2, 0)
    case SD => Encoding(0x23, 3, 0)
  }

  function USpec(m: UOp): Encoding
  {
    match m
    case LUI => Encoding(0x37, 0, 0)
    case AUIPC => Encoding(0x17, 0, 0)
  }

  function BranchSpec(m: BranchOp): Encoding
  {
    match m
    case BEQ => Encoding(0x63, 0, 0)
    case BNE => Encoding(0x63, 1, 0)
    case BLT => Encoding(0x63, 4, 0)
    case BGE => Encoding(0x63, 5, 0)
    case BLTU => Encoding(0x63, 6, 0)
    case BGEU => Encoding(0x63, 7, 0)
  }

  predicate IsGpr(o: Operand) { o.Gpr? && o.reg <= 31 }
  predicate IsMem(o: Operand) { o.Mem? && o.base <= 31 && FitsSigned12(o.offset) }

  predicate Shape3(ops: seq<Operand>)
  {
    |ops| == 3 && IsGpr(ops[0]) && IsGpr(ops[1])
  }

  /** `parse_rv64_asm_line` on a tokenized line. */
  function ParseLine(m: Mnemonic, ops: seq<Operand>): Option<AsmLine>
  {
    if m.RET? then if ops == [] then Some(RetLine) else None
    else if m.INSN_D? then ParseInsnD(ops)
    else if m.LI? then
      if |ops| == 2 && IsGpr(ops[0]) && ops[1].Imm? && FitsSigned12(ops[1].value)
      then Some(LiLine(ops[0].reg, ops[1].value)) else None
    else ParseRv64I(m, ops)
  }

  function ParseInsnD(ops: seq<Operand>): Option<AsmLine>
  {
    if |ops| == 7 && ops[0].Num? && ops[1].Num? && ops[2].Vec? && ops[3].Vec? && ops[4].Vec? && ops[5].Vec? &&
       ops[6].Num? && ops[0].word <= 0x7f && ops[1].word <= 0xff && ops[6].word <= 0xffff &&
       ops[2].reg <= 31 && ops[3].reg <= 31 && ops[4].reg <= 31 && ops[5].reg <= 31
    then Some(InsnDLine(ops[0].word, ops[1].word, ops[2].reg, ops[3].reg, ops[4].reg, ops[5].reg, ops[6].word))
    else None
  }

  function ParseRv64I(m: Mnemonic, ops: seq<Operand>): Option<AsmLine>
  {
    match m
    case RM(r) =>
      var Encoding(op, f3, f7) := RSpec(r);
      if Shape3(ops) && IsGpr(ops[2])
      then Some(ILine(LineR, op, f3, f7, ops[0].reg, ops[1].reg, ops[2].reg, 0)) else None
    case IM(i) =>
      var Encoding(op, f3, _) := ISpec(i);
      if Shape3(ops) && ops[2].Imm? && FitsSigned12(ops[2].value)
      then Some(ILine(LineI, op, f3, 0, ops[0].reg, ops[1].reg, 0, ops[2].value)) else None
    case ShiftM(shift) =>
      var ShiftEncoding(op, f3, f7, maxShamt) := ShiftSpec(shift);
      if Shape3(ops) && ops[2].Imm? && 0 <= ops[2].value <= maxShamt
      then Some(ILine(LineI, op, f3, f7, ops[0].reg, ops[1].reg, 0, Signed((f7 << 5) | WordOf(ops[2].value)))) else None
    case LoadM(load) =>
      var Encoding(op, f3, _) := LoadSpec(load);
      if |ops| == 2 && IsGpr(ops[0]) && IsMem(ops[1])
      then Some(ILine(LineI, op, f3, 0, ops[0].reg, ops[1].base, 0, ops[1].offset)) else None
    case StoreM(store) =>
      var Encoding(op, f3, _) := StoreSpec(store);
      if |ops| == 2 && IsGpr(ops[0]) && IsMem(ops[1])
      then Some(ILine(LineS, op, f3, 0, 0, ops[1].base, ops[0].reg, ops[1].offset)) else None
    case UM(u) =>
      if |ops| == 2 && IsGpr(ops[0]) && ops[1].Imm? && FitsSigned20(ops[1].value)
      then Some(ILine(LineU, USpec(u).op, 0, 0, ops[0].reg, 0, 0, ops[1].value)) else None
    case BranchM(branch) =>
      if Shape3(ops) && ops[2].Sym? && IsValidSymbol(ops[2].name)
      then Some(BranchLine(0x63, BranchSpec(branch).f3, ops[0].reg, ops[1].reg, 0, ops[2].name)) else None
    case JAL =>
      if |ops| == 2 && IsGpr(ops[0]) && ops[1].Sym? && IsValidSymbol(ops[1].name)
      then Some(JumpLine(ops[0].reg, 0, ops[1].name)) else None
    case JALR =>
      if |ops| == 2 && IsGpr(ops[0]) && IsMem(ops[1])
      then Some(ILine(LineI, 0x67, 0, 0, ops[0].reg, ops[1].base, 0, ops[1].offset)) else None
    case _ => None
  }

  // --------------------------------------------------------------- encoder

  function EncodeI(op: bv32, rd: bv32, f3: bv32, rs1: bv32, imm: bv32): bv32
  {
    ((imm & 0xfff) << 20) | ((rs1 & 0x1f) << 15) | ((f3 & 7) << 12) | ((rd & 0x1f) << 7) | (op & 0x7f)
  }

  function EncodeR(op: bv32, rd: bv32, f3: bv32, rs1: bv32, rs2: bv32, f7: bv32): bv32
  {
    ((f7 & 0x7f) << 25) | ((rs2 & 0x1f) << 20) | ((rs1 & 0x1f) << 15) | ((f3 & 7) << 12) | ((rd & 0x1f) << 7) |
    (op & 0x7f)
  }

  function EncodeS(op: bv32, f3: bv32, rs1: bv32, rs2: bv32, imm12: bv32): bv32
  {
    var imm := imm12 & 0xfff;
    ((imm >> 5) << 25) | ((rs2 & 0x1f) << 20) | ((rs1 & 0x1f) << 15) | ((f3 & 7) << 12) | ((imm & 0x1f) << 7) |
    (op & 0x7f)
  }

  function EncodeB(op: bv32, f3: bv32, rs1: bv32, rs2: bv32, imm: bv32): bv32
  {
    (((imm >> 12) & 1) << 31) | (((imm >> 5) & 0x3f) << 25) | ((rs2 & 0x1f) << 20) | ((rs1 & 0x1f) << 15) |
    ((f3 & 7) << 12) | (((imm >> 1) & 0xf) << 8) | (((imm >> 11) & 1) << 7) | (op & 0x7f)
  }

  function EncodeJ(op: bv32, rd: bv32, imm: bv32): bv32
  {
    (((imm >> 20) & 1) << 31) | (((imm >> 1) & 0x3ff) << 21) | (((imm >> 11) & 1) << 20) |
    (((imm >> 12) & 0xff) << 12) | ((rd & 0x1f) << 7) | (op & 0x7f)
  }

  function EncodeU(op: bv32, rd: bv32, imm: bv32): bv32
  {
    ((imm & 0xf_ffff) << 12) | ((rd & 0x1f) << 7) | (op & 0x7f)
  }

  function EncodeInsnD(major: bv32, operation: bv32, rd: bv32, rs1: bv32, rs2: bv32, rs4: bv32, dtype: bv32): bv64
  {
    0x3f | ((rd as bv64) << 7) | ((rs1 as bv64) << 15) | ((rs2 as bv64) << 20) | ((major as bv64) << 25) |
    ((operation as bv64) << 32) | ((rs4 as bv64) << 40) | ((dtype as bv64) << 48)
  }

  /** `encode_rv64_asm_line`. */
  function EncodeLine(line: AsmLine): Option<seq<bv8>>
  {
    match line
    case InsnDLine(major, operation, rd, rs1, rs2, rs4, dtype) =>
      if major > 0x7f || operation > 0xff || dtype > 0xffff || rd > 31 || rs1 > 31 || rs2 > 31 || rs4 > 31 then None
      else Some(Le64(EncodeInsnD(major, operation, rd, rs1, rs2, rs4, dtype)))
    case LiLine(rd, imm) =>
      if rd > 31 || !FitsSigned12(imm) then None else Some(Le32(EncodeI(0x13, rd, 0, 0, WordOf(imm))))
    case RetLine => Some(Le32(EncodeI(0x67, 0, 0, 1, 0)))
    case ILine(format, op, f3, f7, rd, rs1, rs2, imm) =>
      (match format
       case LineR => if rd > 31 || rs1 > 31 || rs2 > 31 then None else Some(Le32(EncodeR(op, rd, f3, rs1, rs2, f7)))
       case LineI =>
         if rd > 31 || rs1 > 31 || !FitsSigned12(imm) then None
         else Some(Le32(EncodeI(op, rd, f3, rs1, WordOf(imm))))
       case LineS =>
         if rs1 > 31 || rs2 > 31 || !FitsSigned12(imm) then None
         else Some(Le32(EncodeS(op, f3, rs1, rs2, WordOf(imm))))
       case LineU => if rd > 31 || !FitsSigned20(imm) then None else Some(Le32(EncodeU(op, rd, WordOf(imm)))))
    case BranchLine(op, f3, rs1, rs2, imm, target) =>
      if target != "" || rs1 > 31 || rs2 > 31 || !FitsBranch(imm) then None
      else Some(Le32(EncodeB(op, f3, rs1, rs2, WordOf(imm))))
    case JumpLine(rd, imm, target) =>
      if target != "" || rd > 31 || !FitsJump(imm) then None else Some(Le32(EncodeJ(0x6f, rd, WordOf(imm))))
  }

  function LineSize(line: AsmLine): nat
  {
    if line.InsnDLine? then 8 else 4
  }

  // ------------------------------------------------------ field round trips

  lemma RFields(w: bv32)
    ensures EncodeR(Opcode(w), Rd(w), Funct3(w), Rs1(w), Rs2(w), Funct7(w)) == w
  {
  }

  lemma IImmPositive(w: bv32)
    requires w < 0x8000_0000
    ensures IImm(w) == Imm12(w) && Imm12(w) <= 0x7ff
  {
  }

  lemma IImmNegative(w: bv32)
    requires w >= 0x8000_0000
    ensures IImm(w) == Imm12(w) | 0xffff_f000 && 0x7ff < Imm12(w) <= 0xfff
  {
  }

  lemma IImmLow(w: bv32)
    ensures IImm(w) & 0xfff == Imm12(w)
  {
    if w < 0x8000_0000 {
      IImmPositive(w);
      Positive12(Imm12(w));
    } else {
      IImmNegative(w);
      NegativeMask12(Imm12(w));
    }
  }

  lemma IWord(w: bv32, imm: bv32)
    requires imm & 0xfff == Imm12(w)
    ensures EncodeI(Opcode(w), Rd(w), Funct3(w), Rs1(w), imm) == w
  {
  }

  lemma IFields(w: bv32)
    ensures EncodeI(Opcode(w), Rd(w), Funct3(w), Rs1(w), IImm(w)) == w
  {
    IImmLow(w);
    IWord(w, IImm(w));
  }

  lemma IImmRange(w: bv32)
    ensures IImm(w) <= 0x7ff || IImm(w) >= 0xffff_f800
  {
    if w < 0x8000_0000 {
      IImmPositive(w);
    } else {
      IImmNegative(w);
      NegativeMask12(Imm12(w));
    }
  }

  lemma Positive12(v: bv32)
    requires v <= 0x7ff
    ensures SignExtend(v, 12) == v && v & 0xfff == v
  {
  }

  lemma Negative12(v: bv32)
    requires 0x7ff < v <= 0xfff
    ensures SignExtend(v, 12) == v | 0xffff_f000
  {
  }

  lemma NegativeMask12(v: bv32)
    requires 0x7ff < v <= 0xfff
    ensures (v | 0xffff_f000) & 0xfff == v && v | 0xffff_f000 >= 0xffff_f800
  {
  }

  lemma SignExtend12(v: bv32)
    requires v <= 0xfff
    ensures SignExtend(v, 12) & 0xfff == v
    ensures SignExtend(v, 12) <= 0x7ff || SignExtend(v, 12) >= 0xffff_f800
  {
    if v <= 0x7ff {
      Positive12(v);
    } else {
      Negative12(v);
      NegativeMask12(v);
    }
  }

  lemma Positive13(v: bv32)
    requires v <= 0xfff
    ensures SignExtend(v, 13) == v && v & 0x1fff == v
  {
  }

  lemma Negative13(v: bv32)
    requires 0xfff < v <= 0x1fff
    ensures SignExtend(v, 13) == v | 0xffff_e000
  {
  }

  lemma NegativeMask13(v: bv32)
    requires 0xfff < v <= 0x1fff
    ensures (v | 0xffff_e000) & 0x1fff == v && v | 0xffff_e000 >= 0xffff_f000
  {
  }

  lemma SignExtend13(v: bv32)
    requires v <= 0x1fff
    ensures SignExtend(v, 13) & 0x1fff == v
    ensures SignExtend(v, 13) <= 0xfff || SignExtend(v, 13) >= 0xffff_f000
  {
    if v <= 0xfff {
      Positive13(v);
    } else {
      Negative13(v);
      NegativeMask13(v);
    }
  }

  lemma Positive20(v: bv32)
    requires v <= 0x7_ffff
    ensures SignExtend(v, 20) == v && v & 0xf_ffff == v
  {
  }

  lemma Negative20(v: bv32)
    requires 0x7_ffff < v <= 0xf_ffff
    ensures SignExtend(v, 20) == v | 0xfff0_0000
  {
  }

  lemma NegativeMask20(v: bv32)
    requires 0x7_ffff < v <= 0xf_ffff
    ensures (v | 0xfff0_0000) & 0xf_ffff == v && v | 0xfff0_0000 >= 0xfff8_0000
  {
  }

  lemma SignExtend20(v: bv32)
    requires v <= 0xf_ffff
    ensures SignExtend(v, 20) & 0xf_ffff == v
    ensures SignExtend(v, 20) <= 0x7_ffff || SignExtend(v, 20) >= 0xfff8_0000
  {
    if v <= 0x7_ffff {
      Positive20(v);
    } else {
      Negative20(v);
      NegativeMask20(v);
    }
  }

  lemma Positive21(v: bv32)
    requires v <= 0xf_ffff
    ensures SignExtend(v, 21) == v && v & 0x1f_ffff == v
  {
  }

  lemma Negative21(v: bv32)
    requires 0xf_ffff < v <= 0x1f_ffff
    ensures SignExtend(v, 21) == v | 0xffe0_0000
  {
  }

  lemma NegativeMask21(v: bv32)
    requires 0xf_ffff < v <= 0x1f_ffff
    ensures (v | 0xffe0_0000) & 0x1f_ffff == v && v | 0xffe0_0000 >= 0xfff0_0000
  {
  }

  lemma SignExtend21(v: bv32)
    requires v <= 0x1f_ffff
    ensures SignExtend(v, 21) & 0x1f_ffff == v
    ensures SignExtend(v, 21) <= 0xf_ffff || SignExtend(v, 21) >= 0xfff0_0000
  {
    if v <= 0xf_ffff {
      Positive21(v);
    } else {
      Negative21(v);
      NegativeMask21(v);
    }
  }

  lemma InsnDFields(w: bv64)
    requires DecodeInsnD(w).Some?
    ensures var d := DecodeInsnD(w).value;
            && EncodeInsnD(d.major, d.operation, d.destination, d.lhs, d.rhs, d.accumulator, d.dtype) == w
            && d.major <= 0x7f && d.operation <= 0xff && d.dtype <= 0xffff
            && d.destination <= 31 && d.lhs <= 31 && d.rhs <= 31 && d.accumulator <= 31
  {
  }

  lemma RegisterFields(w: bv32)
    ensures Rd(w) <= 31 && Rs1(w) <= 31 && Rs2(w) <= 31
  {
  }

  // ---------------------------------------------- print, parse, encode

  /** The line c4c-as gets for a decoded instruction. */
  function Reparse(d: Decoded): Option<AsmLine>
  {
    ParseLine(PrintMnemonic(d), PrintOperands(d))
  }

  /** The same line with its label resolved to a byte distance. */
  function WithImmediate(line: AsmLine, immediate: int): AsmLine
  {
    match line
    case BranchLine(op, f3, rs1, rs2, _, _) => BranchLine(op, f3, rs1, rs2, immediate, "")
    case JumpLine(rd, _, _) => JumpLine(rd, immediate, "")
    case _ => line
  }

  // The decoder's tables and the assembler's tables list the same encodings.

  lemma RTablesAgree(op: bv32, f3: bv32, f7: bv32)
    requires RMnemonic(op, f3, f7).Some?
    ensures RSpec(RMnemonic(op, f3, f7).value) == Encoding(op, f3, f7)
  {
  }

  lemma ITablesAgree(op: bv32, f3: bv32)
    requires IMnemonic(op, f3).Some?
    ensures ISpec(IMnemonic(op, f3).value) == Encoding(op, f3, 0)
  {
  }

  lemma LoadTablesAgree(op: bv32, f3: bv32)
    requires LoadMnemonic(op, f3).Some?
    ensures LoadSpec(LoadMnemonic(op, f3).value) == Encoding(op, f3, 0)
  {
  }

  lemma StoreTablesAgree(op: bv32, f3: bv32)
    requires StoreMnemonic(op, f3).Some?
    ensures StoreSpec(StoreMnemonic(op, f3).value) == Encoding(op, f3, 0)
  {
  }

  lemma UTablesAgree(op: bv32)
    requires UMnemonic(op).Some?
    ensures USpec(UMnemonic(op).value) == Encoding(op, 0, 0)
  {
  }

  lemma BranchTablesAgree(f3: bv32)
    requires BranchMnemonic(f3).Some?
    ensures BranchSpec(BranchMnemonic(f3).value) == Encoding(0x63, f3, 0)
  {
  }

  function ShamtMask(maxShamt: int): bv32
  {
    if maxShamt == 63 then 0x3f else 0x1f
  }

  lemma ShiftTablesAgree(op: bv32, f3: bv32, imm12: bv32)
    requires ShiftMnemonic(op, f3, imm12).Some?
    ensures var ShiftMatch(m, shamt) := ShiftMnemonic(op, f3, imm12).value;
            var ShiftEncoding(op', f3', f7, maxShamt) := ShiftSpec(m);
            && op' == op && f3' == f3
            && imm12 & !ShamtMask(maxShamt) == f7 << 5 && shamt == imm12 & ShamtMask(maxShamt)
  {
  }

  /** Print, parse, replace a label by the decoded distance, encode. */
  function Reassembled(d: Decoded): Option<seq<bv8>>
  {
    match Reparse(d)
    case None => None
    case Some(line) => EncodeLine(WithImmediate(line, if d.DecodedRv64I? then d.immediate else 0))
  }

  // One lemma per format over the field values alone, then one over the word they come from.

  predicate Fits(imm: bv32, low: int, high: int)
  {
    low <= Signed(imm) <= high && WordOf(Signed(imm)) == imm
  }

  lemma RReassembles(r: ROp, op: bv32, f3: bv32, f7: bv32, rd: bv32, rs1: bv32, rs2: bv32)
    requires RSpec(r) == Encoding(op, f3, f7) && rd <= 31 && rs1 <= 31 && rs2 <= 31
    ensures Reassembled(DecodedRv64I(RType, RM(r), rd, rs1, rs2, 0, "")) ==
            Some(Le32(EncodeR(op, rd, f3, rs1, rs2, f7)))
  {
    hide Signed, WordOf, Le32, EncodeI, EncodeR, EncodeS, EncodeU, EncodeB, EncodeJ, RSpec, ISpec, LoadSpec, StoreSpec,
         USpec, BranchSpec, ShiftSpec, IsValidSymbol;
    var d := DecodedRv64I(RType, RM(r), rd, rs1, rs2, 0, "");
    assert Reparse(d) == Some(ILine(LineR, op, f3, f7, rd, rs1, rs2, 0));
  }

  lemma IReassembles(i: IOp, op: bv32, f3: bv32, rd: bv32, rs1: bv32, imm: bv32)
    requires ISpec(i) == Encoding(op, f3, 0) && rd <= 31 && rs1 <= 31 && Fits(imm, -2048, 2047)
    ensures Reassembled(DecodedRv64I(IType, IM(i), rd, rs1, 0, Signed(imm), "")) ==
            Some(Le32(EncodeI(op, rd, f3, rs1, imm)))
  {
    hide Signed, WordOf, Le32, EncodeI, EncodeR, EncodeS, EncodeU, EncodeB, EncodeJ, RSpec, ISpec, LoadSpec, StoreSpec,
         USpec, BranchSpec, ShiftSpec, IsValidSymbol;
    var d := DecodedRv64I(IType, IM(i), rd, rs1, 0, Signed(imm), "");
    assert Reparse(d) == Some(ILine(LineI, op, f3, 0, rd, rs1, 0, Signed(imm)));
  }

  lemma ShiftReparses(shift: ShiftOp, op: bv32, f3: bv32, f7: bv32, maxShamt: int, rd: bv32, rs1: bv32, shamt: bv32)
    requires ShiftSpec(shift) == ShiftEncoding(op, f3, f7, maxShamt) && rd <= 31 && rs1 <= 31
    requires Fits(shamt, 0, maxShamt)
    ensures Reparse(DecodedRv64I(IType, ShiftM(shift), rd, rs1, 0, Signed(shamt), "")) ==
            Some(ILine(LineI, op, f3, f7, rd, rs1, 0, Signed((f7 << 5) | shamt)))
  {
    hide Signed, WordOf, ShiftSpec;
    assert 0 <= Signed(shamt) <= maxShamt;
  }

  lemma ShiftReassembles(shift: ShiftOp, op: bv32, f3: bv32, f7: bv32, maxShamt: int, rd: bv32, rs1: bv32,
                         shamt: bv32, imm: bv32)
    requires ShiftSpec(shift) == ShiftEncoding(op, f3, f7, maxShamt) && rd <= 31 && rs1 <= 31
    requires Fits(shamt, 0, maxShamt) && imm == (f7 << 5) | shamt && Fits(imm, -2048, 2047)
    ensures Reassembled(DecodedRv64I(IType, ShiftM(shift), rd, rs1, 0, Signed(shamt), "")) ==
            Some(Le32(EncodeI(op, rd, f3, rs1, imm)))
  {
    hide Signed, WordOf, Le32, EncodeI, EncodeR, EncodeS, EncodeU, EncodeB, EncodeJ, RSpec, ISpec, LoadSpec, StoreSpec,
         USpec, BranchSpec, ShiftSpec, IsValidSymbol;
    ShiftReparses(shift, op, f3, f7, maxShamt, rd, rs1, shamt);
  }

  lemma LoadReassembles(load: LoadOp, op: bv32, f3: bv32, rd: bv32, rs1: bv32, imm: bv32)
    requires LoadSpec(load) == Encoding(op, f3, 0) && rd <= 31 && rs1 <= 31 && Fits(imm, -2048, 2047)
    ensures Reassembled(DecodedRv64I(Load, LoadM(load), rd, rs1, 0, Signed(imm), "")) ==
            Some(Le32(EncodeI(op, rd, f3, rs1, imm)))
  {
    hide Signed, WordOf, Le32, EncodeI, EncodeR, EncodeS, EncodeU, EncodeB, EncodeJ, RSpec, ISpec, LoadSpec, StoreSpec,
         USpec, BranchSpec, ShiftSpec, IsValidSymbol;
    var d := DecodedRv64I(Load, LoadM(load), rd, rs1, 0, Signed(imm), "");
    assert Reparse(d) == Some(ILine(LineI, op, f3, 0, rd, rs1, 0, Signed(imm)));
  }

  lemma JalrReassembles(rd: bv32, rs1: bv32, imm: bv32)
    requires rd <= 31 && rs1 <= 31 && Fits(imm, -2048, 2047)
    ensures Reassembled(DecodedRv64I(Jalr, JALR, rd, rs1, 0, Signed(imm), "")) ==
            Some(Le32(EncodeI(0x67, rd, 0, rs1, imm)))
  {
    hide Signed, WordOf, Le32, EncodeI, EncodeR, EncodeS, EncodeU, EncodeB, EncodeJ, RSpec, ISpec, LoadSpec, StoreSpec,
         USpec, BranchSpec, ShiftSpec, IsValidSymbol;
    var d := DecodedRv64I(Jalr, JALR, rd, rs1, 0, Signed(imm), "");
    assert Reparse(d) == Some(ILine(LineI, 0x67, 0, 0, rd, rs1, 0, Signed(imm)));
  }

  lemma StoreReassembles(store: StoreOp, op: bv32, f3: bv32, rs1: bv32, rs2: bv32, imm: bv32)
    requires StoreSpec(store) == Encoding(op, f3, 0) && rs1 <= 31 && rs2 <= 31 && Fits(imm, -2048, 2047)
    ensures Reassembled(DecodedRv64I(Store, StoreM(store), 0, rs1, rs2, Signed(imm), "")) ==
            Some(Le32(EncodeS(op, f3, rs1, rs2, imm)))
  {
    hide Signed, WordOf, Le32, EncodeI, EncodeR, EncodeS, EncodeU, EncodeB, EncodeJ, RSpec, ISpec, LoadSpec, StoreSpec,
         USpec, BranchSpec, ShiftSpec, IsValidSymbol;
    var d := DecodedRv64I(Store, StoreM(store), 0, rs1, rs2, Signed(imm), "");
    assert Reparse(d) == Some(ILine(LineS, op, f3, 0, 0, rs1, rs2, Signed(imm)));
  }

  lemma UReassembles(u: UOp, op: bv32, rd: bv32, imm: bv32)
    requires USpec(u) == Encoding(op, 0, 0) && rd <= 31 && Fits(imm, -0x8_0000, 0x7_ffff)
    ensures Reassembled(DecodedRv64I(UType, UM(u), rd, 0, 0, Signed(imm), "")) == Some(Le32(EncodeU(op, rd, imm)))
  {
    hide Signed, WordOf, Le32, EncodeI, EncodeR, EncodeS, EncodeU, EncodeB, EncodeJ, RSpec, ISpec, LoadSpec, StoreSpec,
         USpec, BranchSpec, ShiftSpec, IsValidSymbol;
    var d := DecodedRv64I(UType, UM(u), rd, 0, 0, Signed(imm), "");
    assert Reparse(d) == Some(ILine(LineU, op, 0, 0, rd, 0, 0, Signed(imm)));
  }

  lemma BranchReparses(branch: BranchOp, f3: bv32, rs1: bv32, rs2: bv32, imm: int, target: string)
    requires BranchSpec(branch) == Encoding(0x63, f3, 0) && rs1 <= 31 && rs2 <= 31 && IsValidSymbol(target)
    ensures Reparse(DecodedRv64I(Branch, BranchM(branch), 0, rs1, rs2, imm, target)) ==
            Some(BranchLine(0x63, f3, rs1, rs2, 0, target))
  {
    hide Signed, WordOf, Le32, EncodeI, EncodeR, EncodeS, EncodeU, EncodeB, EncodeJ, RSpec, ISpec, LoadSpec, StoreSpec,
         USpec, BranchSpec, ShiftSpec, IsValidSymbol;
  }

  lemma BranchReassembles(branch: BranchOp, f3: bv32, rs1: bv32, rs2: bv32, imm: bv32, target: string)
    requires BranchSpec(branch) == Encoding(0x63, f3, 0) && rs1 <= 31 && rs2 <= 31 && IsValidSymbol(target)
    requires Fits(imm, -4096, 4095) && Signed(imm) % 2 == 0
    ensures Reassembled(DecodedRv64I(Branch, BranchM(branch), 0, rs1, rs2, Signed(imm), target)) ==
            Some(Le32(EncodeB(0x63, f3, rs1, rs2, imm)))
  {
    hide Signed, WordOf, Le32, EncodeI, EncodeR, EncodeS, EncodeU, EncodeB, EncodeJ, RSpec, ISpec, LoadSpec, StoreSpec,
         USpec, BranchSpec, ShiftSpec, IsValidSymbol;
    BranchReparses(branch, f3, rs1, rs2, Signed(imm), target);
  }

  lemma JalReassembles(rd: bv32, imm: bv32, target: string)
    requires rd <= 31 && IsValidSymbol(target)
    requires Fits(imm, -0x10_0000, 0xf_ffff) && Signed(imm) % 2 == 0
    ensures Reassembled(DecodedRv64I(Jal, JAL, rd, 0, 0, Signed(imm), target)) == Some(Le32(EncodeJ(0x6f, rd, imm)))
  {
    hide Signed, WordOf, Le32, EncodeI, EncodeR, EncodeS, EncodeU, EncodeB, EncodeJ, RSpec, ISpec, LoadSpec, StoreSpec,
         USpec, BranchSpec, ShiftSpec, IsValidSymbol;
    var d := DecodedRv64I(Jal, JAL, rd, 0, 0, Signed(imm), target);
    assert Reparse(d) == Some(JumpLine(rd, 0, target));
  }

  lemma IImmFits(w: bv32)
    ensures Fits(IImm(w), -2048, 2047)
  {
    IImmRange(w);
    Fits12(IImm(w));
  }

  lemma Fits12(imm: bv32)
    requires imm <= 0x7ff || imm >= 0xffff_f800
    ensures Fits(imm, -2048, 2047)
  {
    SignedRange12(imm);
    WordOfSigned(imm);
  }

  lemma Fits13(imm: bv32)
    requires (imm <= 0xfff || imm >= 0xffff_f000) && imm & 1 == 0
    ensures Fits(imm, -4096, 4095) && Signed(imm) % 2 == 0
  {
    SignedRange13(imm);
    SignedEven(imm);
    WordOfSigned(imm);
  }

  lemma Fits20(imm: bv32)
    requires imm <= 0x7_ffff || imm >= 0xfff8_0000
    ensures Fits(imm, -0x8_0000, 0x7_ffff)
  {
    SignedRange20(imm);
    WordOfSigned(imm);
  }

  lemma Fits21(imm: bv32)
    requires (imm <= 0xf_ffff || imm >= 0xfff0_0000) && imm & 1 == 0
    ensures Fits(imm, -0x10_0000, 0xf_ffff) && Signed(imm) % 2 == 0
  {
    SignedRange21(imm);
    SignedEven(imm);
    WordOfSigned(imm);
  }

  // Any word with the right low bits is an immediate of `w`.

  lemma SWord(w: bv32, imm: bv32)
    requires imm & 0xfff == SRaw(w)
    ensures EncodeS(Opcode(w), Funct3(w), Rs1(w), Rs2(w), imm) == w
  {
  }

  lemma UWord(w: bv32, imm: bv32)
    requires imm & 0xf_ffff == w >> 12
    ensures EncodeU(Opcode(w), Rd(w), imm) == w
  {
  }

  lemma BWord(w: bv32, imm: bv32)
    requires imm & 0x1fff == BRaw(w)
    ensures EncodeB(Opcode(w), Funct3(w), Rs1(w), Rs2(w), imm) == w
  {
  }

  lemma BEven(w: bv32, imm: bv32)
    requires imm & 0x1fff == BRaw(w)
    ensures imm & 1 == 0
  {
  }

  lemma JWord(w: bv32, imm: bv32)
    requires imm & 0x1f_ffff == JRaw(w)
    ensures EncodeJ(Opcode(w), Rd(w), imm) == w
  {
  }

  lemma JEven(w: bv32, imm: bv32)
    requires imm & 0x1f_ffff == JRaw(w)
    ensures imm & 1 == 0
  {
  }

  lemma SRawSmall(w: bv32)
    ensures SRaw(w) <= 0xfff
  {
  }

  lemma URawSmall(w: bv32)
    ensures w >> 12 <= 0xf_ffff
  {
  }

  lemma BRawSmall(w: bv32)
    ensures BRaw(w) <= 0x1fff
  {
  }

  lemma JRawSmall(w: bv32)
    ensures JRaw(w) <= 0x1f_ffff
  {
  }

  lemma SImmLow(w: bv32)
    ensures SImm(w) & 0xfff == SRaw(w)
  {
    SRawSmall(w);
    SignExtend12(SRaw(w));
  }

  lemma SImmRange(w: bv32)
    ensures SImm(w) <= 0x7ff || SImm(w) >= 0xffff_f800
  {
    SRawSmall(w);
    SignExtend12(SRaw(w));
  }

  lemma SImmWord(w: bv32)
    ensures EncodeS(Opcode(w), Funct3(w), Rs1(w), Rs2(w), SImm(w)) == w
  {
    SImmLow(w);
    SWord(w, SImm(w));
  }

  lemma SImmFits(w: bv32)
    ensures Fits(SImm(w), -2048, 2047)
  {
    SImmRange(w);
    Fits12(SImm(w));
  }

  lemma UImmLow(w: bv32)
    ensures UImm(w) & 0xf_ffff == w >> 12
  {
    URawSmall(w);
    SignExtend20(w >> 12);
  }

  lemma UImmRange(w: bv32)
    ensures UImm(w) <= 0x7_ffff || UImm(w) >= 0xfff8_0000
  {
    URawSmall(w);
    SignExtend20(w >> 12);
  }

  lemma UImmWord(w: bv32)
    ensures EncodeU(Opcode(w), Rd(w), UImm(w)) == w
  {
    UImmLow(w);
    UWord(w, UImm(w));
  }

  lemma UImmFits(w: bv32)
    ensures Fits(UImm(w), -0x8_0000, 0x7_ffff)
  {
    UImmRange(w);
    Fits20(UImm(w));
  }

  lemma BImmLow(w: bv32)
    ensures BImm(w) & 0x1fff == BRaw(w)
  {
    BRawSmall(w);
    SignExtend13(BRaw(w));
  }

  lemma BImmRange(w: bv32)
    ensures BImm(w) <= 0xfff || BImm(w) >= 0xffff_f000
  {
    BRawSmall(w);
    SignExtend13(BRaw(w));
  }

  lemma BImmWord(w: bv32)
    ensures EncodeB(Opcode(w), Funct3(w), Rs1(w), Rs2(w), BImm(w)) == w
  {
    BImmLow(w);
    BWord(w, BImm(w));
  }

  lemma BImmEven(w: bv32)
    ensures BImm(w) & 1 == 0
  {
    BImmLow(w);
    BEven(w, BImm(w));
  }

  lemma BImmFits(w: bv32)
    ensures Fits(BImm(w), -4096, 4095) && Signed(BImm(w)) % 2 == 0
  {
    BImmRange(w);
    BImmEven(w);
    Fits13(BImm(w));
  }

  lemma JImmLow(w: bv32)
    ensures JImm(w) & 0x1f_ffff == JRaw(w)
  {
    JRawSmall(w);
    SignExtend21(JRaw(w));
  }

  lemma JImmRange(w: bv32)
    ensures JImm(w) <= 0xf_ffff || JImm(w) >= 0xfff0_0000
  {
    JRawSmall(w);
    SignExtend21(JRaw(w));
  }

  lemma JImmWord(w: bv32)
    ensures EncodeJ(Opcode(w), Rd(w), JImm(w)) == w
  {
    JImmLow(w);
    JWord(w, JImm(w));
  }

  lemma JImmEven(w: bv32)
    ensures JImm(w) & 1 == 0
  {
    JImmLow(w);
    JEven(w, JImm(w));
  }

  lemma JImmFits(w: bv32)
    ensures Fits(JImm(w), -0x10_0000, 0xf_ffff) && Signed(JImm(w)) % 2 == 0
  {
    JImmRange(w);
    JImmEven(w);
    Fits21(JImm(w));
  }

  // ------------------------------------------------ one word, all formats

  /** Whatever the decoder makes of `w` assembles back to the bytes of `w`. */
  ghost predicate Lossless(d: Decoded, w: bv32)
  {
    Reassembled(d) == Some(Le32(w))
  }

  lemma RRoundTrip(w: bv32, r: ROp)
    requires RMnemonic(Opcode(w), Funct3(w), Funct7(w)) == Some(r)
    ensures Lossless(DecodedRv64I(RType, RM(r), Rd(w), Rs1(w), Rs2(w), 0, ""), w)
  {
    RegisterFields(w);
    RTablesAgree(Opcode(w), Funct3(w), Funct7(w));
    RReassembles(r, Opcode(w), Funct3(w), Funct7(w), Rd(w), Rs1(w), Rs2(w));
    RFields(w);
  }

  lemma IRoundTrip(w: bv32, i: IOp)
    requires IMnemonic(Opcode(w), Funct3(w)) == Some(i)
    ensures Lossless(DecodedRv64I(IType, IM(i), Rd(w), Rs1(w), 0, Signed(IImm(w)), ""), w)
  {
    RegisterFields(w);
    ITablesAgree(Opcode(w), Funct3(w));
    IImmFits(w);
    IReassembles(i, Opcode(w), Funct3(w), Rd(w), Rs1(w), IImm(w));
    IFields(w);
  }

  lemma LoadRoundTrip(w: bv32, load: LoadOp)
    requires LoadMnemonic(Opcode(w), Funct3(w)) == Some(load)
    ensures Lossless(DecodedRv64I(Load, LoadM(load), Rd(w), Rs1(w), 0, Signed(IImm(w)), ""), w)
  {
    RegisterFields(w);
    LoadTablesAgree(Opcode(w), Funct3(w));
    IImmFits(w);
    LoadReassembles(load, Opcode(w), Funct3(w), Rd(w), Rs1(w), IImm(w));
    IFields(w);
  }

  lemma JalrRoundTrip(w: bv32)
    requires Opcode(w) == 0x67 && Funct3(w) == 0
    ensures Lossless(DecodedRv64I(Jalr, JALR, Rd(w), Rs1(w), 0, Signed(IImm(w)), ""), w)
  {
    RegisterFields(w);
    IImmFits(w);
    JalrReassembles(Rd(w), Rs1(w), IImm(w));
    IFields(w);
  }

  lemma StoreRoundTrip(w: bv32, store: StoreOp)
    requires StoreMnemonic(Opcode(w), Funct3(w)) == Some(store)
    ensures Lossless(DecodedRv64I(Store, StoreM(store), 0, Rs1(w), Rs2(w), Signed(SImm(w)), ""), w)
  {
    RegisterFields(w);
    StoreTablesAgree(Opcode(w), Funct3(w));
    SImmFits(w);
    StoreReassembles(store, Opcode(w), Funct3(w), Rs1(w), Rs2(w), SImm(w));
    SImmWord(w);
  }

  lemma URoundTrip(w: bv32, u: UOp)
    requires UMnemonic(Opcode(w)) == Some(u)
    ensures Lossless(DecodedRv64I(UType, UM(u), Rd(w), 0, 0, Signed(UImm(w)), ""), w)
  {
    RegisterFields(w);
    UTablesAgree(Opcode(w));
    UImmFits(w);
    UReassembles(u, Opcode(w), Rd(w), UImm(w));
    UImmWord(w);
  }

  lemma BranchRoundTrip(w: bv32, branch: BranchOp, target: string)
    requires Opcode(w) == 0x63 && BranchMnemonic(Funct3(w)) == Some(branch) && IsValidSymbol(target)
    ensures Lossless(DecodedRv64I(Branch, BranchM(branch), 0, Rs1(w), Rs2(w), Signed(BImm(w)), target), w)
  {
    RegisterFields(w);
    BranchTablesAgree(Funct3(w));
    BImmFits(w);
    BranchReassembles(branch, Funct3(w), Rs1(w), Rs2(w), BImm(w), target);
    BImmWord(w);
  }

  lemma JalRoundTrip(w: bv32, target: string)
    requires Opcode(w) == 0x6f && IsValidSymbol(target)
    ensures Lossless(DecodedRv64I(Jal, JAL, Rd(w), 0, 0, Signed(JImm(w)), target), w)
  {
    RegisterFields(w);
    JImmFits(w);
    JalReassembles(Rd(w), JImm(w), target);
    JImmWord(w);
  }

  lemma ShamtFits(x: bv32, maxShamt: int)
    requires maxShamt == 63 || maxShamt == 31
    requires x <= ShamtMask(maxShamt)
    ensures Fits(x, 0, maxShamt)
  {
    WordOfSigned(x);
    if maxShamt == 63 {
      SignedRange6(x);
    } else {
      SignedRange5(x);
    }
  }

  lemma ShamtSmall(imm12: bv32, mask: bv32)
    ensures imm12 & mask <= mask
  {
  }

  lemma ShiftImmSmall(f7: bv32, shamt: bv32)
    requires (f7 == 0 || f7 == 0x20) && shamt <= 0x3f
    ensures (f7 << 5) | shamt <= 0x7ff
  {
  }

  lemma ShiftSpecShape(shift: ShiftOp)
    ensures ShiftSpec(shift).f7 == 0 || ShiftSpec(shift).f7 == 0x20
    ensures ShiftSpec(shift).maxShamt == 63 || ShiftSpec(shift).maxShamt == 31
  {
  }

  lemma ShiftFits(shift: ShiftOp, shamt: bv32)
    requires shamt <= ShamtMask(ShiftSpec(shift).maxShamt)
    ensures Fits(shamt, 0, ShiftSpec(shift).maxShamt)
    ensures Fits((ShiftSpec(shift).f7 << 5) | shamt, -2048, 2047)
  {
    ShiftSpecShape(shift);
    ShamtFits(shamt, ShiftSpec(shift).maxShamt);
    ShiftImmSmall(ShiftSpec(shift).f7, shamt);
    Fits12((ShiftSpec(shift).f7 << 5) | shamt);
  }

  lemma ShiftLossless(w: bv32, shift: ShiftOp, row: ShiftEncoding, rd: bv32, rs1: bv32, shamt: bv32, imm: bv32)
    requires ShiftSpec(shift) == row && rd <= 31 && rs1 <= 31
    requires Fits(shamt, 0, row.maxShamt) && imm == (row.f7 << 5) | shamt && Fits(imm, -2048, 2047)
    requires EncodeI(row.op, rd, row.f3, rs1, imm) == w
    ensures Lossless(DecodedRv64I(IType, ShiftM(shift), rd, rs1, 0, Signed(shamt), ""), w)
  {
    ShiftReassembles(shift, row.op, row.f3, row.f7, row.maxShamt, rd, rs1, shamt, imm);
  }

  lemma ShiftWordFields(w: bv32, op: bv32, f3: bv32, imm: bv32)
    requires op == Opcode(w) && f3 == Funct3(w) && imm == Imm12(w)
    ensures EncodeI(op, Rd(w), f3, Rs1(w), imm) == w
  {
  }

  lemma SplitImm(imm12: bv32, mask: bv32, selector: bv32)
    requires imm12 & !mask == selector
    ensures selector | (imm12 & mask) == imm12
  {
  }

  lemma ShiftImm(op: bv32, f3: bv32, imm12: bv32, shift: ShiftOp, shamt: bv32)
    requires ShiftMnemonic(op, f3, imm12) == Some(ShiftMatch(shift, shamt))
    ensures ShiftSpec(shift).op == op && ShiftSpec(shift).f3 == f3 && (ShiftSpec(shift).f7 << 5) | shamt == imm12
  {
    if op == 0x13 {
      SplitImm(imm12, 0x3f, imm12 & !0x3f);
    } else {
      SplitImm(imm12, 0x1f, imm12 & !0x1f);
    }
  }

  lemma ShamtBound(op: bv32, f3: bv32, imm12: bv32)
    requires ShiftMnemonic(op, f3, imm12).Some?
    ensures var m := ShiftMnemonic(op, f3, imm12).value; m.shamt <= ShamtMask(ShiftSpec(m.shift).maxShamt)
  {
    ShiftTablesAgree(op, f3, imm12);
    ShamtSmall(imm12, ShamtMask(ShiftSpec(ShiftMnemonic(op, f3, imm12).value.shift).maxShamt));
  }

  lemma ShiftFields(w: bv32, shift: ShiftOp, shamt: bv32)
    requires ShiftMnemonic(Opcode(w), Funct3(w), Imm12(w)) == Some(ShiftMatch(shift, shamt))
    ensures EncodeI(ShiftSpec(shift).op, Rd(w), ShiftSpec(shift).f3, Rs1(w), (ShiftSpec(shift).f7 << 5) | shamt) == w
  {
    var ShiftEncoding(op, f3, f7, maxShamt) := ShiftSpec(shift);
    ShiftImm(Opcode(w), Funct3(w), Imm12(w), shift, shamt);
    ShiftWordFields(w, op, f3, (f7 << 5) | shamt);
  }

  ghost predicate ShiftEncodesTo(w: bv32, shift: ShiftOp, rd: bv32, rs1: bv32, shamt: bv32)
  {
    var ShiftEncoding(op, f3, f7, maxShamt) := ShiftSpec(shift);
    rd <= 31 && rs1 <= 31 && shamt <= ShamtMask(maxShamt) && EncodeI(op, rd, f3, rs1, (f7 << 5) | shamt) == w
  }

  lemma ShiftDecodes(w: bv32, shift: ShiftOp, shamt: bv32)
    requires ShiftMnemonic(Opcode(w), Funct3(w), Imm12(w)) == Some(ShiftMatch(shift, shamt))
    ensures ShiftEncodesTo(w, shift, Rd(w), Rs1(w), shamt)
  {
    RegisterFields(w);
    ShamtBound(Opcode(w), Funct3(w), Imm12(w));
    ShiftFields(w, shift, shamt);
  }

  lemma ShiftReencodes(w: bv32, shift: ShiftOp, rd: bv32, rs1: bv32, shamt: bv32)
    requires ShiftEncodesTo(w, shift, rd, rs1, shamt)
    ensures Lossless(DecodedRv64I(IType, ShiftM(shift), rd, rs1, 0, Signed(shamt), ""), w)
  {
    ShiftFits(shift, shamt);
    ShiftLossless(w, shift, ShiftSpec(shift), rd, rs1, shamt, (ShiftSpec(shift).f7 << 5) | shamt);
  }

  lemma ShiftRoundTrip(w: bv32, shift: ShiftOp, shamt: bv32)
    requires ShiftMnemonic(Opcode(w), Funct3(w), Imm12(w)) == Some(ShiftMatch(shift, shamt))
    ensures Lossless(DecodedRv64I(IType, ShiftM(shift), Rd(w), Rs1(w), 0, Signed(shamt), ""), w)
  {
    ShiftDecodes(w, shift, shamt);
    ShiftReencodes(w, shift, Rd(w), Rs1(w), shamt);
  }

  lemma LiReassembles(rd: bv32, imm: bv32)
    requires rd <= 31 && Fits(imm, -2048, 2047)
    ensures Reassembled(DecodedLi(rd, Signed(imm))) == Some(Le32(EncodeI(0x13, rd, 0, 0, imm)))
  {
    assert Reparse(DecodedLi(rd, Signed(imm))) == Some(LiLine(rd, Signed(imm)));
  }

  lemma LiRoundTrip(w: bv32)
    requires DecodeLi(w).Some?
    ensures Lossless(DecodeLi(w).value, w)
  {
    RegisterFields(w);
    IImmFits(w);
    LiReassembles(Rd(w), IImm(w));
    IFields(w);
  }

  lemma RetRoundTrip(w: bv32)
    requires DecodeRet(w).Some?
    ensures Lossless(DecodeRet(w).value, w)
  {
    assert Reparse(DecodedRet) == Some(RetLine);
    IFields(w);
  }

  lemma InsnDRoundTrip(w: bv64)
    requires DecodeInsnD(w).Some?
    ensures Reassembled(DecodeInsnD(w).value) == Some(Le64(w))
  {
    var d := DecodeInsnD(w).value;
    InsnDFields(w);
    assert Reparse(d) == Some(InsnDLine(d.major, d.operation, d.destination, d.lhs, d.rhs, d.accumulator, d.dtype));
  }

  /** Control-flow instructions are printed with the label of their target. */
  function Labelled(d: Decoded, target: string): Decoded
  {
    if IsControlFlow(d) then d.(targetLabel := target) else d
  }

  /** Decoding a word loses nothing: the printed instruction assembles back to its four bytes. */
  lemma WordRoundTrip(w: bv32, target: string)
    requires DecodeWord(w).Some?
    requires IsControlFlow(DecodeWord(w).value) ==> IsValidSymbol(target)
    ensures Lossless(Labelled(DecodeWord(w).value, target), w)
  {
    var op, f3 := Opcode(w), Funct3(w);
    var r, shift := RMnemonic(op, f3, Funct7(w)), ShiftMnemonic(op, f3, Imm12(w));
    if DecodeLi(w).Some? {
      LiRoundTrip(w);
    } else if DecodeRet(w).Some? {
      RetRoundTrip(w);
    } else if r.Some? {
      RRoundTrip(w, r.value);
    } else if shift.Some? {
      ShiftRoundTrip(w, shift.value.shift, shift.value.shamt);
    } else {
      ImmediateRoundTrip(w, target);
    }
  }

  lemma ImmediateRoundTrip(w: bv32, target: string)
    requires DecodeRv64I(w).Some?
    requires RMnemonic(Opcode(w), Funct3(w), Funct7(w)).None? && ShiftMnemonic(Opcode(w), Funct3(w), Imm12(w)).None?
    requires IsControlFlow(DecodeRv64I(w).value) ==> IsValidSymbol(target)
    ensures Lossless(Labelled(DecodeRv64I(w).value, target), w)
  {
    var op, f3 := Opcode(w), Funct3(w);
    if IMnemonic(op, f3).Some? {
      IRoundTrip(w, IMnemonic(op, f3).value);
    } else if op == 0x67 && f3 == 0 {
      JalrRoundTrip(w);
    } else if op == 0x6f {
      JalRoundTrip(w, target);
    } else if op == 0x63 && BranchMnemonic(f3).Some? {
      BranchRoundTrip(w, BranchMnemonic(f3).value, target);
    } else if LoadMnemonic(op, f3).Some? {
      LoadRoundTrip(w, LoadMnemonic(op, f3).value);
    } else if StoreMnemonic(op, f3).Some? {
      StoreRoundTrip(w, StoreMnemonic(op, f3).value);
    } else {
      URoundTrip(w, UMnemonic(op).value);
    }
  }
}
