/**
 What the listing of a word says, by the fields of the word, and that listing what the line assembler
 emitted gives the assembled line back.
 */
module Rv64Listing {
  import opened Machine
  import opened Rv64Bits
  import opened Rv64Isa
  import opened Rv64Emitted

  // ------------------------------------------------------ which word gets which mnemonic

  /** The function bits of a shift word; a 6-bit shift amount takes the lowest of them. */
  function Selector(w: bv32, maxShamt: int): bv32
  {
    Funct7(w) & (if maxShamt == 63 then 0x7e else 0x7f)
  }

  /** The word has the opcode and function fields that the encoding tables give the mnemonic. */
  predicate HasFields(m: Mnemonic, w: bv32)
  {
    match m
    case RM(r) => RSpec(r) == Encoding(Opcode(w), Funct3(w), Funct7(w))
    case IM(i) => ISpec(i).op == Opcode(w) && ISpec(i).f3 == Funct3(w)
    case ShiftM(shift) =>
      var ShiftEncoding(op, f3, f7, maxShamt) := ShiftSpec(shift);
      op == Opcode(w) && f3 == Funct3(w) && f7 == Selector(w, maxShamt)
    case LoadM(load) => LoadSpec(load).op == Opcode(w) && LoadSpec(load).f3 == Funct3(w)
    case StoreM(store) => StoreSpec(store).op == Opcode(w) && StoreSpec(store).f3 == Funct3(w)
    case UM(u) => USpec(u).op == Opcode(w)
    case BranchM(branch) => BranchSpec(branch).op == Opcode(w) && BranchSpec(branch).f3 == Funct3(w)
    case JAL => Opcode(w) == 0x6f
    case JALR => Opcode(w) == 0x67 && Funct3(w) == 0
    case _ => false
  }

  lemma LiWord(w: bv32)
    ensures DecodeLi(w).Some? <==> w == 0x0000_0513
  {
  }

  lemma RetWord(w: bv32)
    ensures DecodeRet(w).Some? <==> w == 0x0000_8067
  {
  }

  lemma LiOperands(w: bv32)
    requires DecodeLi(w).Some?
    ensures DecodeLi(w).value == DecodedLi(10, 0)
  {
    hide IImm, Rd, Opcode, Funct3, Rs1, Signed;
    SignedZero();
  }

  lemma SignedZero()
    ensures Signed(0) == 0
  {
  }

  lemma ShiftSelects(op: bv32, f3: bv32, w: bv32)
    ensures ShiftMnemonic(op, f3, Imm12(w)).Some? ==>
              var ShiftEncoding(o, f, f7, maxShamt) := ShiftSpec(ShiftMnemonic(op, f3, Imm12(w)).value.shift);
              o == op && f == f3 && f7 == Selector(w, maxShamt)
  {
  }

  lemma RHasFields(w: bv32)
    requires RMnemonic(Opcode(w), Funct3(w), Funct7(w)).Some?
    ensures HasFields(RM(RMnemonic(Opcode(w), Funct3(w), Funct7(w)).value), w)
  {
    hide Opcode, Funct3, Funct7, Imm12, RMnemonic, RSpec;
    RTablesAgree(Opcode(w), Funct3(w), Funct7(w));
  }

  lemma ShiftHasFields(w: bv32)
    requires ShiftMnemonic(Opcode(w), Funct3(w), Imm12(w)).Some?
    ensures HasFields(ShiftM(ShiftMnemonic(Opcode(w), Funct3(w), Imm12(w)).value.shift), w)
  {
    hide Opcode, Funct3, Funct7, Imm12, ShiftMnemonic, ShiftSpec;
    ShiftSelects(Opcode(w), Funct3(w), w);
  }

  lemma IHasFields(w: bv32)
    requires IMnemonic(Opcode(w), Funct3(w)).Some?
    ensures HasFields(IM(IMnemonic(Opcode(w), Funct3(w)).value), w)
  {
    hide Opcode, Funct3, Funct7, Imm12, IMnemonic, ISpec;
    ITablesAgree(Opcode(w), Funct3(w));
  }

  lemma JumpHasFields(w: bv32)
    ensures Opcode(w) == 0x67 && Funct3(w) == 0 ==> HasFields(JALR, w)
    ensures Opcode(w) == 0x6f ==> HasFields(JAL, w)
  {
  }

  lemma BranchHasFields(w: bv32)
    requires Opcode(w) == 0x63 && BranchMnemonic(Funct3(w)).Some?
    ensures HasFields(BranchM(BranchMnemonic(Funct3(w)).value), w)
  {
    hide Opcode, Funct3, Funct7, Imm12, BranchMnemonic, BranchSpec;
    BranchTablesAgree(Funct3(w));
  }

  lemma LoadHasFields(w: bv32)
    requires LoadMnemonic(Opcode(w), Funct3(w)).Some?
    ensures HasFields(LoadM(LoadMnemonic(Opcode(w), Funct3(w)).value), w)
  {
    hide Opcode, Funct3, Funct7, Imm12, LoadMnemonic, LoadSpec;
    LoadTablesAgree(Opcode(w), Funct3(w));
  }

  lemma StoreHasFields(w: bv32)
    requires StoreMnemonic(Opcode(w), Funct3(w)).Some?
    ensures HasFields(StoreM(StoreMnemonic(Opcode(w), Funct3(w)).value), w)
  {
    hide Opcode, Funct3, Funct7, Imm12, StoreMnemonic, StoreSpec;
    StoreTablesAgree(Opcode(w), Funct3(w));
  }

  lemma UHasFields(w: bv32)
    requires UMnemonic(Opcode(w)).Some?
    ensures HasFields(UM(UMnemonic(Opcode(w)).value), w)
  {
    hide Opcode, Funct3, Funct7, Imm12, UMnemonic, USpec;
    UTablesAgree(Opcode(w));
  }

  lemma ListedRow(w: bv32)
    requires DecodeRv64I(w).Some?
    ensures DecodeRv64I(w).value.DecodedRv64I? && HasFields(DecodeRv64I(w).value.mnemonic, w)
  {
    hide Opcode, Funct3, Funct7, Rd, Rs1, Rs2, Imm12, IImm, SImm, UImm, BImm, JImm, Signed, HasFields;
    hide RMnemonic, ShiftMnemonic, IMnemonic, LoadMnemonic, StoreMnemonic, UMnemonic, BranchMnemonic;
    var op, f3, f7 := Opcode(w), Funct3(w), Funct7(w);
    if RMnemonic(op, f3, f7).Some? {
      RHasFields(w);
    } else if ShiftMnemonic(op, f3, Imm12(w)).Some? {
      ShiftHasFields(w);
    } else if IMnemonic(op, f3).Some? {
      IHasFields(w);
    } else if (op == 0x67 && f3 == 0) || op == 0x6f {
      JumpHasFields(w);
    } else if op == 0x63 && BranchMnemonic(f3).Some? {
      BranchHasFields(w);
    } else if LoadMnemonic(op, f3).Some? {
      LoadHasFields(w);
    } else if StoreMnemonic(op, f3).Some? {
      StoreHasFields(w);
    } else {
      UHasFields(w);
    }
  }

  /**
   What is listed for an accepted word: `li a0, 0` for exactly one word, `ret` for exactly one, and for
   every other word the mnemonic to which the tables give the word's own opcode and function fields,
   with the registers and the immediate of the word.
   */
  lemma ListedWord(w: bv32)
    requires DecodeWord(w).Some?
    ensures var d := DecodeWord(w).value;
            && (PrintMnemonic(d) == LI <==> w == 0x0000_0513)
            && (PrintMnemonic(d) == LI ==> PrintOperands(d) == [Gpr(10), Imm(0)])
            && (PrintMnemonic(d) == RET <==> w == 0x0000_8067)
            && (w != 0x0000_0513 && w != 0x0000_8067 ==>
                  d.DecodedRv64I? && HasFields(d.mnemonic, w) && d == Listed(d.mnemonic, w))
  {
    hide DecodeLi, DecodeRet, DecodeRv64I, HasFields, Listed;
    LiWord(w);
    RetWord(w);
    if w == 0x0000_0513 {
      LiOperands(w);
    } else if w == 0x0000_8067 {
      RetIsRet(w);
    } else {
      ListedRow(w);
      DecodedBy(DecodeRv64I(w).value.mnemonic, w);
      PseudoHasNoFields(w);
    }
  }

  lemma RetIsRet(w: bv32)
    ensures DecodeRet(w).Some? ==> DecodeRet(w).value == DecodedRet
  {
  }

  lemma PseudoHasNoFields(w: bv32)
    ensures !HasFields(LI, w) && !HasFields(RET, w)
  {
  }

  // ------------------------------------------------------ which words are accepted

  lemma RRow(r: ROp)
    ensures var Encoding(op, f3, f7) := RSpec(r);
            RMnemonic(op, f3, f7) == Some(r) && ShiftFree(op, f3) && op != 0x13 && op != 0x67
  {
    match r {
      case ADD => case SUB => case SLL => case SLT => case SLTU => case XOR => case SRL => case SRA =>
      case OR => case AND => case ADDW => case SUBW => case SLLW => case SRLW => case SRAW =>
    }
  }

  /** No shift has this opcode and funct3. */
  predicate ShiftFree(op: bv32, f3: bv32)
  {
    !((op == 0x13 || op == 0x1b) && (f3 == 1 || f3 == 5))
  }

  predicate IsRegisterOpcode(op: bv32) { op == 0x33 || op == 0x3b }

  lemma NoRegisterRow(op: bv32, f3: bv32, f7: bv32)
    requires !IsRegisterOpcode(op)
    ensures RMnemonic(op, f3, f7).None?
  {
  }

  lemma NoShiftRow(op: bv32, f3: bv32, imm12: bv32)
    requires ShiftFree(op, f3)
    ensures ShiftMnemonic(op, f3, imm12).None?
  {
  }

  lemma IRow(i: IOp)
    ensures var e := ISpec(i); IMnemonic(e.op, e.f3) == Some(i) && !IsRegisterOpcode(e.op) && ShiftFree(e.op, e.f3)
    ensures ISpec(i).op == 0x13 && ISpec(i).f3 == 0 <==> i == ADDI
    ensures ISpec(i).op != 0x67
  {
    match i {
      case ADDI => case SLTI => case SLTIU => case XORI => case ORI => case ANDI => case ADDIW =>
    }
  }

  /** The bits above the shift amount select the row. */
  predicate SelectedBy(imm12: bv32, f7: bv32, maxShamt: int)
  {
    imm12 <= 0xfff && imm12 & !ShamtMask(maxShamt) == f7 << 5
  }

  lemma ShiftRow(shift: ShiftOp, imm12: bv32)
    requires SelectedBy(imm12, ShiftSpec(shift).f7, ShiftSpec(shift).maxShamt)
    ensures var e := ShiftSpec(shift);
            && ShiftMnemonic(e.op, e.f3, imm12) == Some(ShiftMatch(shift, imm12 & ShamtMask(e.maxShamt)))
            && !IsRegisterOpcode(e.op) && e.f3 != 0
  {
    match shift {
      case SLLI => case SRLI => case SRAI => case SLLIW => case SRLIW => case SRAIW =>
    }
  }

  lemma LoadRow(load: LoadOp)
    ensures var e := LoadSpec(load); e.op == 0x03 && LoadMnemonic(e.op, e.f3) == Some(load)
  {
    match load {
      case LB => case LH => case LW => case LD => case LBU => case LHU => case LWU =>
    }
  }

  lemma StoreRow(store: StoreOp)
    ensures var e := StoreSpec(store); e.op == 0x23 && StoreMnemonic(e.op, e.f3) == Some(store)
  {
  }

  lemma URow(u: UOp)
    ensures var e := USpec(u); (e.op == 0x37 || e.op == 0x17) && UMnemonic(e.op) == Some(u)
  {
  }

  lemma BranchRow(branch: BranchOp)
    ensures var e := BranchSpec(branch); e.op == 0x63 && BranchMnemonic(e.f3) == Some(branch)
  {
    match branch {
      case BEQ => case BNE => case BLT => case BGE => case BLTU => case BGEU =>
    }
  }

  lemma NoImmediateRow(op: bv32, f3: bv32)
    requires op != 0x13 && op != 0x1b
    ensures IMnemonic(op, f3).None?
  {
  }

  lemma SelectorOf(w: bv32, f7: bv32, maxShamt: int)
    requires f7 == Selector(w, maxShamt)
    ensures SelectedBy(Imm12(w), f7, maxShamt)
  {
  }

  lemma FieldsHaveRow(m: Mnemonic, w: bv32)
    requires HasFields(m, w)
    ensures HasRow(Opcode(w), Funct3(w), Funct7(w), Imm12(w))
  {
    hide Opcode, Funct3, Funct7, Imm12, RMnemonic, ShiftMnemonic, IMnemonic, LoadMnemonic, StoreMnemonic, UMnemonic,
         BranchMnemonic, SelectedBy, RSpec, ISpec, ShiftSpec, LoadSpec, StoreSpec, USpec, BranchSpec;
    match m {
      case RM(r) => RRow(r);
      case IM(i) => IRow(i);
      case ShiftM(shift) =>
        SelectorOf(w, ShiftSpec(shift).f7, ShiftSpec(shift).maxShamt);
        ShiftRow(shift, Imm12(w));
      case LoadM(load) => LoadRow(load);
      case StoreM(store) => StoreRow(store);
      case UM(u) => URow(u);
      case BranchM(branch) => BranchRow(branch);
      case _ =>
    }
  }

  lemma InsnDReadBack(major: bv32, operation: bv32, rd: bv32, rs1: bv32, rs2: bv32, rs4: bv32, dtype: bv32)
    requires major <= 0x7f && operation <= 0xff && dtype <= 0xffff && rd <= 31 && rs1 <= 31 && rs2 <= 31 && rs4 <= 31
    ensures DecodeInsnD(EncodeInsnD(major, operation, rd, rs1, rs2, rs4, dtype)) ==
            Some(DecodedInsnD(major, operation, rd, rs1, rs2, rs4, dtype))
  {
  }

  /** A word is accepted exactly when the tables have a mnemonic for its fields. */
  lemma AcceptedExact(w: bv32)
    ensures DecodeWord(w).Some? <==> exists m :: HasFields(m, w)
  {
    hide HasFields, DecodeLi, DecodeRet, DecodeRv64I;
    if DecodeWord(w).Some? {
      ListedWord(w);
      PseudoFields(w);
      if w != 0x0000_0513 && w != 0x0000_8067 {
        assert HasFields(DecodeWord(w).value.mnemonic, w);
      }
    }
    if exists m :: HasFields(m, w) {
      var m :| HasFields(m, w);
      FieldsHaveRow(m, w);
      RowDecodes(w);
    }
  }

  lemma PseudoFields(w: bv32)
    ensures w == 0x0000_0513 ==> HasFields(IM(ADDI), w)
    ensures w == 0x0000_8067 ==> HasFields(JALR, w)
  {
  }

  // ------------------------------------------------------ the whole line of a word

  /** The line the fields of a word spell under a mnemonic that has them. */
  function Listed(m: Mnemonic, w: bv32): Decoded
  {
    match m
    case RM(_) => DecodedRv64I(RType, m, Rd(w), Rs1(w), Rs2(w), 0, "")
    case ShiftM(shift) =>
      DecodedRv64I(IType, m, Rd(w), Rs1(w), 0, Signed(Imm12(w) & ShamtMask(ShiftSpec(shift).maxShamt)), "")
    case LoadM(_) => DecodedRv64I(Load, m, Rd(w), Rs1(w), 0, Signed(IImm(w)), "")
    case StoreM(_) => DecodedRv64I(Store, m, 0, Rs1(w), Rs2(w), Signed(SImm(w)), "")
    case UM(_) => DecodedRv64I(UType, m, Rd(w), 0, 0, Signed(UImm(w)), "")
    case BranchM(_) => DecodedRv64I(Branch, m, 0, Rs1(w), Rs2(w), Signed(BImm(w)), "")
    case JAL => DecodedRv64I(Jal, m, Rd(w), 0, 0, Signed(JImm(w)), "")
    case JALR => DecodedRv64I(Jalr, m, Rd(w), Rs1(w), 0, Signed(IImm(w)), "")
    case _ => DecodedRv64I(IType, m, Rd(w), Rs1(w), 0, Signed(IImm(w)), "")
  }

  /** The rows above one in the table scan of the decoder. */
  lemma RowsAbove(op: bv32, f3: bv32, f7: bv32, imm12: bv32)
    requires op == 0x67 || op == 0x6f || op == 0x63 || op == 0x03 || op == 0x23 || op == 0x37 || op == 0x17
    ensures RMnemonic(op, f3, f7).None? && ShiftMnemonic(op, f3, imm12).None? && IMnemonic(op, f3).None?
    ensures op != 0x03 ==> LoadMnemonic(op, f3).None?
    ensures op != 0x23 ==> StoreMnemonic(op, f3).None?
  {
  }

  lemma RDecoded(r: ROp, w: bv32)
    requires HasFields(RM(r), w)
    ensures DecodeRv64I(w) == Some(Listed(RM(r), w))
  {
    hide Opcode, Funct3, Funct7, Rd, Rs1, Rs2, Imm12, IImm, SImm, UImm, BImm, JImm, Signed, RMnemonic, ShiftMnemonic,
         IMnemonic, LoadMnemonic, StoreMnemonic, UMnemonic, BranchMnemonic, RSpec, ISpec, ShiftSpec, LoadSpec,
         StoreSpec, USpec, BranchSpec;
    RRow(r);
  }

  lemma IDecoded(i: IOp, w: bv32)
    requires HasFields(IM(i), w)
    ensures DecodeRv64I(w) == Some(Listed(IM(i), w))
  {
    hide Opcode, Funct3, Funct7, Rd, Rs1, Rs2, Imm12, IImm, SImm, UImm, BImm, JImm, Signed, RMnemonic, ShiftMnemonic,
         IMnemonic, LoadMnemonic, StoreMnemonic, UMnemonic, BranchMnemonic, RSpec, ISpec, ShiftSpec, LoadSpec,
         StoreSpec, USpec, BranchSpec;
    IRow(i);
    NoRegisterRow(Opcode(w), Funct3(w), Funct7(w));
    NoShiftRow(Opcode(w), Funct3(w), Imm12(w));
  }

  lemma ShiftRowOf(shift: ShiftOp, w: bv32)
    requires HasFields(ShiftM(shift), w)
    ensures ShiftMnemonic(Opcode(w), Funct3(w), Imm12(w)) ==
            Some(ShiftMatch(shift, Imm12(w) & ShamtMask(ShiftSpec(shift).maxShamt)))
    ensures !IsRegisterOpcode(Opcode(w))
  {
    hide Opcode, Funct3, Selector, Imm12, ShiftMnemonic, ShiftSpec, ShamtMask, SelectedBy;
    SelectorOf(w, ShiftSpec(shift).f7, ShiftSpec(shift).maxShamt);
    ShiftRow(shift, Imm12(w));
  }

  lemma ShiftDecoded(shift: ShiftOp, w: bv32)
    requires HasFields(ShiftM(shift), w)
    ensures DecodeRv64I(w) == Some(Listed(ShiftM(shift), w))
  {
    hide Opcode, Funct3, Funct7, Rd, Rs1, Rs2, Imm12, IImm, SImm, UImm, BImm, JImm, Signed, RMnemonic, ShiftMnemonic,
         IMnemonic, LoadMnemonic, StoreMnemonic, UMnemonic, BranchMnemonic, ShiftSpec, ShamtMask, HasFields;
    ShiftRowOf(shift, w);
    NoRegisterRow(Opcode(w), Funct3(w), Funct7(w));
  }

  lemma LoadDecoded(load: LoadOp, w: bv32)
    requires HasFields(LoadM(load), w)
    ensures DecodeRv64I(w) == Some(Listed(LoadM(load), w))
  {
    hide Opcode, Funct3, Funct7, Rd, Rs1, Rs2, Imm12, IImm, SImm, UImm, BImm, JImm, Signed, RMnemonic, ShiftMnemonic,
         IMnemonic, LoadMnemonic, StoreMnemonic, UMnemonic, BranchMnemonic, RSpec, ISpec, ShiftSpec, LoadSpec,
         StoreSpec, USpec, BranchSpec;
    LoadRow(load);
    RowsAbove(Opcode(w), Funct3(w), Funct7(w), Imm12(w));
  }

  lemma StoreDecoded(store: StoreOp, w: bv32)
    requires HasFields(StoreM(store), w)
    ensures DecodeRv64I(w) == Some(Listed(StoreM(store), w))
  {
    hide Opcode, Funct3, Funct7, Rd, Rs1, Rs2, Imm12, IImm, SImm, UImm, BImm, JImm, Signed, RMnemonic, ShiftMnemonic,
         IMnemonic, LoadMnemonic, StoreMnemonic, UMnemonic, BranchMnemonic, RSpec, ISpec, ShiftSpec, LoadSpec,
         StoreSpec, USpec, BranchSpec;
    StoreRow(store);
    RowsAbove(Opcode(w), Funct3(w), Funct7(w), Imm12(w));
  }

  lemma UDecoded(u: UOp, w: bv32)
    requires HasFields(UM(u), w)
    ensures DecodeRv64I(w) == Some(Listed(UM(u), w))
  {
    hide Opcode, Funct3, Funct7, Rd, Rs1, Rs2, Imm12, IImm, SImm, UImm, BImm, JImm, Signed, RMnemonic, ShiftMnemonic,
         IMnemonic, LoadMnemonic, StoreMnemonic, UMnemonic, BranchMnemonic, RSpec, ISpec, ShiftSpec, LoadSpec,
         StoreSpec, USpec, BranchSpec;
    URow(u);
    RowsAbove(Opcode(w), Funct3(w), Funct7(w), Imm12(w));
  }

  lemma BranchDecoded(branch: BranchOp, w: bv32)
    requires HasFields(BranchM(branch), w)
    ensures DecodeRv64I(w) == Some(Listed(BranchM(branch), w))
  {
    hide Opcode, Funct3, Funct7, Rd, Rs1, Rs2, Imm12, IImm, SImm, UImm, BImm, JImm, Signed, RMnemonic, ShiftMnemonic,
         IMnemonic, LoadMnemonic, StoreMnemonic, UMnemonic, BranchMnemonic, RSpec, ISpec, ShiftSpec, LoadSpec,
         StoreSpec, USpec, BranchSpec;
    BranchRow(branch);
    RowsAbove(Opcode(w), Funct3(w), Funct7(w), Imm12(w));
  }

  lemma JumpDecoded(m: Mnemonic, w: bv32)
    requires (m == JAL || m == JALR) && HasFields(m, w)
    ensures DecodeRv64I(w) == Some(Listed(m, w))
  {
    hide Opcode, Funct3, Funct7, Rd, Rs1, Rs2, Imm12, IImm, SImm, UImm, BImm, JImm, Signed, RMnemonic, ShiftMnemonic,
         IMnemonic, LoadMnemonic, StoreMnemonic, UMnemonic, BranchMnemonic, RSpec, ISpec, ShiftSpec, LoadSpec,
         StoreSpec, USpec, BranchSpec;
    RowsAbove(Opcode(w), Funct3(w), Funct7(w), Imm12(w));
  }

  /** No word has the fields of two mnemonics, and the decoder finds the one it has. */
  lemma DecodedBy(m: Mnemonic, w: bv32)
    requires HasFields(m, w)
    ensures DecodeRv64I(w) == Some(Listed(m, w))
  {
    hide DecodeRv64I, Listed, Opcode, Funct3, Funct7, RSpec, ISpec, ShiftSpec, LoadSpec, StoreSpec, USpec, BranchSpec;
    match m {
      case RM(r) => RDecoded(r, w);
      case IM(i) => IDecoded(i, w);
      case ShiftM(shift) => ShiftDecoded(shift, w);
      case LoadM(load) => LoadDecoded(load, w);
      case StoreM(store) => StoreDecoded(store, w);
      case UM(u) => UDecoded(u, w);
      case BranchM(branch) => BranchDecoded(branch, w);
      case _ => JumpDecoded(m, w);
    }
  }

  /** The one line a word that is no `li` and no `ret` is listed as. */
  lemma WordListed(m: Mnemonic, w: bv32)
    requires HasFields(m, w) && w != 0x0000_0513 && w != 0x0000_8067
    ensures DecodeWord(w) == Some(Listed(m, w))
  {
    hide DecodeLi, DecodeRet, DecodeRv64I, HasFields, Listed;
    LiWord(w);
    RetWord(w);
    DecodedBy(m, w);
  }

  // ------------------------------------------------------ fields put in are read back

  lemma RegistersOfR(op: bv32, rd: bv32, f3: bv32, rs1: bv32, rs2: bv32, f7: bv32, w: bv32)
    requires rd <= 31 && rs1 <= 31 && rs2 <= 31 && w == EncodeR(op, rd, f3, rs1, rs2, f7)
    ensures Rd(w) == rd && Rs1(w) == rs1 && Rs2(w) == rs2
  {
  }

  lemma RegistersOfI(op: bv32, rd: bv32, f3: bv32, rs1: bv32, imm: bv32, w: bv32)
    requires rd <= 31 && rs1 <= 31 && w == EncodeI(op, rd, f3, rs1, imm)
    ensures Rd(w) == rd && Rs1(w) == rs1
  {
  }

  lemma RegistersOfS(op: bv32, f3: bv32, rs1: bv32, rs2: bv32, imm: bv32, w: bv32)
    requires rs1 <= 31 && rs2 <= 31 && w == EncodeS(op, f3, rs1, rs2, imm)
    ensures Rs1(w) == rs1 && Rs2(w) == rs2 && SRaw(w) == imm & 0xfff
  {
  }

  lemma RegistersOfU(op: bv32, rd: bv32, imm: bv32, w: bv32)
    requires rd <= 31 && w == EncodeU(op, rd, imm)
    ensures Rd(w) == rd && w >> 12 == imm & 0xf_ffff
  {
  }

  lemma RegistersOfB(f3: bv32, rs1: bv32, rs2: bv32, imm: bv32, w: bv32)
    requires rs1 <= 31 && rs2 <= 31 && w == EncodeB(0x63, f3, rs1, rs2, imm)
    ensures Rs1(w) == rs1 && Rs2(w) == rs2
  {
  }

  lemma RegistersOfJ(rd: bv32, imm: bv32, w: bv32)
    requires rd <= 31 && w == EncodeJ(0x6f, rd, imm)
    ensures Rd(w) == rd
  {
  }

  lemma Word12(x: bv32)
    requires -2048 <= Signed(x) <= 2047
    ensures x <= 0x7ff || x >= 0xffff_f800
  {
    hide Low, Signed, Pow2;
    PowersOfTwo();
    SignedFits(x, 11);
    Low11(x);
    Low11(!x);
    NotHigh11(x);
  }

  lemma Word20(x: bv32)
    requires -0x8_0000 <= Signed(x) <= 0x7_ffff
    ensures x <= 0x7_ffff || x >= 0xfff8_0000
  {
    hide Low, Signed, Pow2;
    PowersOfTwo();
    SignedFits(x, 19);
    Low19(x);
    Low19(!x);
    NotHigh19(x);
  }

  lemma Masked12(imm: bv32)
    requires imm >= 0xffff_f800
    ensures 0x7ff < imm & 0xfff <= 0xfff && (imm & 0xfff) | 0xffff_f000 == imm
  {
  }

  lemma Masked20(imm: bv32)
    requires imm >= 0xfff8_0000
    ensures 0x7_ffff < imm & 0xf_ffff <= 0xf_ffff && (imm & 0xf_ffff) | 0xfff0_0000 == imm
  {
  }

  lemma Extend12(imm: bv32)
    requires imm <= 0x7ff || imm >= 0xffff_f800
    ensures SignExtend(imm & 0xfff, 12) == imm
  {
    hide SignExtend;
    if imm <= 0x7ff {
      Positive12(imm);
    } else {
      Masked12(imm);
      Negative12(imm & 0xfff);
    }
  }

  lemma Extend20(imm: bv32)
    requires imm <= 0x7_ffff || imm >= 0xfff8_0000
    ensures SignExtend(imm & 0xf_ffff, 20) == imm
  {
    hide SignExtend;
    if imm <= 0x7_ffff {
      Positive20(imm);
    } else {
      Masked20(imm);
      Negative20(imm & 0xf_ffff);
    }
  }

  /** The immediate of an I word is the sign extension of its field. */
  lemma IImmExtends(w: bv32)
    ensures IImm(w) == SignExtend(Imm12(w), 12) && Imm12(w) <= 0xfff
  {
  }

  lemma Immediate12(v: int)
    requires FitsSigned12(v)
    ensures Signed(SignExtend(WordOf(v) & 0xfff, 12)) == v
  {
    hide SignExtend, WordOf, Signed;
    var imm := WordOf(v);
    SignedWordOf(v);
    Word12(imm);
    Extend12(imm);
  }

  lemma Immediate20(v: int)
    requires FitsSigned20(v)
    ensures Signed(SignExtend(WordOf(v) & 0xf_ffff, 20)) == v
  {
    hide SignExtend, WordOf, Signed;
    var imm := WordOf(v);
    SignedWordOf(v);
    Word20(imm);
    Extend20(imm);
  }

  // ------------------------------------------------------ listing an assembled line

  /** A line as its word is listed: `li` and `ret` are spelled only where the disassembler knows them. */
  function CanonicalMnemonic(m: Mnemonic, ops: seq<Operand>): Mnemonic
  {
    if m == LI && ops != [Gpr(10), Imm(0)] then IM(ADDI)
    else if m == IM(ADDI) && ops == [Gpr(10), Gpr(0), Imm(0)] then LI
    else if m == JALR && ops == [Gpr(0), Mem(0, 1)] then RET
    else m
  }

  function CanonicalOperands(m: Mnemonic, ops: seq<Operand>): seq<Operand>
  {
    if m == LI && |ops| == 2 && ops != [Gpr(10), Imm(0)] then [ops[0], Gpr(0), ops[1]]
    else if m == IM(ADDI) && ops == [Gpr(10), Gpr(0), Imm(0)] then [Gpr(10), Imm(0)]
    else if m == JALR && ops == [Gpr(0), Mem(0, 1)] then []
    else ops
  }

  /** The words `li a0, 0` and `ret` stand for, by their fields. */
  lemma PseudoWords(op: bv32, rd: bv32, f3: bv32, rs1: bv32, imm: bv32, w: bv32)
    requires op <= 0x7f && f3 <= 7 && rd <= 31 && rs1 <= 31 && (imm <= 0x7ff || imm >= 0xffff_f800)
    requires w == EncodeI(op, rd, f3, rs1, imm)
    ensures w == 0x0000_0513 <==> op == 0x13 && rd == 10 && f3 == 0 && rs1 == 0 && imm == 0
    ensures w == 0x0000_8067 <==> op == 0x67 && rd == 0 && f3 == 0 && rs1 == 1 && imm == 0
  {
    hide EncodeI;
    FieldsOfI(op, rd, f3, rs1, imm, w);
    RegistersOfI(op, rd, f3, rs1, imm, w);
    WordsOfPseudo(w);
    MaskedZero(imm);
  }

  lemma WordsOfPseudo(w: bv32)
    ensures w == 0x0000_0513 <==>
            Opcode(w) == 0x13 && Rd(w) == 10 && Funct3(w) == 0 && Rs1(w) == 0 && Imm12(w) == 0
    ensures w == 0x0000_8067 <==>
            Opcode(w) == 0x67 && Rd(w) == 0 && Funct3(w) == 0 && Rs1(w) == 1 && Imm12(w) == 0
  {
  }

  lemma MaskedZero(imm: bv32)
    requires imm <= 0x7ff || imm >= 0xffff_f800
    ensures imm & 0xfff == 0 <==> imm == 0
  {
  }

  lemma ZeroWord(v: int)
    requires FitsSigned12(v)
    ensures WordOf(v) == 0 <==> v == 0
    ensures WordOf(v) <= 0x7ff || WordOf(v) >= 0xffff_f800
  {
    hide WordOf;
    SignedWordOf(v);
    SignedWordOf(0);
    SignedZero();
    Word12(WordOf(v));
    WordOfZero();
  }

  lemma WordOfZero()
    ensures WordOf(0) == 0
  {
  }

  // The word of each kind of line. A pseudo-instruction is listed for two I words only.

  lemma RListed(r: ROp, rd: bv32, rs1: bv32, rs2: bv32)
    requires rd <= 31 && rs1 <= 31 && rs2 <= 31
    ensures var e := RSpec(r);
            DecodeWord(EncodeR(e.op, rd, e.f3, rs1, rs2, e.f7)) == Some(DecodedRv64I(RType, RM(r), rd, rs1, rs2, 0, ""))
  {
    hide EncodeR, Opcode, Funct3, Funct7, Rd, Rs1, Rs2, DecodeWord, RMnemonic;
    var e := RSpec(r);
    var w := EncodeR(e.op, rd, e.f3, rs1, rs2, e.f7);
    RAccepted(r);
    RRow(r);
    FieldsOfR(e.op, rd, e.f3, rs1, rs2, e.f7, w);
    RegistersOfR(e.op, rd, e.f3, rs1, rs2, e.f7, w);
    NotPseudo(w);
    WordListed(RM(r), w);
  }

  lemma NotPseudo(w: bv32)
    requires Opcode(w) != 0x13 && Opcode(w) != 0x67
    ensures w != 0x0000_0513 && w != 0x0000_8067
  {
  }

  lemma IImmReadBack(v: int, w: bv32)
    requires FitsSigned12(v) && Imm12(w) == WordOf(v) & 0xfff
    ensures Signed(IImm(w)) == v
  {
    hide WordOf, IImm, Imm12, Signed, SignExtend;
    IImmExtends(w);
    Immediate12(v);
  }

  /** The immediate and the registers of an I word are read back. */
  lemma IReadBack(op: bv32, f3: bv32, rd: bv32, rs1: bv32, v: int, w: bv32)
    requires op <= 0x7f && f3 <= 7 && rd <= 31 && rs1 <= 31 && FitsSigned12(v)
    requires w == EncodeI(op, rd, f3, rs1, WordOf(v))
    ensures Opcode(w) == op && Funct3(w) == f3 && Rd(w) == rd && Rs1(w) == rs1 && Signed(IImm(w)) == v
  {
    hide EncodeI, WordOf, IImm, Rd, Rs1, Opcode, Funct3, Imm12, Signed;
    RegistersOfI(op, rd, f3, rs1, WordOf(v), w);
    FieldsOfI(op, rd, f3, rs1, WordOf(v), w);
    IImmReadBack(v, w);
  }

  lemma PseudoOnly(op: bv32, f3: bv32, rd: bv32, rs1: bv32, v: int, w: bv32)
    requires op <= 0x7f && f3 <= 7 && rd <= 31 && rs1 <= 31 && FitsSigned12(v)
    requires w == EncodeI(op, rd, f3, rs1, WordOf(v))
    ensures w == 0x0000_0513 <==> op == 0x13 && rd == 10 && f3 == 0 && rs1 == 0 && v == 0
    ensures w == 0x0000_8067 <==> op == 0x67 && rd == 0 && f3 == 0 && rs1 == 1 && v == 0
  {
    hide EncodeI, WordOf;
    ZeroWord(v);
    PseudoWords(op, rd, f3, rs1, WordOf(v), w);
  }

  lemma PseudoListed(w: bv32)
    ensures w == 0x0000_0513 ==> DecodeWord(w) == Some(DecodedLi(10, 0))
    ensures w == 0x0000_8067 ==> DecodeWord(w) == Some(DecodedRet)
  {
    hide DecodeLi, DecodeRet, DecodeRv64I;
    LiWord(w);
    RetWord(w);
    if DecodeLi(w).Some? {
      LiOperands(w);
    } else if DecodeRet(w).Some? {
      RetIsRet(w);
    }
  }

  lemma IListed(i: IOp, rd: bv32, rs1: bv32, v: int)
    requires rd <= 31 && rs1 <= 31 && FitsSigned12(v)
    ensures var d := DecodeWord(EncodeI(ISpec(i).op, rd, ISpec(i).f3, rs1, WordOf(v)));
            if i == ADDI && rd == 10 && rs1 == 0 && v == 0 then d == Some(DecodedLi(10, 0))
            else d == Some(DecodedRv64I(IType, IM(i), rd, rs1, 0, v, ""))
  {
    hide EncodeI, WordOf, IImm, Rd, Rs1, Opcode, Funct3, Signed, DecodeWord, ISpec, IMnemonic;
    var e := ISpec(i);
    var w := EncodeI(e.op, rd, e.f3, rs1, WordOf(v));
    IAccepted(i);
    IRow(i);
    IReadBack(e.op, e.f3, rd, rs1, v, w);
    PseudoOnly(e.op, e.f3, rd, rs1, v, w);
    PseudoListed(w);
    if w != 0x0000_0513 {
      WordListed(IM(i), w);
    }
  }

  lemma LoadListed(load: LoadOp, rd: bv32, rs1: bv32, v: int)
    requires rd <= 31 && rs1 <= 31 && FitsSigned12(v)
    ensures DecodeWord(EncodeI(LoadSpec(load).op, rd, LoadSpec(load).f3, rs1, WordOf(v))) ==
            Some(DecodedRv64I(Load, LoadM(load), rd, rs1, 0, v, ""))
  {
    hide EncodeI, WordOf, IImm, Rd, Rs1, Opcode, Funct3, Signed, DecodeWord, LoadSpec, LoadMnemonic;
    var e := LoadSpec(load);
    var w := EncodeI(e.op, rd, e.f3, rs1, WordOf(v));
    LoadAccepted(load);
    LoadRow(load);
    IReadBack(e.op, e.f3, rd, rs1, v, w);
    PseudoOnly(e.op, e.f3, rd, rs1, v, w);
    WordListed(LoadM(load), w);
  }

  lemma JalrListed(rd: bv32, rs1: bv32, v: int)
    requires rd <= 31 && rs1 <= 31 && FitsSigned12(v)
    ensures var d := DecodeWord(EncodeI(0x67, rd, 0, rs1, WordOf(v)));
            if rd == 0 && rs1 == 1 && v == 0 then d == Some(DecodedRet)
            else d == Some(DecodedRv64I(Jalr, JALR, rd, rs1, 0, v, ""))
  {
    hide EncodeI, WordOf, IImm, Rd, Rs1, Opcode, Funct3, Signed, DecodeWord;
    var w := EncodeI(0x67, rd, 0, rs1, WordOf(v));
    IReadBack(0x67, 0, rd, rs1, v, w);
    PseudoOnly(0x67, 0, rd, rs1, v, w);
    PseudoListed(w);
    if w != 0x0000_8067 {
      WordListed(JALR, w);
    }
  }

  /** The immediate of a shift word: the shift amount below the function bits. */
  function Joined(f7: bv32, shamt: bv32): bv32
  {
    (f7 << 5) | shamt
  }

  lemma ShiftImmediate(f7: bv32, shamt: bv32, maxShamt: int, w: bv32)
    requires (maxShamt == 63 || maxShamt == 31) && (f7 == 0 || f7 == 0x20) && shamt <= ShamtMask(maxShamt)
    requires Imm12(w) == Joined(f7, shamt) & 0xfff
    ensures Imm12(w) & ShamtMask(maxShamt) == shamt
    ensures f7 == Selector(w, maxShamt)
  {
  }

  lemma ShiftSpecRow(shift: ShiftOp)
    ensures var e := ShiftSpec(shift);
            && (e.maxShamt == 63 || e.maxShamt == 31) && (e.f7 == 0 || e.f7 == 0x20)
            && e.op <= 0x7f && (e.f3 == 1 || e.f3 == 5)
  {
  }

  lemma ShiftListed(shift: ShiftOp, rd: bv32, rs1: bv32, v: int, imm: bv32)
    requires rd <= 31 && rs1 <= 31 && 0 <= v <= ShiftSpec(shift).maxShamt
    requires imm == Joined(ShiftSpec(shift).f7, WordOf(v))
    ensures DecodeWord(EncodeI(ShiftSpec(shift).op, rd, ShiftSpec(shift).f3, rs1, imm)) ==
            Some(DecodedRv64I(IType, ShiftM(shift), rd, rs1, 0, v, ""))
  {
    hide EncodeI, WordOf, Signed, DecodeWord, ShiftSpec, Joined, ShamtMask;
    var e := ShiftSpec(shift);
    ShiftSpecRow(shift);
    ShamtWord(v, e.maxShamt);
    ShiftWordListed(shift, e.op, e.f3, e.f7, e.maxShamt, rd, rs1, WordOf(v), EncodeI(e.op, rd, e.f3, rs1, imm));
    SignedWordOf(v);
  }

  lemma ShiftWordListed(shift: ShiftOp, op: bv32, f3: bv32, f7: bv32, maxShamt: int, rd: bv32, rs1: bv32, shamt: bv32,
                        w: bv32)
    requires ShiftSpec(shift) == ShiftEncoding(op, f3, f7, maxShamt) && op <= 0x7f && (f3 == 1 || f3 == 5)
    requires (maxShamt == 63 || maxShamt == 31) && (f7 == 0 || f7 == 0x20) && shamt <= ShamtMask(maxShamt)
    requires rd <= 31 && rs1 <= 31 && w == EncodeI(op, rd, f3, rs1, Joined(f7, shamt))
    ensures DecodeWord(w) == Some(DecodedRv64I(IType, ShiftM(shift), rd, rs1, 0, Signed(shamt), ""))
  {
    hide EncodeI, Rd, Rs1, Opcode, Funct3, Selector, Imm12, Signed, DecodeWord, ShiftSpec, ShamtMask, Joined, HasFields;
    RegistersOfI(op, rd, f3, rs1, Joined(f7, shamt), w);
    ShiftReadBack(op, f3, f7, maxShamt, rd, rs1, shamt, w);
    ShiftFields(shift, op, f3, f7, maxShamt, w);
    WordListed(ShiftM(shift), w);
  }

  lemma ShiftReadBack(op: bv32, f3: bv32, f7: bv32, maxShamt: int, rd: bv32, rs1: bv32, shamt: bv32, w: bv32)
    requires (maxShamt == 63 || maxShamt == 31) && (f7 == 0 || f7 == 0x20) && shamt <= ShamtMask(maxShamt)
    requires op <= 0x7f && (f3 == 1 || f3 == 5) && w == EncodeI(op, rd, f3, rs1, Joined(f7, shamt))
    ensures Opcode(w) == op && Funct3(w) == f3 && Selector(w, maxShamt) == f7
    ensures Imm12(w) & ShamtMask(maxShamt) == shamt && w != 0x0000_0513 && w != 0x0000_8067
  {
    hide EncodeI, Opcode, Funct3, Selector, Imm12, ShamtMask, Joined;
    FieldsOfI(op, rd, f3, rs1, Joined(f7, shamt), w);
    ShiftImmediate(f7, shamt, maxShamt, w);
    NoFunct3(w);
  }

  lemma ShiftFields(shift: ShiftOp, op: bv32, f3: bv32, f7: bv32, maxShamt: int, w: bv32)
    requires ShiftSpec(shift) == ShiftEncoding(op, f3, f7, maxShamt)
    requires Opcode(w) == op && Funct3(w) == f3 && Selector(w, maxShamt) == f7
    ensures HasFields(ShiftM(shift), w)
  {
    hide Opcode, Funct3, Selector, ShiftSpec;
  }

  lemma NoFunct3(w: bv32)
    requires Funct3(w) != 0
    ensures w != 0x0000_0513 && w != 0x0000_8067
  {
  }

  lemma StoreListed(store: StoreOp, rs1: bv32, rs2: bv32, v: int)
    requires rs1 <= 31 && rs2 <= 31 && FitsSigned12(v)
    ensures DecodeWord(EncodeS(StoreSpec(store).op, StoreSpec(store).f3, rs1, rs2, WordOf(v))) ==
            Some(DecodedRv64I(Store, StoreM(store), 0, rs1, rs2, v, ""))
  {
    hide EncodeS, WordOf, SRaw, SignExtend, Rs1, Rs2, Opcode, Funct3, Signed, DecodeWord, StoreSpec, StoreMnemonic;
    var e := StoreSpec(store);
    var w := EncodeS(e.op, e.f3, rs1, rs2, WordOf(v));
    StoreAccepted(store);
    StoreRow(store);
    FieldsOfS(e.op, e.f3, rs1, rs2, WordOf(v), w);
    RegistersOfS(e.op, e.f3, rs1, rs2, WordOf(v), w);
    Immediate12(v);
    NotPseudo(w);
    WordListed(StoreM(store), w);
  }

  lemma UListed(u: UOp, rd: bv32, v: int)
    requires rd <= 31 && FitsSigned20(v)
    ensures DecodeWord(EncodeU(USpec(u).op, rd, WordOf(v))) == Some(DecodedRv64I(UType, UM(u), rd, 0, 0, v, ""))
  {
    hide EncodeU, WordOf, SignExtend, Rd, Opcode, Signed, DecodeWord, USpec, UMnemonic;
    var op := USpec(u).op;
    var w := EncodeU(op, rd, WordOf(v));
    UAccepted(u);
    URow(u);
    FieldsOfU(op, rd, WordOf(v), w);
    RegistersOfU(op, rd, WordOf(v), w);
    Immediate20(v);
    NotPseudo(w);
    WordListed(UM(u), w);
  }

  lemma BranchListed(branch: BranchOp, rs1: bv32, rs2: bv32, v: int)
    requires rs1 <= 31 && rs2 <= 31 && FitsBranch(v)
    ensures DecodeWord(EncodeB(0x63, BranchSpec(branch).f3, rs1, rs2, WordOf(v))) ==
            Some(DecodedRv64I(Branch, BranchM(branch), 0, rs1, rs2, v, ""))
  {
    hide EncodeB, WordOf, BImm, Rs1, Rs2, Opcode, Funct3, Signed, DecodeWord, BranchSpec, BranchMnemonic;
    var f3 := BranchSpec(branch).f3;
    var w := EncodeB(0x63, f3, rs1, rs2, WordOf(v));
    BranchAccepted(branch);
    BranchRow(branch);
    FieldsOfB(f3, rs1, rs2, WordOf(v), w);
    RegistersOfB(f3, rs1, rs2, WordOf(v), w);
    BranchImmediate(f3, rs1, rs2, v, w);
    NotPseudo(w);
    WordListed(BranchM(branch), w);
  }

  lemma JumpListed(rd: bv32, v: int)
    requires rd <= 31 && FitsJump(v)
    ensures DecodeWord(EncodeJ(0x6f, rd, WordOf(v))) == Some(DecodedRv64I(Jal, JAL, rd, 0, 0, v, ""))
  {
    hide EncodeJ, WordOf, JImm, Rd, Opcode, Signed, DecodeWord;
    var w := EncodeJ(0x6f, rd, WordOf(v));
    FieldsOfJ(rd, WordOf(v), w);
    RegistersOfJ(rd, WordOf(v), w);
    JumpImmediate(rd, v, w);
    NotPseudo(w);
    WordListed(JAL, w);
  }

  /** The label a line goes to, if it goes anywhere. */
  function TargetOf(ops: seq<Operand>): string
  {
    if ops != [] && ops[|ops| - 1].Sym? then ops[|ops| - 1].name else ""
  }

  /** The word of the line, with its target at distance `v` if it has one, is listed as that line. */
  ghost predicate ListsBack(m: Mnemonic, ops: seq<Operand>, v: int)
    requires ParseLine(m, ops).Some? && m != INSN_D
  {
    var d := DecodeWord(WordOfLine(WithImmediate(ParseLine(m, ops).value, v)));
    && d.Some? && (IsControlFlow(d.value) ==> d.value.immediate == v)
    && PrintMnemonic(d.value) == CanonicalMnemonic(m, ops)
    && PrintOperands(Labelled(d.value, TargetOf(ops))) == CanonicalOperands(m, ops)
  }

  lemma RLine(r: ROp, ops: seq<Operand>, v: int)
    requires ParseLine(RM(r), ops).Some?
    ensures ListsBack(RM(r), ops, v)
  {
    hide EncodeI, EncodeR, EncodeS, EncodeU, EncodeB, EncodeJ, WordOf, Signed, DecodeWord, IsValidSymbol, RSpec, ISpec,
         ShiftSpec, LoadSpec, StoreSpec, USpec, BranchSpec, EncodeLine;
    RListed(r, ops[0].reg, ops[1].reg, ops[2].reg);
  }

  lemma ILineListed(i: IOp, ops: seq<Operand>, v: int)
    requires ParseLine(IM(i), ops).Some?
    ensures ListsBack(IM(i), ops, v)
  {
    hide EncodeI, EncodeR, EncodeS, EncodeU, EncodeB, EncodeJ, WordOf, Signed, DecodeWord, IsValidSymbol, RSpec, ISpec,
         ShiftSpec, LoadSpec, StoreSpec, USpec, BranchSpec, EncodeLine;
    IListed(i, ops[0].reg, ops[1].reg, ops[2].value);
  }

  lemma ParsedShift(shift: ShiftOp, ops: seq<Operand>)
    requires ParseLine(ShiftM(shift), ops).Some?
    ensures |ops| == 3 && IsGpr(ops[0]) && IsGpr(ops[1]) && ops[2].Imm?
    ensures 0 <= ops[2].value <= ShiftSpec(shift).maxShamt
    ensures var e := ShiftSpec(shift);
            ParseLine(ShiftM(shift), ops).value ==
            ILine(LineI, e.op, e.f3, e.f7, ops[0].reg, ops[1].reg, 0, Signed(Joined(e.f7, WordOf(ops[2].value))))
  {
    hide WordOf, Signed, ShiftSpec;
  }

  lemma ShiftLine(shift: ShiftOp, ops: seq<Operand>, v: int)
    requires ParseLine(ShiftM(shift), ops).Some?
    ensures ListsBack(ShiftM(shift), ops, v)
  {
    hide EncodeI, WordOf, Signed, DecodeWord, ShiftSpec, Joined, ParseLine;
    ParsedShift(shift, ops);
    var imm := Joined(ShiftSpec(shift).f7, WordOf(ops[2].value));
    WordOfSigned(imm);
    ShiftListed(shift, ops[0].reg, ops[1].reg, ops[2].value, imm);
  }

  lemma LoadLine(load: LoadOp, ops: seq<Operand>, v: int)
    requires ParseLine(LoadM(load), ops).Some?
    ensures ListsBack(LoadM(load), ops, v)
  {
    hide EncodeI, EncodeR, EncodeS, EncodeU, EncodeB, EncodeJ, WordOf, Signed, DecodeWord, IsValidSymbol, RSpec, ISpec,
         ShiftSpec, LoadSpec, StoreSpec, USpec, BranchSpec, EncodeLine;
    LoadListed(load, ops[0].reg, ops[1].base, ops[1].offset);
  }

  lemma StoreLine(store: StoreOp, ops: seq<Operand>, v: int)
    requires ParseLine(StoreM(store), ops).Some?
    ensures ListsBack(StoreM(store), ops, v)
  {
    hide EncodeI, EncodeR, EncodeS, EncodeU, EncodeB, EncodeJ, WordOf, Signed, DecodeWord, IsValidSymbol, RSpec, ISpec,
         ShiftSpec, LoadSpec, StoreSpec, USpec, BranchSpec, EncodeLine;
    StoreListed(store, ops[1].base, ops[0].reg, ops[1].offset);
  }

  lemma JalrLine(ops: seq<Operand>, v: int)
    requires ParseLine(JALR, ops).Some?
    ensures ListsBack(JALR, ops, v)
  {
    hide EncodeI, EncodeR, EncodeS, EncodeU, EncodeB, EncodeJ, WordOf, Signed, DecodeWord, IsValidSymbol, RSpec, ISpec,
         ShiftSpec, LoadSpec, StoreSpec, USpec, BranchSpec, EncodeLine;
    JalrListed(ops[0].reg, ops[1].base, ops[1].offset);
  }

  lemma BranchLineListed(branch: BranchOp, ops: seq<Operand>, v: int)
    requires ParseLine(BranchM(branch), ops).Some? && FitsBranch(v)
    ensures ListsBack(BranchM(branch), ops, v)
  {
    hide EncodeI, EncodeR, EncodeS, EncodeU, EncodeB, EncodeJ, WordOf, Signed, DecodeWord, IsValidSymbol, RSpec, ISpec,
         ShiftSpec, LoadSpec, StoreSpec, USpec, BranchSpec, EncodeLine;
    BranchListed(branch, ops[0].reg, ops[1].reg, v);
  }

  lemma JumpLineListed(ops: seq<Operand>, v: int)
    requires ParseLine(JAL, ops).Some? && FitsJump(v)
    ensures ListsBack(JAL, ops, v)
  {
    hide EncodeI, EncodeR, EncodeS, EncodeU, EncodeB, EncodeJ, WordOf, Signed, DecodeWord, IsValidSymbol, RSpec, ISpec,
         ShiftSpec, LoadSpec, StoreSpec, USpec, BranchSpec, EncodeLine;
    JumpListed(ops[0].reg, v);
  }

  lemma ULine(u: UOp, ops: seq<Operand>, v: int)
    requires ParseLine(UM(u), ops).Some?
    ensures ListsBack(UM(u), ops, v)
  {
    hide EncodeI, EncodeR, EncodeS, EncodeU, EncodeB, EncodeJ, WordOf, Signed, DecodeWord, IsValidSymbol, RSpec, ISpec,
         ShiftSpec, LoadSpec, StoreSpec, USpec, BranchSpec, EncodeLine;
    UListed(u, ops[0].reg, ops[1].value);
  }

  lemma LiLineBack(ops: seq<Operand>, v: int)
    requires ParseLine(LI, ops).Some?
    ensures ListsBack(LI, ops, v)
  {
    hide EncodeI, EncodeR, EncodeS, EncodeU, EncodeB, EncodeJ, WordOf, Signed, DecodeWord, IsValidSymbol, RSpec, ISpec,
         ShiftSpec, LoadSpec, StoreSpec, USpec, BranchSpec, EncodeLine;
    LiLineListed(ops[0].reg, ops[1].value);
  }

  lemma RetLineBack(ops: seq<Operand>, v: int)
    requires ParseLine(RET, ops).Some?
    ensures ListsBack(RET, ops, v)
  {
    hide EncodeI, EncodeR, EncodeS, EncodeU, EncodeB, EncodeJ, WordOf, Signed, DecodeWord, IsValidSymbol, RSpec, ISpec,
         ShiftSpec, LoadSpec, StoreSpec, USpec, BranchSpec, EncodeLine;
    RetLineListed();
  }

  /**
   Listing what the assembler emitted gives the line back: every accepted 4-byte line is encoded as a
   word that is listed with the same mnemonic and operands, `li` and `ret` apart.
   */
  lemma AssembledListed(m: Mnemonic, ops: seq<Operand>, v: int)
    requires ParseLine(m, ops).Some? && m != INSN_D
    requires EncodeLine(WithImmediate(ParseLine(m, ops).value, v)).Some?
    ensures var line := WithImmediate(ParseLine(m, ops).value, v);
            !line.InsnDLine? && EncodeLine(line) == Some(Le32(WordOfLine(line))) && ListsBack(m, ops, v)
  {
    hide Le32, ListsBack, WordOfLine, ParseLine, EncodeLine;
    FourByteLine(m, ops, v);
    EncodedWord(WithImmediate(ParseLine(m, ops).value, v));
    match m {
      case RM(r) => RLine(r, ops, v);
      case IM(i) => ILineListed(i, ops, v);
      case ShiftM(shift) => ShiftLine(shift, ops, v);
      case LoadM(load) => LoadLine(load, ops, v);
      case StoreM(store) => StoreLine(store, ops, v);
      case UM(u) => ULine(u, ops, v);
      case BranchM(branch) =>
        DistanceFits(m, ops, v);
        BranchLineListed(branch, ops, v);
      case JAL =>
        DistanceFits(m, ops, v);
        JumpLineListed(ops, v);
      case JALR => JalrLine(ops, v);
      case LI => LiLineBack(ops, v);
      case RET => RetLineBack(ops, v);
    }
  }

  lemma DistanceFits(m: Mnemonic, ops: seq<Operand>, v: int)
    requires ParseLine(m, ops).Some? && EncodeLine(WithImmediate(ParseLine(m, ops).value, v)).Some?
    ensures m.BranchM? ==> FitsBranch(v)
    ensures m.JAL? ==> FitsJump(v)
  {
    hide EncodeI, EncodeR, EncodeS, EncodeU, EncodeB, EncodeJ, WordOf, Le32, Le64, IsValidSymbol;
  }

  lemma FourByteLine(m: Mnemonic, ops: seq<Operand>, v: int)
    requires ParseLine(m, ops).Some? && m != INSN_D
    ensures !WithImmediate(ParseLine(m, ops).value, v).InsnDLine?
  {
  }

  lemma LiLineListed(rd: bv32, v: int)
    requires rd <= 31 && FitsSigned12(v)
    ensures var d := DecodeWord(EncodeI(0x13, rd, 0, 0, WordOf(v)));
            if rd == 10 && v == 0 then d == Some(DecodedLi(10, 0))
            else d == Some(DecodedRv64I(IType, IM(ADDI), rd, 0, 0, v, ""))
  {
    hide EncodeI, WordOf, DecodeWord;
    IListed(ADDI, rd, 0, v);
  }

  lemma RetLineListed()
    ensures DecodeWord(EncodeI(0x67, 0, 0, 1, 0)) == Some(DecodedRet)
  {
    hide EncodeI, WordOf, DecodeWord;
    WordOfZero();
    JalrListed(0, 1, 0);
  }
}
