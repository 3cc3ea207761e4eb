/**
 The parts of src/backend/bir/bir.hpp that the block analyses read, and what executing a block
 does: an environment of words by value name, and the bytes of each local slot.
 */
module Bir {
  import opened Machine

  datatype TypeKind =
    | Void | Int1 | Int8 | Int16 | Int32 | Int64 | Int128 | Pointer | Float32 | Float64 | Float128
    | Vrm1 | Vrm2 | Vrm4 | Vrm8

  datatype Value = Immediate(ty: TypeKind, immediate: I64) | Named(ty: TypeKind, name: string)

  predicate IsNamed(v: Value)
  {
    v.Named? && v.name != ""
  }

  /** The same name at the same type. */
  predicate SameValue(produced: Value, wanted: Value)
  {
    produced.Named? && wanted.Named? && produced.name == wanted.name && produced.ty == wanted.ty
  }

  datatype Opcode =
    | Add | Sub | Mul | And | Or | Xor | Shl | LShr | AShr | SDiv | UDiv | SRem | URem
    | Eq | Ne | Slt | Sle | Sgt | Sge | Ult | Ule | Ugt | Uge

  datatype BaseKind = NoBase | LocalSlot | GlobalSymbol | PointerValue | LabelBase | StringConstant

  datatype Address =
    Address(base: BaseKind, baseName: string, slotId: Option<nat>, byteOffset: I64, sizeBytes: U64)

  /** Casts, phis and calls matter here only through the value they define. */
  datatype Inst =
    | Binary(op: Opcode, result: Value, lhs: Value, rhs: Value)
    | Select(comparison: Opcode, result: Value, lhs: Value, rhs: Value, trueValue: Value, falseValue: Value)
    | Cast(result: Value, operand: Value)
    | Phi(result: Value)
    | Call(callResult: Option<Value>)
    | LoadLocal(result: Value, address: Option<Address>)
    | LoadGlobal(result: Value, globalName: string, address: Option<Address>)
    | StoreGlobal(globalName: string, value: Value, address: Option<Address>)
    | StoreLocal(value: Value, address: Option<Address>)

  datatype Terminator = Return(returned: Option<Value>) | OtherTerminator

  datatype Block = Block(labelText: string, labelId: Option<nat>, insts: seq<Inst>, terminator: Terminator)

  /** The value an instruction defines, if any. */
  function DefinedValue(inst: Inst): Option<Value>
  {
    match inst
    case Call(r) => r
    case StoreGlobal(_, _, _) => None
    case StoreLocal(_, _) => None
    case _ => Some(inst.result)
  }

  predicate Defines(inst: Inst, name: string)
  {
    DefinedValue(inst).Some? && DefinedValue(inst).value.Named? && DefinedValue(inst).value.name == name
  }

  ghost predicate DefinedOnce(b: Block)
  {
    forall i, j, name :: 0 <= i < j < |b.insts| && Defines(b.insts[i], name) ==> !Defines(b.insts[j], name)
  }

  // ------------------------------------------------------ word arithmetic

  const TWO64: int := 0x1_0000_0000_0000_0000

  function BitOp(op: Opcode, x: int, y: int): (b: nat)
    ensures b == 0 || b == 1
  {
    match op
    case And => if x == 1 && y == 1 then 1 else 0
    case Or => if x == 1 || y == 1 then 1 else 0
    case _ => if x != y then 1 else 0
  }

  /** A bitwise operation on the low `n` bits of two numbers. */
  function Bitwise(op: Opcode, x: nat, y: nat, n: nat): nat
  {
    if n == 0 then 0 else BitOp(op, x % 2, y % 2) + 2 * Bitwise(op, x / 2, y / 2, n - 1)
  }

  /** `q` is `a / b` rounded toward zero, and `r` the remainder, which takes the sign of `a`. */
  predicate TruncatedDivision(a: int, b: int, q: int, r: int)
  {
    a == q * b + r && Abs(r) < Abs(b) && (r == 0 || (r < 0 <==> a < 0))
  }

  function Abs(x: int): nat
  {
    if x < 0 then -x else x
  }

  /** How many bits an operand of the type has; types without an integer width count as full words. */
  function Bits(ty: TypeKind): nat
  {
    match ty
    case Int8 => 8
    case Int16 => 16
    case Int32 => 32
    case _ => 64
  }

  /** How many words have that many bits. */
  function Span(ty: TypeKind): (m: nat)
    ensures 0x100 <= m <= TWO64
  {
    match ty
    case Int8 => 0x100
    case Int16 => 0x1_0000
    case Int32 => 0x1_0000_0000
    case _ => TWO64
  }

  /** The word of a number: its low bits. */
  function WordAt(c: int, ty: TypeKind): (w: U64)
    ensures w < Span(ty)
  {
    c % Span(ty)
  }

  /** The number a word stands for when it is read as signed. */
  function AsSigned(x: int, ty: TypeKind): int
  {
    if 2 * x < Span(ty) then x else x - Span(ty)
  }

  /** Operands for which the operation has a result. */
  predicate HasResult(op: Opcode, ty: TypeKind, x: U64, y: U64)
  {
    && x < Span(ty) && y < Span(ty)
    && match op
       case Shl => y < Bits(ty)
       case LShr => y < Bits(ty)
       case AShr => y < Bits(ty)
       case SDiv => y != 0 && !(2 * x == Span(ty) && y == Span(ty) - 1)
       case SRem => y != 0 && !(2 * x == Span(ty) && y == Span(ty) - 1)
       case UDiv => y != 0
       case URem => y != 0
       case _ => true
  }

  function Truth(b: bool): U64
  {
    if b then 1 else 0
  }

  /** `z` is what the operation on operands of the type leaves when they hold `x` and `y`. */
  ghost predicate Computes(op: Opcode, ty: TypeKind, x: U64, y: U64, z: U64)
    requires HasResult(op, ty, x, y)
  {
    && z < Span(ty)
    && match op
       case Add => z == (x + y) % Span(ty)
       case Sub => z == (x - y) % Span(ty)
       case Mul => z == (x * y) % Span(ty)
       case And => z == Bitwise(And, x, y, Bits(ty))
       case Or => z == Bitwise(Or, x, y, Bits(ty))
       case Xor => z == Bitwise(Xor, x, y, Bits(ty))
       case Shl => z == (x * Pow2(y)) % Span(ty)
       case LShr => z == x / Pow2(y)
       case AShr => z == x / Pow2(y) + (if AsSigned(x, ty) >= 0 then 0 else Span(ty) - Pow2(Bits(ty) - y))
       case SDiv => exists r :: TruncatedDivision(AsSigned(x, ty), AsSigned(y, ty), AsSigned(z, ty), r)
       case SRem => exists q :: TruncatedDivision(AsSigned(x, ty), AsSigned(y, ty), q, AsSigned(z, ty))
       case UDiv => z == x / y
       case URem => z == x % y
       case Eq => z == Truth(x == y)
       case Ne => z == Truth(x != y)
       case Slt => z == Truth(AsSigned(x, ty) < AsSigned(y, ty))
       case Sle => z == Truth(AsSigned(x, ty) <= AsSigned(y, ty))
       case Sgt => z == Truth(AsSigned(x, ty) > AsSigned(y, ty))
       case Sge => z == Truth(AsSigned(x, ty) >= AsSigned(y, ty))
       case Ult => z == Truth(x < y)
       case Ule => z == Truth(x <= y)
       case Ugt => z == Truth(x > y)
       case Uge => z == Truth(x >= y)
  }

  // -------------------------------------------------------------- execution

  /** `mem(s, k)` is the byte at offset `k` of slot `s`. */
  datatype State = State(env: map<string, U64>, mem: (nat, int) -> U8)

  ghost predicate Holds(s: State, v: Value, w: U64)
  {
    match v
    case Immediate(ty, c) => w == WordAt(c, ty)
    case Named(_, name) => name in s.env && s.env[name] == w
  }

  /** Names keep their word unless the instruction defines them. */
  ghost predicate EnvFrame(inst: Inst, s: State, t: State)
  {
    forall name :: name in s.env && !Defines(inst, name) ==> name in t.env && t.env[name] == s.env[name]
  }

  predicate IsComparison(op: Opcode)
  {
    op.Eq? || op.Ne? || op.Slt? || op.Sle? || op.Sgt? || op.Sge? || op.Ult? || op.Ule? || op.Ugt? || op.Uge?
  }

  /** A well-typed binary instruction on 8-, 16-, 32- or 64-bit operands. */
  predicate IsSizedBinary(inst: Inst)
  {
    && inst.Binary? && inst.lhs.ty == inst.rhs.ty
    && (inst.lhs.ty.Int8? || inst.lhs.ty.Int16? || inst.lhs.ty.Int32? || inst.lhs.ty.Int64?)
    && (IsComparison(inst.op) || Span(inst.result.ty) == Span(inst.lhs.ty))
  }

  /** Such an instruction leaves the result of its operation. */
  ghost predicate BinaryStep(inst: Inst, s: State, t: State)
  {
    IsSizedBinary(inst) && inst.result.Named? ==>
      forall x: U64, y: U64 ::
        Holds(s, inst.lhs, x) && Holds(s, inst.rhs, y) && HasResult(inst.op, inst.lhs.ty, x, y) ==>
          inst.result.name in t.env && Computes(inst.op, inst.lhs.ty, x, y, t.env[inst.result.name])
  }

  // The bytes of a word, lowest first.

  function ByteOf(w: nat, k: nat): U8
  {
    if k == 0 then w % 256 else ByteOf(w / 256, k - 1)
  }

  function Pow256(n: nat): (p: nat)
    ensures p >= 1
  {
    if n == 0 then 1 else 256 * Pow256(n - 1)
  }

  lemma RemainderAtMost(w: nat, p: nat)
    requires p >= 1
    ensures w % p <= w
  {
    assert w == w / p * p + w % p;
    assert w / p >= 0;
    assert w / p * p >= 0;
  }

  /** The number the low `n` bytes of a word spell. */
  function LowBytes(w: U64, n: nat): U64
  {
    RemainderAtMost(w, Pow256(n));
    w % Pow256(n)
  }

  /** The number whose bytes stand at `from` and the `n - 1` offsets after it. */
  ghost function ReadWord(mem: (nat, int) -> U8, slot: nat, from: int, n: nat): nat
    decreases n
  {
    if n == 0 then 0 else mem(slot, from) + 256 * ReadWord(mem, slot, from + 1, n - 1)
  }

  /** Which slot of the frame a local address names. */
  type Frame = (string, Option<nat>) -> nat

  ghost function SlotOf(frame: Frame, a: Address): nat
  {
    frame(a.baseName, a.slotId)
  }

  predicate IsLocalAddress(a: Option<Address>)
  {
    a.Some? && a.value.base.LocalSlot?
  }

  /** Instructions that leave every local slot alone. */
  predicate KeepsMemory(inst: Inst)
  {
    inst.Binary? || inst.Select? || inst.Cast? || inst.Phi? || inst.LoadLocal? || inst.LoadGlobal?
  }

  predicate IsLocalStore(inst: Inst)
  {
    inst.StoreLocal? && IsLocalAddress(inst.address)
  }

  predicate InRange(a: Address, k: int)
  {
    a.byteOffset <= k < a.byteOffset + a.sizeBytes
  }

  /** A store to a slot writes the bytes of its value; of unknown size, it may write anywhere in the slot. */
  ghost predicate StoreStep(frame: Frame, inst: Inst, s: State, t: State)
    requires IsLocalStore(inst)
  {
    var a := inst.address.value;
    && (forall slot, k :: slot != SlotOf(frame, a) ==> t.mem(slot, k) == s.mem(slot, k))
    && (a.sizeBytes > 0 ==>
          && (forall k :: !InRange(a, k) ==> t.mem(SlotOf(frame, a), k) == s.mem(SlotOf(frame, a), k))
          && (forall w: U64, k :: Holds(s, inst.value, w) && InRange(a, k) ==>
                t.mem(SlotOf(frame, a), k) == ByteOf(w, k - a.byteOffset)))
  }

  /** A load of at most eight bytes from a slot leaves the number they spell. */
  ghost predicate LoadStep(frame: Frame, inst: Inst, s: State, t: State)
  {
    inst.LoadLocal? && IsLocalAddress(inst.address) && inst.result.Named? && 0 < inst.address.value.sizeBytes <= 8 ==>
      var a := inst.address.value;
      inst.result.name in t.env &&
        t.env[inst.result.name] == ReadWord(s.mem, SlotOf(frame, a), a.byteOffset, a.sizeBytes)
  }

  /** Calls and stores through pointers are unconstrained: what they may touch is a hypothesis of each result. */
  ghost predicate Step(frame: Frame, inst: Inst, s: State, t: State)
  {
    && EnvFrame(inst, s, t) && BinaryStep(inst, s, t) && LoadStep(frame, inst, s, t)
    && (KeepsMemory(inst) ==> forall slot, k :: t.mem(slot, k) == s.mem(slot, k))
    && (IsLocalStore(inst) ==> StoreStep(frame, inst, s, t))
  }

  /** States before each instruction and after the last. */
  ghost predicate Run(frame: Frame, b: Block, states: seq<State>)
  {
    |states| == |b.insts| + 1 && forall i :: 0 <= i < |b.insts| ==> StepAt(frame, b, states, i)
  }

  ghost predicate StepAt(frame: Frame, b: Block, states: seq<State>, i: nat)
    requires |states| == |b.insts| + 1 && i < |b.insts|
  {
    Step(frame, b.insts[i], states[i], states[i + 1])
  }

  /** A name keeps its word over instructions that do not define it. */
  lemma {:induction false} EnvPersists(frame: Frame, b: Block, states: seq<State>, name: string, from: nat, upTo: nat)
    requires Run(frame, b, states) && from <= upTo <= |b.insts|
    requires name in states[from].env
    requires forall i :: from <= i < upTo ==> !Defines(b.insts[i], name)
    ensures name in states[upTo].env && states[upTo].env[name] == states[from].env[name]
    decreases upTo
  {
    if from < upTo {
      EnvPersists(frame, b, states, name, from, upTo - 1);
      assert StepAt(frame, b, states, upTo - 1);
    }
  }
}
