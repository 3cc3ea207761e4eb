/**
 Same-block producers and the constant evaluators of src/backend/bir/bir_route1.cpp and
 src/backend/bir/bir.cpp. A pointer to an instruction is its index in the block.
 */
module Route1 {
  import opened Machine
  import opened Bir
  import opened Folds

  // ------------------------------------------------------ producer records

  datatype ProducerKind = LoadLocalKind | LoadGlobalKind | CastKind | BinaryKind | SelectKind

  datatype ProducerRecord = ProducerRecord(kind: ProducerKind, value: Value, index: nat)

  /** Every instruction that defines a value is a producer, except phis and calls. */
  function KindOf(inst: Inst): (k: Option<ProducerKind>)
    ensures k.Some? <==> DefinedValue(inst).Some? && !inst.Phi? && !inst.Call?
  {
    match inst
    case LoadLocal(_, _) => Some(LoadLocalKind)
    case LoadGlobal(_, _, _) => Some(LoadGlobalKind)
    case Cast(_, _) => Some(CastKind)
    case Binary(_, _, _, _) => Some(BinaryKind)
    case Select(_, _, _, _, _, _) => Some(SelectKind)
    case _ => None
  }

  function ProducedValue(inst: Inst): (v: Option<Value>)
    ensures v.Some? <==> KindOf(inst).Some?
    ensures v.Some? ==> DefinedValue(inst) == v
  {
    if KindOf(inst).Some? then Some(inst.result) else None
  }

  function RecordAt(b: Block, i: nat): Option<ProducerRecord>
  {
    if i >= |b.insts| || KindOf(b.insts[i]).None? then None
    else Some(ProducerRecord(KindOf(b.insts[i]).value, ProducedValue(b.insts[i]).value, i))
  }

  /** Exactly the records of the block's producers, in instruction order. */
  ghost predicate IsIndex(b: Block, records: seq<ProducerRecord>)
  {
    IsIndexUpTo(b, records, |b.insts|)
  }

  ghost predicate IsIndexUpTo(b: Block, records: seq<ProducerRecord>, n: nat)
  {
    && (forall r :: r in records ==> r.index < n && RecordAt(b, r.index) == Some(r))
    && (forall i :: 0 <= i < n && RecordAt(b, i).Some? ==> RecordAt(b, i).value in records)
    && (forall k, l :: 0 <= k < l < |records| ==> records[k].index < records[l].index)
  }

  /** `route1_build_producer_index`. */
  method BuildProducerIndex(b: Block) returns (records: seq<ProducerRecord>)
    ensures IsIndex(b, records)
  {
    records := [];
    for i := 0 to |b.insts|
      invariant IsIndexUpTo(b, records, i)
    {
      var r := RecordAt(b, i);
      if r.Some? {
        records := records + [r.value];
      }
    }
  }

  /** Between consecutive records of a producer index there is no producer. */
  lemma GapHasNoProducer(b: Block, records: seq<ProducerRecord>, k: nat, m: nat)
    requires IsIndex(b, records) && k <= |records| && m < |b.insts|
    requires k > 0 ==> records[k - 1].index < m
    requires k < |records| ==> m < records[k].index
    ensures KindOf(b.insts[m]).None?
  {
    forall l | 0 <= l < |records|
      ensures records[l].index != m
    {
      if l < k {
        assert l == k - 1 || records[l].index < records[k - 1].index;
      } else {
        assert l == k || records[k].index < records[l].index;
      }
    }
    assert RecordAt(b, m).Some? ==> RecordAt(b, m).value in records;
  }

  // ------------------------------------------------------ the last producer

  predicate Produces(b: Block, i: nat, v: Value)
    requires i < |b.insts|
  {
    ProducedValue(b.insts[i]).Some? && SameValue(ProducedValue(b.insts[i]).value, v)
  }

  function Limit(b: Block, before: nat): nat
  {
    if before < |b.insts| then before else |b.insts|
  }

  /** The last producer of a named value before an instruction index. */
  function LastProducer(b: Block, v: Value, before: nat): (r: Option<nat>)
    ensures r.Some? ==> IsNamed(v) && r.value < Limit(b, before) && Produces(b, r.value, v)
    ensures r.Some? ==> forall i :: r.value < i < Limit(b, before) ==> !Produces(b, i, v)
    ensures r.None? && IsNamed(v) ==> forall i :: 0 <= i < Limit(b, before) ==> !Produces(b, i, v)
    decreases before
  {
    if !IsNamed(v) || before == 0 then None
    else if before <= |b.insts| && Produces(b, before - 1, v) then Some(before - 1)
    else LastProducer(b, v, before - 1)
  }

  predicate Matches(r: ProducerRecord, v: Value, before: nat)
  {
    r.index < before && SameValue(r.value, v)
  }

  /** `route1_find_same_block_scalar_producer`: the reverse scan of an index finds the last producer. */
  method FindScalarProducer(records: seq<ProducerRecord>, v: Value, before: nat, ghost b: Block)
    returns (r: Option<ProducerRecord>)
    requires IsIndex(b, records)
    ensures r == (if LastProducer(b, v, before).Some? then RecordAt(b, LastProducer(b, v, before).value) else None)
  {
    if !IsNamed(v) {
      return None;
    }
    var k := |records|;
    while k > 0
      invariant 0 <= k <= |records|
      invariant forall l :: k <= l < |records| ==> !Matches(records[l], v, before)
    {
      k := k - 1;
      if Matches(records[k], v, before) {
        LastRecord(b, records, v, before, k);
        return Some(records[k]);
      }
    }
    NoRecord(b, records, v, before);
    return None;
  }

  lemma LastRecord(b: Block, records: seq<ProducerRecord>, v: Value, before: nat, k: nat)
    requires IsIndex(b, records) && IsNamed(v) && k < |records| && Matches(records[k], v, before)
    requires forall l :: k < l < |records| ==> !Matches(records[l], v, before)
    ensures LastProducer(b, v, before) == Some(records[k].index)
  {
    var i := records[k].index;
    assert forall j :: 0 <= j < Limit(b, before) && Produces(b, j, v) ==> RecordAt(b, j).value in records;
    assert records[k] in records && Produces(b, i, v);
    assert forall l :: 0 <= l < |records| && Matches(records[l], v, before) ==> records[l].index <= i;
  }

  lemma NoRecord(b: Block, records: seq<ProducerRecord>, v: Value, before: nat)
    requires IsIndex(b, records) && forall l :: 0 <= l < |records| ==> !Matches(records[l], v, before)
    ensures LastProducer(b, v, before).None?
  {
    assert forall j :: 0 <= j < Limit(b, before) && Produces(b, j, v) ==>
        RecordAt(b, j).value in records && Matches(RecordAt(b, j).value, v, before);
  }

  // ------------------------------------------------------ the evaluator

  datatype Outcome = NoConstant | Constant(value: I64, ty: TypeKind, depth: nat) | Undefined

  /** Both operands folded, then the opcode applied. */
  function Combine(op: Opcode, lhs: Outcome, rhs: Outcome, ty: TypeKind, depth: nat): Outcome
  {
    if lhs.Undefined? || rhs.Undefined? then Undefined
    else if lhs.NoConstant? || rhs.NoConstant? then NoConstant
    else
      match Apply(op, lhs.value, rhs.value)
      case NoFold => NoConstant
      case FoldUndefined => Undefined
      case Fold(c) => Constant(c, ty, depth)
  }

  const MAX_DEPTH: nat := 4

  /** `route1_evaluate_same_block_integer_constant_impl`; each recursive call looks strictly earlier. */
  function Evaluate(b: Block, v: Value, before: nat, depth: nat): Outcome
    decreases before
  {
    if v.Immediate? then Constant(v.immediate, v.ty, depth)
    else if depth > MAX_DEPTH then NoConstant
    else
      match LastProducer(b, v, before)
      case None => NoConstant
      case Some(i) =>
        var inst := b.insts[i];
        if !inst.Binary? then NoConstant
        else
          Combine(inst.op, Evaluate(b, inst.lhs, i, depth + 1), Evaluate(b, inst.rhs, i, depth + 1),
                  inst.result.ty, depth)
  }

  // ------------------------------------------------------ soundness

  /**
   Every producer the evaluator visits for `v` folds as its operands would if they were truncated to
   their type first, and nothing defines its name again before the place where the evaluator uses it.
   */
  ghost predicate Undisturbed(b: Block, v: Value, before: nat, depth: nat)
    decreases before
  {
    v.Named? && depth <= MAX_DEPTH && LastProducer(b, v, before).Some? ==>
      var i := LastProducer(b, v, before).value;
      var inst := b.insts[i];
      inst.Binary? ==>
        && IsSizedBinary(inst)
        && TruncatesAlike(inst.op, Evaluate(b, inst.lhs, i, depth + 1), Evaluate(b, inst.rhs, i, depth + 1),
                          inst.lhs.ty)
        && (forall j :: i < j < Limit(b, before) ==> !Defines(b.insts[j], v.name))
        && Undisturbed(b, inst.lhs, i, depth + 1) && Undisturbed(b, inst.rhs, i, depth + 1)
  }

  predicate TruncatesAlike(op: Opcode, lhs: Outcome, rhs: Outcome, ty: TypeKind)
  {
    lhs.Constant? && rhs.Constant? && Apply(op, lhs.value, rhs.value).Fold? ==> Harmless(op, ty, lhs.value, rhs.value)
  }

  /** A returned constant is the word execution leaves in that value before the query index, in every run. */
  lemma {:induction false} EvaluateSound(frame: Frame, b: Block, states: seq<State>,
                                         v: Value, before: nat, depth: nat)
    requires Run(frame, b, states) && Undisturbed(b, v, before, depth)
    requires Evaluate(b, v, before, depth).Constant?
    ensures Holds(states[Limit(b, before)], v, WordAt(Evaluate(b, v, before, depth).value, v.ty))
    decreases before
  {
    hide WordAt, Apply, Harmless, HasResult, Computes, LoadStep, StoreStep, Span;
    if v.Named? {
      var i := LastProducer(b, v, before).value;
      var inst := b.insts[i];
      var l, r := Evaluate(b, inst.lhs, i, depth + 1).value, Evaluate(b, inst.rhs, i, depth + 1).value;
      EvaluateSound(frame, b, states, inst.lhs, i, depth + 1);
      EvaluateSound(frame, b, states, inst.rhs, i, depth + 1);
      FoldExact(inst.op, inst.lhs.ty, l, r);
      ResultWord(inst, l, r);
      assert StepAt(frame, b, states, i);
      EnvPersists(frame, b, states, v.name, i + 1, Limit(b, before));
    }
  }

  /** A constant has the same word at the type of the operands and at the type of the result. */
  lemma ResultWord(inst: Inst, a: I64, b: I64)
    requires IsSizedBinary(inst) && Apply(inst.op, a, b).Fold?
    ensures var c := Apply(inst.op, a, b).value;
            WordAt(c, inst.result.ty) == WordAt(c, inst.lhs.ty)
  {
    hide Apply, Span;
    if IsComparison(inst.op) {
      ComparisonApplied(inst.op, a, b);
      var c := Apply(inst.op, a, b).value;
      SmallAmount(inst.result.ty, c);
      SmallAmount(inst.lhs.ty, c);
    }
  }

  /** A block whose binaries have 64-bit operands, or are sized and modular, and whose names are defined once. */
  ghost predicate PlainBlock(b: Block)
  {
    && DefinedOnce(b)
    && forall i :: 0 <= i < |b.insts| && b.insts[i].Binary? ==>
         IsSizedBinary(b.insts[i]) && (b.insts[i].lhs.ty.Int64? || IsModular(b.insts[i].op))
  }

  /** Such a block disturbs no query. */
  lemma {:induction false} PlainBlockUndisturbed(b: Block, v: Value, before: nat, depth: nat)
    requires PlainBlock(b)
    ensures Undisturbed(b, v, before, depth)
    decreases before
  {
    hide Apply, Harmless, Span;
    if v.Named? && LastProducer(b, v, before).Some? {
      var i := LastProducer(b, v, before).value;
      var inst := b.insts[i];
      if inst.Binary? {
        assert Defines(inst, v.name);
        PlainBlockUndisturbed(b, inst.lhs, i, depth + 1);
        PlainBlockUndisturbed(b, inst.rhs, i, depth + 1);
        var l, r := Evaluate(b, inst.lhs, i, depth + 1), Evaluate(b, inst.rhs, i, depth + 1);
        if l.Constant? && r.Constant? && Apply(inst.op, l.value, r.value).Fold? {
          PlainFoldHarmless(inst.op, inst.lhs.ty, l.value, r.value);
        }
      }
    }
  }

  /** The evaluator runs into C++ undefined behaviour only through INT64_MIN / -1 or INT64_MIN % -1. */
  ghost predicate OverflowsAt(b: Block, i: nat, depth: nat)
    requires i < |b.insts|
  {
    && (b.insts[i].Binary? && (b.insts[i].op.SDiv? || b.insts[i].op.SRem?))
    && (var l, r := Evaluate(b, b.insts[i].lhs, i, depth), Evaluate(b, b.insts[i].rhs, i, depth);
        l.Constant? && r.Constant? && l.value == INT64_MIN && r.value == -1)
  }

  lemma {:induction false} UndefinedOnlyByOverflow(b: Block, v: Value, before: nat, depth: nat) returns (i: nat, d: nat)
    requires Evaluate(b, v, before, depth).Undefined?
    ensures i < Limit(b, before) && OverflowsAt(b, i, d)
    decreases before
  {
    i := LastProducer(b, v, before).value;
    d := depth + 1;
    var inst := b.insts[i];
    if Evaluate(b, inst.lhs, i, d).Undefined? {
      i, d := UndefinedOnlyByOverflow(b, inst.lhs, i, d);
    } else if Evaluate(b, inst.rhs, i, d).Undefined? {
      i, d := UndefinedOnlyByOverflow(b, inst.rhs, i, d);
    }
  }

  /** The condition is needed: a later definition the index does not list goes unseen. */
  lemma ShadowedName(frame: Frame) returns (b: Block, states: seq<State>)
    ensures Run(frame, b, states) && |states| == 3 && !Undisturbed(b, Named(Int64, "x"), 2, 0)
    ensures Evaluate(b, Named(Int64, "x"), 2, 0) == Constant(3, Int64, 0)
    ensures !Holds(states[2], Named(Int64, "x"), 3)
  {
    hide Step, Apply, BinaryStep;
    var x := Named(Int64, "x");
    b := Block("", None, [Binary(Add, x, Immediate(Int64, 1), Immediate(Int64, 2)), Call(Some(x))], OtherTerminator);
    var mem := (slot: nat, k: int) => 0 as U8;
    states := [State(map[], mem), State(map["x" := 3], mem), State(map["x" := 7], mem)];
    assert Defines(b.insts[1], "x");
    SampleSteps(frame, b, states);
    assert StepAt(frame, b, states, 0) && StepAt(frame, b, states, 1);
    assert Produces(b, 0, x);
    SampleFolds();
  }

  lemma SampleSteps(frame: Frame, b: Block, states: seq<State>)
    requires var x := Named(Int64, "x");
             b.insts == [Binary(Add, x, Immediate(Int64, 1), Immediate(Int64, 2)), Call(Some(x))]
    requires |states| == 3 && states[0].env == map[] && states[1].env == map["x" := 3] && states[2].env == map["x" := 7]
    requires states[0].mem == states[1].mem
    ensures Step(frame, b.insts[0], states[0], states[1]) && Step(frame, b.insts[1], states[1], states[2])
  {
    hide Bitwise, Pow2, TruncatedDivision, ReadWord;
  }

  /**
   So is the truncation: at 32 bits the largest number plus one is negative, and the evaluator, which
   keeps 2^31, finds it is not.
   */
  lemma NarrowOverflow(frame: Frame) returns (b: Block, states: seq<State>)
    ensures Run(frame, b, states) && |states| == 3 && DefinedOnce(b)
    ensures forall i :: 0 <= i < |b.insts| ==> IsSizedBinary(b.insts[i])
    ensures Evaluate(b, Named(Int1, "n"), 2, 0) == Constant(0, Int1, 0)
    ensures Holds(states[2], Named(Int1, "n"), 1)
  {
    hide Step, Apply, BinaryStep;
    var x, n := Named(Int32, "x"), Named(Int1, "n");
    var add, test := Binary(Add, x, Immediate(Int32, 0x7fff_ffff), Immediate(Int32, 1)),
                     Binary(Slt, n, x, Immediate(Int32, 0));
    b := Block("", None, [add, test], OtherTerminator);
    var mem := (slot: nat, k: int) => 0 as U8;
    states := [State(map[], mem), State(map["x" := 0x8000_0000], mem), State(map["x" := 0x8000_0000, "n" := 1], mem)];
    AddOverflows(frame, add, states[0], states[1]);
    SumIsNegative(frame, test, states[1], states[2]);
    assert StepAt(frame, b, states, 0) && StepAt(frame, b, states, 1);
    assert Produces(b, 1, n) && Produces(b, 0, x);
    SampleFolds();
    assert Evaluate(b, x, 1, 1) == Constant(0x8000_0000, Int32, 1);
  }

  lemma AddOverflows(frame: Frame, inst: Inst, s: State, t: State)
    requires inst == Binary(Add, Named(Int32, "x"), Immediate(Int32, 0x7fff_ffff), Immediate(Int32, 1))
    requires s.env == map[] && t.env == map["x" := 0x8000_0000] && s.mem == t.mem
    ensures Step(frame, inst, s, t)
  {
    hide Bitwise, Pow2, TruncatedDivision;
  }

  lemma SumIsNegative(frame: Frame, inst: Inst, s: State, t: State)
    requires inst == Binary(Slt, Named(Int1, "n"), Named(Int32, "x"), Immediate(Int32, 0))
    requires s.env == map["x" := 0x8000_0000] && t.env == s.env["n" := 1] && s.mem == t.mem
    ensures Step(frame, inst, s, t)
  {
    hide Bitwise, Pow2, TruncatedDivision;
  }

  lemma SampleFolds()
    ensures Apply(Add, 1, 2) == Fold(3) && Apply(Add, 0x7fff_ffff, 1) == Fold(0x8000_0000)
    ensures Apply(Slt, 0x8000_0000, 0) == Fold(0)
  {
    hide Bitwise, Pow2;
  }

  // ------------------------------------------------------ completeness

  /** The expression behind a value: binaries over immediates and over values nothing is folded of. */
  datatype Expr = Number(value: I64) | Unfolded | Operation(op: Opcode, left: Expr, right: Expr)

  /** Read off the last producers; if `unique`, a value with an earlier producer too is not followed. */
  function ExprOf(b: Block, v: Value, before: nat, unique: bool): Expr
    decreases before
  {
    if v.Immediate? then Number(v.immediate)
    else
      match LastProducer(b, v, before)
      case None => Unfolded
      case Some(i) =>
        if !b.insts[i].Binary? || (unique && LastProducer(b, v, i).Some?) then Unfolded
        else
          Operation(b.insts[i].op, ExprOf(b, b.insts[i].lhs, i, unique), ExprOf(b, b.insts[i].rhs, i, unique))
  }

  function Levels(e: Expr): nat
  {
    if !e.Operation? then 0
    else 1 + if Levels(e.left) < Levels(e.right) then Levels(e.right) else Levels(e.left)
  }

  /** The number an expression stands for, if each of its operations has one on its operands. */
  function Meaning(e: Expr): Option<I64>
  {
    match e
    case Number(c) => Some(c)
    case Unfolded => None
    case Operation(op, left, right) =>
      var l, r := Meaning(left), Meaning(right);
      if l.None? || r.None? || !CanFold(op, l.value, r.value) then None
      else
        FoldsIfItCan(op, l.value, r.value);
        Some(Apply(op, l.value, r.value).value)
  }

  lemma MeaningStep(op: Opcode, left: Expr, right: Expr)
    ensures var l, r, m := Meaning(left), Meaning(right), Meaning(Operation(op, left, right));
            && (m.Some? <==> l.Some? && r.Some? && Apply(op, l.value, r.value).Fold?)
            && (m.Some? ==> Apply(op, l.value, r.value) == Fold(m.value))
  {
    hide Apply, CanFold;
    var l, r := Meaning(left), Meaning(right);
    if l.Some? && r.Some? {
      FoldsIfItCan(op, l.value, r.value);
    }
  }

  /**
   The evaluator returns a constant exactly when the whole expression has a meaning and, counting from
   the depth of the query, at most five levels of operations; the constant is that meaning.
   */
  lemma {:induction false} EvaluateExact(b: Block, v: Value, before: nat, depth: nat)
    ensures var e, r := ExprOf(b, v, before, false), Evaluate(b, v, before, depth);
            && (r.Constant? <==> Meaning(e).Some? && (Levels(e) == 0 || depth + Levels(e) <= 5))
            && (r.Constant? ==> r == Constant(Meaning(e).value, v.ty, depth))
    decreases before
  {
    hide Apply, Meaning;
    NumberMeaning(ExprOf(b, v, before, false));
    if v.Named? && LastProducer(b, v, before).Some? {
      var i := LastProducer(b, v, before).value;
      var inst := b.insts[i];
      if inst.Binary? {
        EvaluateExact(b, inst.lhs, i, depth + 1);
        EvaluateExact(b, inst.rhs, i, depth + 1);
        MeaningStep(inst.op, ExprOf(b, inst.lhs, i, false), ExprOf(b, inst.rhs, i, false));
      }
    }
  }

  lemma NumberMeaning(e: Expr)
    ensures e.Number? ==> Meaning(e) == Some(e.value)
    ensures e.Unfolded? ==> Meaning(e).None?
  {
  }

  // ------------------------------------------------ the comparison evaluator

  datatype UniqueProducer = NoProducer | Producer(index: nat, ambiguous: bool)

  function UniqueOf(b: Block, v: Value, before: nat): UniqueProducer
  {
    match LastProducer(b, v, before)
    case None => NoProducer
    case Some(i) => Producer(i, LastProducer(b, v, i).Some?)
  }

  /** `find_unique_comparison_producer`: scans backward and stops at the second producer. */
  method FindUniqueComparisonProducer(b: Block, v: Value, before: nat) returns (r: UniqueProducer)
    ensures r == UniqueOf(b, v, before)
  {
    if !IsNamed(v) {
      return NoProducer;
    }
    r := NoProducer;
    var index := Limit(b, before);
    while index > 0
      invariant 0 <= index <= Limit(b, before)
      invariant r.NoProducer? ==> forall i :: index <= i < Limit(b, before) ==> !Produces(b, i, v)
      invariant r.Producer? ==> !r.ambiguous && LastProducer(b, v, before) == Some(r.index) && index <= r.index
      invariant r.Producer? ==> forall i :: index <= i < r.index ==> !Produces(b, i, v)
    {
      index := index - 1;
      if Produces(b, index, v) {
        if r.Producer? {
          return r.(ambiguous := true);
        }
        r := Producer(index, false);
      }
    }
  }

  /** A bitwise operator on signed numbers in two's complement of `n` bits. */
  function SignedBitwise(op: Opcode, a: int, b: int, n: nat): int
    decreases n
  {
    if n <= 1 then 0 - BitOp(op, -a, -b)
    else BitOp(op, a % 2, b % 2) + 2 * SignedBitwise(op, a / 2, b / 2, n - 1)
  }

  predicate FitsSigned(a: int, n: nat)
  {
    -Half(n) <= a < Half(n)
  }

  function Half(n: nat): int
  {
    if n == 0 then 0 else Pow2(n - 1)
  }

  /** The word of a signed number. */
  function Wrap(a: int, n: nat): int
  {
    if a < 0 then a + Pow2(n) else a
  }

  lemma WrapHalves(a: int, n: nat)
    requires n >= 2 && FitsSigned(a, n)
    ensures FitsSigned(a / 2, n - 1) && Wrap(a, n) >= 0
    ensures Wrap(a, n) % 2 == a % 2 && Wrap(a, n) / 2 == Wrap(a / 2, n - 1)
  {
    assert Pow2(n) == 2 * Pow2(n - 1);
  }

  lemma {:induction false} SignedBitwiseWraps(op: Opcode, a: int, b: int, n: nat)
    requires n >= 1 && FitsSigned(a, n) && FitsSigned(b, n)
    ensures FitsSigned(SignedBitwise(op, a, b, n), n)
    ensures Wrap(a, n) >= 0 && Wrap(b, n) >= 0
    ensures Bitwise(op, Wrap(a, n), Wrap(b, n), n) == Wrap(SignedBitwise(op, a, b, n), n)
    decreases n
  {
    if n == 1 {
      assert Pow2(1) == 2 * Pow2(0);
      assert Bitwise(op, Wrap(a, 1), Wrap(b, 1), 1) == BitOp(op, Wrap(a, 1), Wrap(b, 1));
    } else {
      WrapHalves(a, n);
      WrapHalves(b, n);
      SignedBitwiseWraps(op, a / 2, b / 2, n - 1);
      assert Pow2(n) == 2 * Pow2(n - 1);
    }
  }

  lemma WrapWord(a: int)
    ensures FitsSigned(a, 64) <==> INT64_MIN <= a <= INT64_MAX
    ensures FitsSigned(a, 64) ==> Wrap(a, 64) == ToU64(a) && ToI64(Wrap(a, 64)) == a
  {
    SpanIsPower(Int64);
    assert Pow2(64) == 2 * Pow2(63);
    hide Pow2;
  }

  lemma SignedBitsAgree(op: Opcode, a: I64, b: I64)
    ensures INT64_MIN <= SignedBitwise(op, a, b, 64) <= INT64_MAX
    ensures SignedBitwise(op, a, b, 64) == ToI64(Bitwise(op, ToU64(a), ToU64(b), 64))
  {
    hide SignedBitwise, Bitwise, FitsSigned, Wrap, ToU64, ToI64;
    WrapWord(a);
    WrapWord(b);
    SignedBitwiseWraps(op, a, b, 64);
    WrapWord(SignedBitwise(op, a, b, 64));
  }

  /** The signed operators of C++ on `int64_t`. */
  function SignedBits(op: Opcode, a: I64, b: I64): (r: I64)
    ensures r == ToI64(Bitwise(op, ToU64(a), ToU64(b), 64))
  {
    SignedBitsAgree(op, a, b);
    SignedBitwise(op, a, b, 64)
  }

  predicate IsCommonOpcode(op: Opcode)
  {
    op.Add? || op.Sub? || op.Mul? || op.And? || op.Or? || op.Xor? || op.UDiv?
  }

  function ApplyCommon(op: Opcode, a: I64, b: I64): Option<I64>
  {
    var x, y := ToU64(a), ToU64(b);
    match op
    case Add => Some(ToI64(x + y))
    case Sub => Some(ToI64(x - y))
    case Mul => Some(ToI64(x * y))
    case And => Some(SignedBits(And, a, b))
    case Or => Some(SignedBits(Or, a, b))
    case Xor => Some(SignedBits(Xor, a, b))
    case UDiv => if b != 0 then Some(ToI64(x / y)) else None
    case _ => None
  }

  /** `evaluate_comparison_integer_constant`. */
  function EvaluateComparison(b: Block, v: Value, before: nat, depth: nat): Option<I64>
    decreases before
  {
    if v.Immediate? then Some(v.immediate)
    else if depth > MAX_DEPTH || !IsNamed(v) then None
    else
      match UniqueOf(b, v, before)
      case NoProducer => None
      case Producer(i, ambiguous) =>
        var inst := b.insts[i];
        if ambiguous || !inst.Binary? then None
        else
          var lhs, rhs := EvaluateComparison(b, inst.lhs, i, depth + 1), EvaluateComparison(b, inst.rhs, i, depth + 1);
          if lhs.None? || rhs.None? then None else ApplyCommon(inst.op, lhs.value, rhs.value)
  }

  lemma CommonFold(op: Opcode, a: I64, b: I64)
    ensures ApplyCommon(op, a, b).Some? ==> Apply(op, a, b) == Fold(ApplyCommon(op, a, b).value)
    ensures IsCommonOpcode(op) ==>
            (Apply(op, a, b).Fold? <==> ApplyCommon(op, a, b).Some?) && !Apply(op, a, b).FoldUndefined?
  {
    hide Bitwise, ToI64, ToU64, Pow2;
  }

  /** Whatever the comparison evaluator returns, the route 1 evaluator returns too. */
  lemma {:induction false} ComparisonRefinesRoute1(b: Block, v: Value, before: nat, depth: nat)
    requires EvaluateComparison(b, v, before, depth).Some?
    ensures Evaluate(b, v, before, depth).Constant?
    ensures Evaluate(b, v, before, depth).value == EvaluateComparison(b, v, before, depth).value
    decreases before
  {
    hide Apply, ApplyCommon;
    if v.Named? {
      var i := LastProducer(b, v, before).value;
      var inst := b.insts[i];
      ComparisonRefinesRoute1(b, inst.lhs, i, depth + 1);
      ComparisonRefinesRoute1(b, inst.rhs, i, depth + 1);
      CommonFold(inst.op, Evaluate(b, inst.lhs, i, depth + 1).value, Evaluate(b, inst.rhs, i, depth + 1).value);
    }
  }

  /** No value has two producers, and only opcodes both evaluators fold are used. */
  ghost predicate CommonBlock(b: Block)
  {
    && (forall i, j, v :: 0 <= i < j < |b.insts| && Produces(b, i, v) ==> !Produces(b, j, v))
    && (forall i :: 0 <= i < |b.insts| && b.insts[i].Binary? ==> IsCommonOpcode(b.insts[i].op))
  }

  /** On such blocks the two evaluators agree outright. */
  lemma {:induction false} EvaluatorsAgree(b: Block, v: Value, before: nat, depth: nat)
    requires CommonBlock(b)
    ensures Evaluate(b, v, before, depth).Constant? <==> EvaluateComparison(b, v, before, depth).Some?
    ensures !Evaluate(b, v, before, depth).Undefined?
    ensures Evaluate(b, v, before, depth).Constant? ==>
              Evaluate(b, v, before, depth).value == EvaluateComparison(b, v, before, depth).value
    decreases before
  {
    hide Apply, ApplyCommon;
    if v.Named? && depth <= MAX_DEPTH && LastProducer(b, v, before).Some? {
      var i := LastProducer(b, v, before).value;
      var inst := b.insts[i];
      if inst.Binary? {
        EvaluatorsAgree(b, inst.lhs, i, depth + 1);
        EvaluatorsAgree(b, inst.rhs, i, depth + 1);
        var l, r := Evaluate(b, inst.lhs, i, depth + 1), Evaluate(b, inst.rhs, i, depth + 1);
        if l.Constant? && r.Constant? {
          CommonFold(inst.op, l.value, r.value);
        }
      }
    }
  }

  /** Only opcodes the comparison evaluator folds. */
  predicate IsCommon(e: Expr)
  {
    e.Operation? ==> IsCommonOpcode(e.op) && IsCommon(e.left) && IsCommon(e.right)
  }

  /** So does the comparison evaluator, where each value has one producer and the opcodes are common. */
  lemma {:induction false} EvaluateComparisonExact(b: Block, v: Value, before: nat, depth: nat)
    ensures var e, r := ExprOf(b, v, before, true), EvaluateComparison(b, v, before, depth);
            && (r.Some? <==> Meaning(e).Some? && IsCommon(e) && (Levels(e) == 0 || depth + Levels(e) <= 5))
            && (r.Some? ==> r == Meaning(e))
    decreases before
  {
    hide Apply, ApplyCommon, Meaning;
    NumberMeaning(ExprOf(b, v, before, true));
    if v.Named? && LastProducer(b, v, before).Some? {
      var i := LastProducer(b, v, before).value;
      var inst := b.insts[i];
      if inst.Binary? {
        var l, r := ExprOf(b, inst.lhs, i, true), ExprOf(b, inst.rhs, i, true);
        EvaluateComparisonExact(b, inst.lhs, i, depth + 1);
        EvaluateComparisonExact(b, inst.rhs, i, depth + 1);
        MeaningStep(inst.op, l, r);
        if Meaning(l).Some? && Meaning(r).Some? {
          CommonFold(inst.op, Meaning(l).value, Meaning(r).value);
          UncommonFold(inst.op, Meaning(l).value, Meaning(r).value);
        }
      }
    }
  }

  lemma UncommonFold(op: Opcode, a: I64, b: I64)
    ensures ApplyCommon(op, a, b).Some? ==> IsCommonOpcode(op)
  {
  }

  // ------------------------------------------------------ how deep is deep enough

  function SumName(i: nat): string
  {
    seq(i + 1, _ => 'x')
  }

  function SumInst(i: nat): Inst
  {
    Binary(Add, Named(Int64, SumName(i)), if i == 0 then Immediate(Int64, 1) else Named(Int64, SumName(i - 1)),
           Immediate(Int64, 1))
  }

  /** `n` additions of one, each to the result before it. */
  function SumBlock(n: nat): Block
  {
    Block("", None, seq(n, i requires 0 <= i < n => SumInst(i)), OtherTerminator)
  }

  lemma AddOne(c: nat)
    requires c < 100
    ensures Apply(Add, c, 1) == Fold(c + 1)
  {
  }

  lemma {:induction false} SumExpr(n: nat, i: nat, unique: bool)
    requires i < n < 99
    ensures var e := ExprOf(SumBlock(n), Named(Int64, SumName(i)), i + 1, unique);
            Levels(e) == i + 1 && Meaning(e) == Some(i + 2) && IsCommon(e)
    decreases i
  {
    hide Apply, Meaning;
    var b, v := SumBlock(n), Named(Int64, SumName(i));
    forall j | 0 <= j <= i
      ensures Produces(b, j, v) <==> j == i
    {
      assert |SumName(j)| == j + 1;
    }
    var left := ExprOf(b, b.insts[i].lhs, i, unique);
    if i > 0 {
      SumExpr(n, i - 1, unique);
    } else {
      NumberMeaning(left);
    }
    NumberMeaning(Number(1));
    AddOne(i + 1);
    MeaningStep(Add, left, Number(1));
  }

  /** Both evaluators follow five levels and refuse the sixth. */
  lemma FiveLevels()
    ensures var five := Named(Int64, SumName(4));
            && Evaluate(SumBlock(5), five, 5, 0) == Constant(6, Int64, 0)
            && EvaluateComparison(SumBlock(5), five, 5, 0) == Some(6)
    ensures var six := Named(Int64, SumName(5));
            && !Evaluate(SumBlock(6), six, 6, 0).Constant?
            && EvaluateComparison(SumBlock(6), six, 6, 0).None?
  {
    hide Evaluate, EvaluateComparison, Meaning, ExprOf, SumBlock;
    var five, six := Named(Int64, SumName(4)), Named(Int64, SumName(5));
    SumExpr(5, 4, false);
    SumExpr(5, 4, true);
    SumExpr(6, 5, false);
    SumExpr(6, 5, true);
    EvaluateExact(SumBlock(5), five, 5, 0);
    EvaluateComparisonExact(SumBlock(5), five, 5, 0);
    EvaluateExact(SumBlock(6), six, 6, 0);
    EvaluateComparisonExact(SumBlock(6), six, 6, 0);
  }
}
