/**
 The opcode switch of the constant evaluator in src/backend/bir/bir_route1.cpp, and when its 64-bit
 result is the one the operation has at the width of its operands.
 */
module Folds {
  import opened Machine
  import opened Bir

  datatype Fold = NoFold | Fold(value: I64) | FoldUndefined

  /** `a / b` and `a % b` of C++, which round toward zero. */
  function Quotient(a: int, b: int): int
    requires b != 0
  {
    if (a < 0) == (b < 0) then Abs(a) / Abs(b) else -(Abs(a) / Abs(b))
  }

  function Remainder(a: int, b: int): int
    requires b != 0
  {
    if a < 0 then -(Abs(a) % Abs(b)) else Abs(a) % Abs(b)
  }

  /** The opcode switch. INT64_MIN / -1 and INT64_MIN % -1 overflow in C++. */
  function Apply(op: Opcode, a: I64, b: I64): Fold
  {
    var x, y := ToU64(a), ToU64(b);
    match op
    case Add => Fold(ToI64(x + y))
    case Sub => Fold(ToI64(x - y))
    case Mul => Fold(ToI64(x * y))
    case And => Fold(ToI64(Bitwise(And, x, y, 64)))
    case Or => Fold(ToI64(Bitwise(Or, x, y, 64)))
    case Xor => Fold(ToI64(Bitwise(Xor, x, y, 64)))
    case Shl => if b < 0 || b >= 64 then NoFold else Fold(ToI64(x * Pow2(b)))
    case LShr => if b < 0 || b >= 64 then NoFold else Fold(ToI64(x / Pow2(b)))
    case AShr => if b < 0 || b >= 64 then NoFold else Fold(ShiftDown(a, b))
    case SDiv =>
      if b == 0 then NoFold else if a == INT64_MIN && b == -1 then FoldUndefined
      else Fold(BoundedQuotient(a, b))
    case UDiv => if b == 0 then NoFold else Fold(ToI64(x / y))
    case SRem =>
      if b == 0 then NoFold else if a == INT64_MIN && b == -1 then FoldUndefined
      else Fold(BoundedRemainder(a, b))
    case URem => if b == 0 then NoFold else Fold(ToI64(x % y))
    case Eq => Fold(Truth(a == b))
    case Ne => Fold(Truth(a != b))
    case Slt => Fold(Truth(a < b))
    case Sle => Fold(Truth(a <= b))
    case Sgt => Fold(Truth(a > b))
    case Sge => Fold(Truth(a >= b))
    case Ult => Fold(Truth(x < y))
    case Ule => Fold(Truth(x <= y))
    case Ugt => Fold(Truth(x > y))
    case Uge => Fold(Truth(x >= y))
  }

  /** The arithmetic shift of a signed number rounds down. */
  function ShiftDown(a: I64, n: nat): (r: I64)
  {
    FloorBounds(a, Pow2(n));
    a / Pow2(n)
  }

  lemma FloorBounds(a: int, p: nat)
    requires p >= 1
    ensures (if a < 0 then a else 0) <= a / p <= (if a < 0 then 0 else a)
  {
    var q := a / p;
    assert a == q * p + a % p;
    assert (q + 1) * p == q * p + p;
    Scaled(q, p);
    Scaled(q + 1, p);
  }

  lemma Scaled(q: int, p: nat)
    requires p >= 1
    ensures q >= 0 ==> q * p >= q
    ensures q <= 0 ==> q * p <= q
  {
    assert q * (p - 1) == q * p - q;
    if q >= 0 {
      assert q * (p - 1) >= 0;
    } else {
      assert (-q) * (p - 1) >= 0;
    }
  }

  function BoundedQuotient(a: I64, b: I64): (r: I64)
    requires b != 0 && !(a == INT64_MIN && b == -1)
  {
    QuotientBounds(a, b);
    Quotient(a, b)
  }

  function BoundedRemainder(a: I64, b: I64): (r: I64)
    requires b != 0
  {
    Remainder(a, b)
  }

  lemma QuotientBounds(a: I64, b: I64)
    requires b != 0 && !(a == INT64_MIN && b == -1)
    ensures INT64_MIN <= Quotient(a, b) <= INT64_MAX
  {
    FloorBounds(Abs(a), Abs(b));
    if a == INT64_MIN && b < 0 {
      HalfAtMost(Abs(a), Abs(b));
    }
  }

  lemma HalfAtMost(a: nat, b: nat)
    requires b >= 2
    ensures a / b <= a / 2
  {
    var q, r := a / b, a % b;
    assert a == q * b + r;
    assert q * b >= q * 2;
  }

  // ------------------------------------------------------ division and rounding

  /** Rounding toward zero, as the C++ operators do it, is the truncated division of the semantics. */
  lemma QuotientTruncates(a: int, b: int)
    requires b != 0
    ensures TruncatedDivision(a, b, Quotient(a, b), Remainder(a, b))
  {
    var q, r := Abs(a) / Abs(b), Abs(a) % Abs(b);
    assert Abs(a) == q * Abs(b) + r;
    if b < 0 {
      assert q * (-b) == -(q * b) && (-q) * b == -(q * b);
    } else {
      assert (-q) * b == -(q * b);
    }
  }

  lemma TruncationUnique(a: int, b: int, q: int, r: int, q': int, r': int)
    requires b != 0 && TruncatedDivision(a, b, q, r) && TruncatedDivision(a, b, q', r')
    ensures q == q' && r == r'
  {
    assert (q - q') * b == q * b - q' * b == r' - r;
    assert Abs(r' - r) < Abs(b);
    SmallMultiple(q - q', b, r' - r);
  }

  lemma AbsProduct(k: int, b: int)
    ensures Abs(k * b) == Abs(k) * Abs(b)
  {
    assert (-k) * b == -(k * b) && k * (-b) == -(k * b) && (-k) * (-b) == k * b;
    if k >= 0 && b >= 0 {
      assert k * b >= 0;
    } else if k >= 0 {
      assert k * (-b) >= 0;
    } else if b >= 0 {
      assert (-k) * b >= 0;
    } else {
      assert (-k) * (-b) >= 0;
    }
  }

  lemma SmallMultiple(k: int, b: int, d: int)
    requires k * b == d && Abs(d) < Abs(b)
    ensures k == 0
  {
    AbsProduct(k, b);
    if Abs(k) >= 1 {
      Scaled(Abs(b), Abs(k));
    }
  }

  lemma QuotientShift(x: int, k: int, p: nat)
    requires p >= 1
    ensures (x - k * p) / p == x / p - k
  {
    var q, r := x / p, x % p;
    assert x == q * p + r;
    var q', r' := (x - k * p) / p, (x - k * p) % p;
    assert x - k * p == q' * p + r';
    assert (q' + k) * p == q' * p + k * p;
    assert (q' + k - q) * p == r - r' by { assert (q' + k - q) * p == (q' + k) * p - q * p; }
    SmallMultiple(q' + k - q, p, r - r');
  }

  lemma NegativeFloor(a: int, p: nat)
    requires a < 0 && p >= 1
    ensures a / p < 0
  {
    assert a == a / p * p + a % p;
    Scaled(a / p, p);
  }

  // ------------------------------------------------------ words of a width

  lemma SameRemainder(x: int, y: int, m: nat, k: int)
    requires m >= 1 && x == y + k * m
    ensures x % m == y % m
  {
    var q, q' := x / m, y / m;
    assert x == q * m + x % m && y == q' * m + y % m;
    assert (q - q' - k) * m == y % m - x % m by {
      assert (q - q' - k) * m == q * m - q' * m - k * m;
    }
    SmallMultiple(q - q' - k, m, y % m - x % m);
  }

  lemma RemainderOfSum(x: int, y: int, m: nat)
    requires m >= 1
    ensures (x + y) % m == (x % m + y % m) % m
    ensures (x - y) % m == (x % m - y % m) % m
  {
    Regrouped(x, y, m, x / m, x % m, y / m, y % m);
    SameRemainder(x + y, x % m + y % m, m, x / m + y / m);
    SameRemainder(x - y, x % m - y % m, m, x / m - y / m);
  }

  lemma Regrouped(x: int, y: int, m: int, q: int, r: int, q': int, r': int)
    requires x == q * m + r && y == q' * m + r'
    ensures x + y == r + r' + (q + q') * m
    ensures x - y == r - r' + (q - q') * m
  {
  }

  lemma RemainderOfProduct(x: int, y: int, m: nat)
    requires m >= 1
    ensures (x * y) % m == (x % m * y) % m
  {
    var q, r := x / m, x % m;
    assert x == q * m + r;
    assert x * y == r * y + (q * y) * m by {
      assert (q * m + r) * y == q * m * y + r * y;
      assert q * m * y == (q * y) * m;
    }
    SameRemainder(x * y, r * y, m, q * y);
  }

  lemma SpanIsPower(ty: TypeKind)
    ensures Pow2(Bits(ty)) == Span(ty)
  {
    hide Pow2;
    SmallPowers();
    Pow2Sum(8, 8);
    Pow2Sum(16, 16);
    Pow2Sum(32, 32);
  }

  /** How often the words of a type fit into 64 bits. */
  function Copies(ty: TypeKind): (k: nat)
    ensures k * Span(ty) == TWO64
  {
    match ty
    case Int8 => 0x100_0000_0000_0000
    case Int16 => 0x1_0000_0000_0000
    case Int32 => 0x1_0000_0000
    case _ => 1
  }

  /** Passing through 64 bits, signed or not, keeps the word of a number at every width. */
  lemma WordOfWide(e: int, ty: TypeKind)
    ensures WordAt(ToI64(e), ty) == WordAt(ToU64(e), ty) == WordAt(e, ty)
  {
    hide Span, Copies;
    var k := e / TWO64;
    var carry := if ToU64(e) < 0x8000_0000_0000_0000 then 0 else 1;
    assert e == ToU64(e) + k * TWO64 && ToU64(e) == ToI64(e) + carry * TWO64;
    assert k * TWO64 == (k * Copies(ty)) * Span(ty) && carry * TWO64 == (carry * Copies(ty)) * Span(ty);
    SameRemainder(e, ToU64(e), Span(ty), k * Copies(ty));
    SameRemainder(ToU64(e), ToI64(e), Span(ty), carry * Copies(ty));
  }

  lemma SmallWord(w: U64, ty: TypeKind)
    requires w < Span(ty)
    ensures WordAt(w, ty) == w && WordAt(ToI64(w), ty) == w
  {
    WordOfWide(w, ty);
  }

  /** Reading a word as signed and taking the word again. */
  lemma WordOfSigned(w: U64, ty: TypeKind)
    requires w < Span(ty)
    ensures WordAt(AsSigned(w, ty), ty) == w
    ensures 0 - Span(ty) <= 2 * AsSigned(w, ty) < Span(ty)
  {
  }

  lemma SignedOfWord(a: int, ty: TypeKind)
    requires 0 - Span(ty) <= 2 * a < Span(ty)
    ensures AsSigned(WordAt(a, ty), ty) == a
  {
  }

  // ------------------------------------------------------ how an operation reads its operands

  predicate IsModular(op: Opcode)
  {
    op.Add? || op.Sub? || op.Mul? || op.And? || op.Or? || op.Xor?
  }

  predicate IsUnsigned(op: Opcode)
  {
    op.LShr? || op.UDiv? || op.URem? || op.Ult? || op.Ule? || op.Ugt? || op.Uge?
  }

  /** An operand truncated to its type, as the operation reads it. */
  function Reading(op: Opcode, ty: TypeKind, a: int): I64
  {
    if IsUnsigned(op) then ToI64(WordAt(a, ty)) else AsSigned(WordAt(a, ty), ty)
  }

  lemma ReadingOfReading(op: Opcode, ty: TypeKind, a: int)
    ensures WordAt(Reading(op, ty, a), ty) == WordAt(a, ty)
    ensures Reading(op, ty, Reading(op, ty, a)) == Reading(op, ty, a)
  {
    hide WordAt, AsSigned, ToI64;
    SmallWord(WordAt(a, ty), ty);
    WordOfSigned(WordAt(a, ty), ty);
  }

  lemma WideReading(op: Opcode, a: I64)
    ensures Reading(op, Int64, a) == a
  {
  }

  /** The word an unsigned operation sees is the one the evaluator uses. */
  lemma PlainWord(op: Opcode, ty: TypeKind, a: I64)
    requires IsUnsigned(op) && Reading(op, ty, a) == a
    ensures ToU64(a) == WordAt(a, ty)
  {
  }

  /** A folded value is the one word the operation can leave. */
  ghost predicate FoldIsExact(op: Opcode, ty: TypeKind, a: I64, b: I64, c: I64)
  {
    && HasResult(op, ty, WordAt(a, ty), WordAt(b, ty))
    && forall z: U64 :: Computes(op, ty, WordAt(a, ty), WordAt(b, ty), z) <==> z == WordAt(c, ty)
  }

  // ------------------------------------------------------ operation by operation

  lemma WordOfSum(x: int, y: int, ty: TypeKind)
    ensures WordAt(x + y, ty) == (WordAt(x, ty) + WordAt(y, ty)) % Span(ty)
    ensures WordAt(x - y, ty) == (WordAt(x, ty) - WordAt(y, ty)) % Span(ty)
  {
    hide Span;
    RemainderOfSum(x, y, Span(ty));
  }

  lemma WordOfScaled(x: int, p: int, ty: TypeKind)
    ensures WordAt(x * p, ty) == (WordAt(x, ty) * p) % Span(ty)
  {
    hide Span;
    RemainderOfProduct(x, p, Span(ty));
  }

  lemma WordOfProduct(x: int, y: int, ty: TypeKind)
    ensures WordAt(x * y, ty) == (WordAt(x, ty) * WordAt(y, ty)) % Span(ty)
  {
    hide Span;
    WordOfScaled(x, y, ty);
    WordOfScaled(y, WordAt(x, ty), ty);
    assert WordAt(x, ty) * y == y * WordAt(x, ty);
    assert WordAt(y, ty) * WordAt(x, ty) == WordAt(x, ty) * WordAt(y, ty);
  }

  lemma AddFold(op: Opcode, ty: TypeKind, a: I64, b: I64)
    requires op.Add? || op.Sub? || op.Mul?
    ensures FoldIsExact(op, ty, a, b, Apply(op, a, b).value)
  {
    hide ToI64, ToU64, Span, WordAt, AsSigned, Bitwise, Pow2, TruncatedDivision;
    var x: int, y: int := ToU64(a), ToU64(b);
    WordOfWide(a, ty);
    WordOfWide(b, ty);
    match op {
      case Add =>
        WordOfWide(x + y, ty);
        WordOfSum(x, y, ty);
      case Sub =>
        WordOfWide(x - y, ty);
        WordOfSum(x, y, ty);
      case Mul =>
        WordOfWide(x * y, ty);
        WordOfProduct(x, y, ty);
    }
  }

  lemma ShiftLeftFold(ty: TypeKind, a: I64, b: I64)
    requires 0 <= b < Bits(ty)
    ensures FoldIsExact(Shl, ty, a, b, Apply(Shl, a, b).value)
  {
    hide ToI64, ToU64, Span, WordAt, Pow2;
    SmallAmount(ty, b);
    WordOfWide(a, ty);
    WordOfWide(ToU64(a) * Pow2(b), ty);
    WordOfScaled(ToU64(a), Pow2(b), ty);
  }

  lemma SmallAmount(ty: TypeKind, b: I64)
    requires 0 <= b < 64
    ensures WordAt(b, ty) == b && AsSigned(b, ty) == b && ToI64(b) == b
  {
  }

  lemma {:induction false} BitwiseBound(op: Opcode, x: nat, y: nat, n: nat)
    ensures Bitwise(op, x, y, n) < Pow2(n)
  {
    if n > 0 {
      BitwiseBound(op, x / 2, y / 2, n - 1);
    }
  }

  lemma SmallRemainder(r: nat, m: nat)
    requires r < m
    ensures r % m == r
  {
  }

  lemma HalvedRemainder(x: nat, p: nat)
    requires p >= 1
    ensures x % (2 * p) == x % 2 + 2 * (x / 2 % p)
  {
    var h, l := x / 2 / p, x / 2 % p;
    DoubledMultiple(h, p);
    assert x == 2 * l + x % 2 + h * (2 * p);
    SameRemainder(x, 2 * l + x % 2, 2 * p, h);
    SmallRemainder(2 * l + x % 2, 2 * p);
  }

  lemma DoubledMultiple(h: int, p: int)
    ensures h * (2 * p) == 2 * (h * p)
  {
  }

  /** The low bits of a bitwise result depend on the low bits of the operands alone. */
  lemma {:induction false} BitwiseLow(op: Opcode, x: nat, y: nat, k: nat, n: nat)
    requires n <= k
    ensures Bitwise(op, x, y, k) % Pow2(n) == Bitwise(op, x % Pow2(n), y % Pow2(n), n)
    decreases n
  {
    if n > 0 {
      BitwiseLow(op, x / 2, y / 2, k - 1, n - 1);
      BitwiseLowStep(op, x, y, k, n, Pow2(n - 1));
    }
  }

  lemma BitwiseLowStep(op: Opcode, x: nat, y: nat, k: nat, n: nat, p: nat)
    requires 0 < n <= k && p >= 1
    requires Bitwise(op, x / 2, y / 2, k - 1) % p == Bitwise(op, x / 2 % p, y / 2 % p, n - 1)
    ensures Bitwise(op, x, y, k) % (2 * p) == Bitwise(op, x % (2 * p), y % (2 * p), n)
  {
    hide Bitwise, BitOp;
    var low, w := BitOp(op, x % 2, y % 2), Bitwise(op, x / 2, y / 2, k - 1);
    BitwiseStep(op, x, y, k);
    BitwiseStep(op, x % (2 * p), y % (2 * p), n);
    HalvedRemainder(x, p);
    HalvedRemainder(y, p);
    HalvedRemainder(low + 2 * w, p);
    Halves(x % 2, x / 2 % p);
    Halves(y % 2, y / 2 % p);
    BitOpBit(op, x % 2, y % 2);
    Halves(low, w);
  }

  lemma BitOpBit(op: Opcode, x: int, y: int)
    ensures 0 <= BitOp(op, x, y) <= 1
  {
  }

  lemma Halves(low: nat, high: nat)
    requires low <= 1
    ensures (low + 2 * high) % 2 == low && (low + 2 * high) / 2 == high
  {
  }

  lemma BitwiseStep(op: Opcode, x: nat, y: nat, n: nat)
    requires n > 0
    ensures Bitwise(op, x, y, n) == BitOp(op, x % 2, y % 2) + 2 * Bitwise(op, x / 2, y / 2, n - 1)
  {
  }

  lemma BitwiseFold(op: Opcode, ty: TypeKind, a: I64, b: I64)
    requires op.And? || op.Or? || op.Xor?
    ensures FoldIsExact(op, ty, a, b, Apply(op, a, b).value)
  {
    hide ToI64, ToU64, Bitwise, Pow2, Span;
    var x, y := ToU64(a), ToU64(b);
    SpanIsPower(ty);
    WordOfWide(a, ty);
    WordOfWide(b, ty);
    BitwiseLow(op, x, y, 64, Bits(ty));
    BitwiseBound(op, WordAt(a, ty), WordAt(b, ty), Bits(ty));
    WordOfWide(Bitwise(op, x, y, 64), ty);
  }

  lemma UnsignedFold(op: Opcode, ty: TypeKind, a: I64, b: I64)
    requires op.LShr? || op.UDiv? || op.URem?
    requires Reading(op, ty, a) == a && Reading(op, ty, b) == b && Apply(op, a, b).Fold?
    requires HasResult(op, ty, WordAt(a, ty), WordAt(b, ty))
    ensures FoldIsExact(op, ty, a, b, Apply(op, a, b).value)
  {
    hide ToI64, ToU64, Pow2, Span, WordAt, Reading;
    PlainWord(op, ty, a);
    PlainWord(op, ty, b);
    var x, y := WordAt(a, ty), WordAt(b, ty);
    match op {
      case LShr =>
        SmallAmount(ty, b);
        FloorBounds(x, Pow2(b));
        SmallWord(x / Pow2(b), ty);
      case UDiv =>
        FloorBounds(x, y);
        SmallWord(x / y, ty);
      case URem =>
        SmallWord(x % y, ty);
    }
  }

  /** The register fills with copies of the sign bit; the evaluator rounds down. */
  lemma ArithmeticShiftFold(ty: TypeKind, a: I64, b: I64)
    requires Reading(AShr, ty, a) == a && 0 <= b < Bits(ty)
    ensures FoldIsExact(AShr, ty, a, b, ShiftDown(a, b))
  {
    hide Pow2, Span, WordAt, AsSigned, ShiftDown, Computes;
    SmallAmount(ty, b);
    ShiftedWord(ty, a, b);
    forall z: U64
      ensures Computes(AShr, ty, WordAt(a, ty), b, z) <==> z == WordAt(ShiftDown(a, b), ty)
    {
      ShiftComputed(ty, WordAt(a, ty), b, z);
    }
  }

  lemma ShiftComputed(ty: TypeKind, x: U64, y: U64, z: U64)
    requires HasResult(AShr, ty, x, y)
    ensures Computes(AShr, ty, x, y, z) <==>
            && z < Span(ty)
            && z == x / Pow2(y) + (if AsSigned(x, ty) >= 0 then 0 else Span(ty) - Pow2(Bits(ty) - y))
  {
    hide Pow2, Span, AsSigned;
  }

  lemma ShiftedWord(ty: TypeKind, a: I64, b: nat)
    requires Reading(AShr, ty, a) == a && b < Bits(ty)
    ensures WordAt(ShiftDown(a, b), ty) ==
            WordAt(a, ty) / Pow2(b) + (if a >= 0 then 0 else Span(ty) - Pow2(Bits(ty) - b))
  {
    hide Pow2, WordAt, AsSigned, Span;
    var m, p := Span(ty), Pow2(b);
    WordOfSigned(WordAt(a, ty), ty);
    FloorBounds(a, p);
    FittingWord(ty, a);
    FittingWord(ty, a / p);
    if a < 0 {
      SpanIsPower(ty);
      Pow2Sum(Bits(ty) - b, b);
      ShiftedByMultiple(a, m, Pow2(Bits(ty) - b), p);
      NegativeFloor(a, p);
    }
  }

  lemma ShiftedByMultiple(a: int, m: int, k: int, p: nat)
    requires p >= 1 && m == k * p
    ensures a / p == (a + m) / p - k
  {
    QuotientShift(a + m, k, p);
    assert a + m - k * p == a;
  }

  /** The word of a number that fits its type as signed. */
  lemma FittingWord(ty: TypeKind, a: int)
    requires 0 - Span(ty) <= 2 * a < Span(ty)
    ensures WordAt(a, ty) == (if a >= 0 then a else a + Span(ty))
  {
  }

  lemma QuotientFold(ty: TypeKind, a: I64, b: I64)
    requires Reading(SDiv, ty, a) == a && Reading(SDiv, ty, b) == b
    requires HasResult(SDiv, ty, WordAt(a, ty), WordAt(b, ty)) && b != 0 && !(a == INT64_MIN && b == -1)
    ensures FoldIsExact(SDiv, ty, a, b, BoundedQuotient(a, b))
  {
    hide TruncatedDivision, Quotient, Remainder, Span, ToI64;
    var q := BoundedQuotient(a, b);
    QuotientTruncates(a, b);
    QuotientFits(ty, a, b);
    SignedOfWord(q, ty);
    forall z: U64
      ensures Computes(SDiv, ty, WordAt(a, ty), WordAt(b, ty), z) <==> z == WordAt(q, ty)
    {
      hide WordAt, AsSigned;
      if Computes(SDiv, ty, WordAt(a, ty), WordAt(b, ty), z) {
        var r :| TruncatedDivision(a, b, AsSigned(z, ty), r);
        TruncationUnique(a, b, q, Remainder(a, b), AsSigned(z, ty), r);
        WordOfSigned(z, ty);
      }
    }
  }

  lemma QuotientFits(ty: TypeKind, a: I64, b: I64)
    requires Reading(SDiv, ty, a) == a && Reading(SDiv, ty, b) == b && b != 0
    requires HasResult(SDiv, ty, WordAt(a, ty), WordAt(b, ty))
    ensures 0 - Span(ty) <= 2 * Quotient(a, b) < Span(ty)
  {
    FloorBounds(Abs(a), Abs(b));
    if 2 * a == 0 - Span(ty) && b < 0 {
      HalfAtMost(Abs(a), Abs(b));
    }
  }

  lemma RemainderFold(ty: TypeKind, a: I64, b: I64)
    requires Reading(SRem, ty, a) == a && Reading(SRem, ty, b) == b
    requires HasResult(SRem, ty, WordAt(a, ty), WordAt(b, ty)) && b != 0
    ensures FoldIsExact(SRem, ty, a, b, BoundedRemainder(a, b))
  {
    hide TruncatedDivision, Quotient, Remainder, Span, ToI64;
    var r := BoundedRemainder(a, b);
    QuotientTruncates(a, b);
    RemainderFits(ty, a, b);
    SignedOfWord(r, ty);
    forall z: U64
      ensures Computes(SRem, ty, WordAt(a, ty), WordAt(b, ty), z) <==> z == WordAt(r, ty)
    {
      hide WordAt, AsSigned;
      if Computes(SRem, ty, WordAt(a, ty), WordAt(b, ty), z) {
        var q :| TruncatedDivision(a, b, q, AsSigned(z, ty));
        TruncationUnique(a, b, Quotient(a, b), r, q, AsSigned(z, ty));
        WordOfSigned(z, ty);
      }
    }
  }

  lemma RemainderFits(ty: TypeKind, a: I64, b: I64)
    requires Reading(SRem, ty, a) == a && Reading(SRem, ty, b) == b && b != 0
    ensures 0 - Span(ty) <= 2 * Remainder(a, b) < Span(ty)
  {
  }

  /** What a comparison finds of two numbers it reads as signed, or of two words. */
  predicate Finds(op: Opcode, x: int, y: int)
  {
    match op
    case Eq => x == y
    case Ne => x != y
    case Slt => x < y
    case Ult => x < y
    case Sle => x <= y
    case Ule => x <= y
    case Sgt => x > y
    case Ugt => x > y
    case _ => x >= y
  }

  lemma ComparisonApplied(op: Opcode, a: I64, b: I64)
    requires IsComparison(op)
    ensures Apply(op, a, b) == Fold(Truth(if IsUnsigned(op) then Finds(op, ToU64(a), ToU64(b)) else Finds(op, a, b)))
  {
    hide ToU64;
  }

  lemma ComparisonComputed(op: Opcode, ty: TypeKind, x: U64, y: U64, z: U64)
    requires IsComparison(op) && HasResult(op, ty, x, y)
    ensures Computes(op, ty, x, y, z) <==>
            z == Truth(if IsUnsigned(op) then Finds(op, x, y) else Finds(op, AsSigned(x, ty), AsSigned(y, ty)))
  {
  }

  lemma ComparisonFold(op: Opcode, ty: TypeKind, a: I64, b: I64)
    requires IsComparison(op) && Reading(op, ty, a) == a && Reading(op, ty, b) == b
    ensures FoldIsExact(op, ty, a, b, Apply(op, a, b).value)
  {
    hide ToU64, ToI64, Span, WordAt, AsSigned, Finds, Computes, Apply, Bits;
    SmallAmount(ty, 0);
    SmallAmount(ty, 1);
    ComparisonApplied(op, a, b);
    if IsUnsigned(op) {
      PlainWord(op, ty, a);
      PlainWord(op, ty, b);
    }
    forall z: U64
      ensures Computes(op, ty, WordAt(a, ty), WordAt(b, ty), z) <==> z == WordAt(Apply(op, a, b).value, ty)
    {
      ComparisonComputed(op, ty, WordAt(a, ty), WordAt(b, ty), z);
    }
  }

  /**
   At every width the folded constant is the one word the operation can leave, if the operation has a
   result there and its operands fit the type as it reads them, or it depends on their low bits only.
   */
  lemma FoldSound(op: Opcode, ty: TypeKind, a: I64, b: I64)
    requires Apply(op, a, b).Fold? && HasResult(op, ty, WordAt(a, ty), WordAt(b, ty))
    requires IsModular(op) || op.Shl? || (Reading(op, ty, a) == a && Reading(op, ty, b) == b)
    ensures FoldIsExact(op, ty, a, b, Apply(op, a, b).value)
  {
    hide FoldIsExact, ToI64, Bitwise, Pow2, Span, Reading, WordAt;
    if 0 <= b < 64 {
      SmallAmount(ty, b);
    }
    match op {
      case Add => AddFold(op, ty, a, b);
      case Sub => AddFold(op, ty, a, b);
      case Mul => AddFold(op, ty, a, b);
      case And => BitwiseFold(op, ty, a, b);
      case Or => BitwiseFold(op, ty, a, b);
      case Xor => BitwiseFold(op, ty, a, b);
      case Shl => ShiftLeftFold(ty, a, b);
      case AShr => ArithmeticShiftFold(ty, a, b);
      case SDiv => QuotientFold(ty, a, b);
      case SRem => RemainderFold(ty, a, b);
      case LShr => UnsignedFold(op, ty, a, b);
      case UDiv => UnsignedFold(op, ty, a, b);
      case URem => UnsignedFold(op, ty, a, b);
      case _ => ComparisonFold(op, ty, a, b);
    }
  }

  // ------------------------------------------------------ when not truncating is harmless

  /** The operation has a result, and truncating the operands first would not have changed its word. */
  predicate Harmless(op: Opcode, ty: TypeKind, a: I64, b: I64)
    requires Apply(op, a, b).Fold?
  {
    HasResult(op, ty, WordAt(a, ty), WordAt(b, ty)) &&
    var truncated := Apply(op, Reading(op, ty, a), Reading(op, ty, b));
    truncated.Fold? && WordAt(truncated.value, ty) == WordAt(Apply(op, a, b).value, ty)
  }

  /** When the switch returns a value. */
  predicate CanFold(op: Opcode, a: I64, b: I64)
  {
    match op
    case Shl => 0 <= b < 64
    case LShr => 0 <= b < 64
    case AShr => 0 <= b < 64
    case SDiv => b != 0 && !(a == INT64_MIN && b == -1)
    case SRem => b != 0 && !(a == INT64_MIN && b == -1)
    case UDiv => b != 0
    case URem => b != 0
    case _ => true
  }

  lemma FoldsIfItCan(op: Opcode, a: I64, b: I64)
    ensures Apply(op, a, b).Fold? <==> CanFold(op, a, b)
  {
    hide Bitwise, Pow2, ShiftDown, BoundedQuotient, BoundedRemainder, ToI64, ToU64;
  }

  lemma SignedReading(ty: TypeKind, w: U64)
    requires w < Span(ty)
    ensures w < 64 ==> AsSigned(w, ty) == w
    ensures AsSigned(w, ty) == 0 <==> w == 0
    ensures AsSigned(w, ty) == INT64_MIN ==> 2 * w == Span(ty)
    ensures AsSigned(w, ty) == -1 ==> w == Span(ty) - 1
  {
  }

  lemma UnsignedReading(w: U64)
    ensures w < 64 ==> ToI64(w) == w
    ensures ToI64(w) == 0 <==> w == 0
  {
  }

  lemma ReadingFacts(op: Opcode, ty: TypeKind, a: int)
    ensures WordAt(a, ty) < 64 ==> Reading(op, ty, a) == WordAt(a, ty)
    ensures Reading(op, ty, a) == 0 <==> WordAt(a, ty) == 0
    ensures !IsUnsigned(op) && Reading(op, ty, a) == INT64_MIN ==> 2 * WordAt(a, ty) == Span(ty)
    ensures !IsUnsigned(op) && Reading(op, ty, a) == -1 ==> WordAt(a, ty) == Span(ty) - 1
  {
    hide WordAt, ToI64, AsSigned, Span;
    SignedReading(ty, WordAt(a, ty));
    UnsignedReading(WordAt(a, ty));
  }

  lemma TruncatedFolds(op: Opcode, ty: TypeKind, a: I64, b: I64)
    requires HasResult(op, ty, WordAt(a, ty), WordAt(b, ty))
    ensures Apply(op, Reading(op, ty, a), Reading(op, ty, b)).Fold?
  {
    hide Apply, WordAt, Reading, Span;
    ReadingFacts(op, ty, a);
    ReadingFacts(op, ty, b);
    FoldsIfItCan(op, Reading(op, ty, a), Reading(op, ty, b));
  }

  /** The evaluator never truncates its operands. Its constant is right exactly when that is harmless. */
  lemma FoldExact(op: Opcode, ty: TypeKind, a: I64, b: I64)
    requires Apply(op, a, b).Fold?
    ensures FoldIsExact(op, ty, a, b, Apply(op, a, b).value) <==> Harmless(op, ty, a, b)
  {
    hide Apply, HasResult, Computes, WordAt, Reading;
    if HasResult(op, ty, WordAt(a, ty), WordAt(b, ty)) {
      var a', b' := Reading(op, ty, a), Reading(op, ty, b);
      ReadingOfReading(op, ty, a);
      ReadingOfReading(op, ty, b);
      TruncatedFolds(op, ty, a, b);
      FoldSound(op, ty, a', b');
      var w := WordAt(Apply(op, a', b').value, ty);
      assert Computes(op, ty, WordAt(a, ty), WordAt(b, ty), w);
    }
  }

  /** Operations on 64-bit operands, and at every width those that depend on low bits only, are never harmed. */
  lemma PlainFoldHarmless(op: Opcode, ty: TypeKind, a: I64, b: I64)
    requires Apply(op, a, b).Fold? && (ty.Int64? || IsModular(op))
    ensures Harmless(op, ty, a, b)
  {
    hide FoldIsExact, Harmless, Apply, Reading;
    FoldsIfItCan(op, a, b);
    WideReading(op, a);
    WideReading(op, b);
    FoldSound(op, ty, a, b);
    FoldExact(op, ty, a, b);
  }

  /** At every width an operation is right on operands that fit the type as it reads them. */
  lemma FittingFoldHarmless(op: Opcode, ty: TypeKind, a: I64, b: I64)
    requires Apply(op, a, b).Fold? && HasResult(op, ty, WordAt(a, ty), WordAt(b, ty))
    requires Reading(op, ty, a) == a && Reading(op, ty, b) == b
    ensures Harmless(op, ty, a, b)
  {
  }
}
