/** 32-bit words as the integers they stand for, and the byte order of an RV64 text section. */
module Rv64Bits {
  import opened Machine

  // --------------------------------------------------- words and integers

  function Bit(x: bv32): nat
  {
    if x & 1 == 1 then 1 else 0
  }

  /** The number a word stands for. */
  function Unsigned(x: bv32): nat
    decreases x
  {
    if x == 0 then 0 else Bit(x) + 2 * Unsigned(x >> 1)
  }

  function AppendBit(x: bv32, b: nat): bv32
  {
    (x << 1) | (if b == 1 then 1 else 0)
  }

  /** The low 32 bits of a number. */
  function BitsOf(v: nat): bv32
  {
    if v == 0 then 0 else AppendBit(BitsOf(v / 2), v % 2)
  }

  /** Only the low `n` bits of `x` can be set. */
  predicate Low(x: bv32, n: nat)
    decreases n
  {
    if n == 0 then x == 0 else Low(x >> 1, n - 1)
  }

  /** `static_cast<int32_t>` of a word. */
  function Signed(x: bv32): int
  {
    if x < 0x8000_0000 then Unsigned(x) else -1 - Unsigned(!x)
  }

  /** `static_cast<uint32_t>` of an `int32_t` value. */
  function WordOf(v: int): bv32
  {
    if v >= 0 then BitsOf(v) else !BitsOf(-1 - v)
  }

  lemma Rejoin(x: bv32)
    ensures AppendBit(x >> 1, Bit(x)) == x
  {
  }

  lemma HalfNonZero(x: bv32)
    requires x != 0 && Bit(x) == 0
    ensures x >> 1 != 0
  {
  }

  lemma {:induction false} UnsignedPositive(x: bv32)
    requires x != 0
    ensures Unsigned(x) > 0
    decreases x
  {
    if Bit(x) == 0 {
      HalfNonZero(x);
      UnsignedPositive(x >> 1);
    }
  }

  lemma BitsOfStep(b: nat, u: nat)
    requires b <= 1 && b + 2 * u > 0
    ensures BitsOf(b + 2 * u) == AppendBit(BitsOf(u), b)
  {
    assert (b + 2 * u) / 2 == u && (b + 2 * u) % 2 == b;
  }

  lemma {:induction false} BitsOfUnsigned(x: bv32)
    ensures BitsOf(Unsigned(x)) == x
    decreases x
  {
    if x != 0 {
      BitsOfUnsigned(x >> 1);
      UnsignedPositive(x);
      BitsOfStep(Bit(x), Unsigned(x >> 1));
      Rejoin(x);
    }
  }

  lemma NotNot(x: bv32)
    ensures !!x == x
  {
  }

  /** Reading a word as `int32_t` and casting it back loses nothing. */
  lemma WordOfSigned(x: bv32)
    ensures WordOf(Signed(x)) == x
  {
    if x < 0x8000_0000 {
      BitsOfUnsigned(x);
    } else {
      BitsOfUnsigned(!x);
      NotNot(x);
    }
  }

  lemma {:induction false} UnsignedBelow(x: bv32, m: nat)
    requires Low(x, m)
    ensures Unsigned(x) < Pow2(m)
    decreases m
  {
    if m > 0 {
      UnsignedBelow(x >> 1, m - 1);
    }
  }

  // Which words fit in a number of bits, one step of `Low` at a time.

  lemma LowStep(x: bv32, n: nat)
    ensures Low(x, n + 1) <==> Low(x >> 1, n)
  {
  }

  lemma LowZero(x: bv32)
    ensures Low(x, 0) <==> x == 0
  {
  }

  lemma LowOne(x: bv32)
    ensures Low(x, 1) <==> x >> 1 == 0
  {
    hide Low;
    LowStep(x, 0);
    LowZero(x >> 1);
  }

  lemma LowTwo(x: bv32)
    ensures Low(x, 2) <==> x >> 1 >> 1 == 0
  {
    hide Low;
    LowStep(x, 1);
    LowOne(x >> 1);
  }

  lemma LowThree(x: bv32)
    ensures Low(x, 3) <==> x >> 1 >> 1 >> 1 == 0
  {
    hide Low;
    LowStep(x, 2);
    LowTwo(x >> 1);
  }

  lemma DropTwo(x: bv32, n: nat)
    ensures Low(x, n + 2) <==> Low(x >> 2, n)
  {
    hide Low;
    LowStep(x, n + 1);
    LowStep(x >> 1, n);
    TwoShifts(x);
  }

  lemma TwoShifts(x: bv32)
    ensures x >> 1 >> 1 == x >> 2
  {
  }

  lemma DropFour(x: bv32, n: nat)
    ensures Low(x, n + 4) <==> Low(x >> 4, n)
  {
    hide Low;
    DropTwo(x, n + 2);
    DropTwo(x >> 2, n);
    FourShifts(x);
  }

  lemma FourShifts(x: bv32)
    ensures x >> 2 >> 2 == x >> 4
  {
  }

  lemma DropEight(x: bv32, n: nat)
    ensures Low(x, n + 8) <==> Low(x >> 4 >> 4, n)
  {
    hide Low;
    DropFour(x, n + 4);
    DropFour(x >> 4, n);
  }

  lemma DropSixteen(x: bv32, n: nat)
    ensures Low(x, n + 16) <==> Low(x >> 4 >> 4 >> 4 >> 4, n)
  {
    hide Low;
    DropEight(x, n + 8);
    DropEight(x >> 4 >> 4, n);
  }

  lemma Low5(x: bv32)
    ensures Low(x, 5) <==> x <= 0x1f
  {
    hide Low;
    DropFour(x, 1);
    LowOne(x >> 4);
    Below5(x);
  }

  lemma Below5(x: bv32)
    ensures x >> 4 >> 1 == 0 <==> x <= 0x1f
  {
  }

  lemma Low6(x: bv32)
    ensures Low(x, 6) <==> x <= 0x3f
  {
    hide Low;
    DropFour(x, 2);
    LowTwo(x >> 4);
    Below6(x);
  }

  lemma Below6(x: bv32)
    ensures x >> 4 >> 1 >> 1 == 0 <==> x <= 0x3f
  {
  }

  lemma Low11(x: bv32)
    ensures Low(x, 11) <==> x <= 0x7ff
  {
    hide Low;
    DropEight(x, 3);
    LowThree(x >> 4 >> 4);
    Below11(x);
  }

  lemma Below11(x: bv32)
    ensures x >> 4 >> 4 >> 1 >> 1 >> 1 == 0 <==> x <= 0x7ff
  {
  }

  lemma Low12(x: bv32)
    ensures Low(x, 12) <==> x <= 0xfff
  {
    hide Low;
    DropEight(x, 4);
    DropFour(x >> 4 >> 4, 0);
    LowZero(x >> 4 >> 4 >> 4);
    Below12(x);
  }

  lemma Below12(x: bv32)
    ensures x >> 4 >> 4 >> 4 == 0 <==> x <= 0xfff
  {
  }

  lemma Low19(x: bv32)
    ensures Low(x, 19) <==> x <= 0x7_ffff
  {
    hide Low;
    DropSixteen(x, 3);
    LowThree(x >> 4 >> 4 >> 4 >> 4);
    Below19(x);
  }

  lemma Below19(x: bv32)
    ensures x >> 4 >> 4 >> 4 >> 4 >> 1 >> 1 >> 1 == 0 <==> x <= 0x7_ffff
  {
  }

  lemma Low20(x: bv32)
    ensures Low(x, 20) <==> x <= 0xf_ffff
  {
    hide Low;
    DropSixteen(x, 4);
    DropFour(x >> 4 >> 4 >> 4 >> 4, 0);
    LowZero(x >> 4 >> 4 >> 4 >> 4 >> 4);
    Below20(x);
  }

  lemma Below20(x: bv32)
    ensures x >> 4 >> 4 >> 4 >> 4 >> 4 == 0 <==> x <= 0xf_ffff
  {
  }

  lemma Low31(x: bv32)
    ensures Low(x, 31) <==> x < 0x8000_0000
  {
    hide Low;
    DropSixteen(x, 15);
    var y := x >> 4 >> 4 >> 4 >> 4;
    DropEight(y, 7);
    DropFour(y >> 4 >> 4, 3);
    LowThree(y >> 4 >> 4 >> 4);
    Below31(x);
  }

  lemma Below31(x: bv32)
    ensures x >> 4 >> 4 >> 4 >> 4 >> 4 >> 4 >> 4 >> 1 >> 1 >> 1 == 0 <==> x < 0x8000_0000
  {
  }

  lemma PowersOfTwo()
    ensures Pow2(5) == 32 && Pow2(6) == 64 && Pow2(11) == 0x800 && Pow2(12) == 0x1000
    ensures Pow2(19) == 0x8_0000 && Pow2(20) == 0x10_0000 && Pow2(31) == 0x8000_0000
  {
    hide Pow2;
    SmallPowers();
    Pow2Sum(5, 6);
    Pow2Sum(6, 6);
    Pow2Sum(8, 11);
    Pow2Sum(8, 12);
    Pow2Sum(11, 20);
  }

  /** A word whose sign bits start at bit `m` is a signed `m + 1`-bit number. */
  lemma SignedRange(x: bv32, m: nat)
    requires m <= 31 && (Low(x, m) || Low(!x, m))
    ensures 0 - Pow2(m) <= Signed(x) < Pow2(m)
  {
    hide Low, Unsigned, Pow2;
    if Low(x, m) {
      LowIsSmall(x, m);
      UnsignedBelow(x, m);
    } else {
      LowIsSmall(!x, m);
      SmallComplement(x);
      UnsignedBelow(!x, m);
    }
  }

  lemma {:induction false} LowGrows(x: bv32, m: nat)
    requires Low(x, m)
    ensures Low(x, m + 1)
    decreases m
  {
    if m == 0 {
      LowStep(x, 0);
    } else {
      LowGrows(x >> 1, m - 1);
    }
  }

  lemma {:induction false} LowIsSmall(x: bv32, m: nat)
    requires m <= 31 && Low(x, m)
    ensures x < 0x8000_0000
    decreases 31 - m
  {
    hide Low;
    if m == 31 {
      Low31(x);
    } else {
      LowGrows(x, m);
      LowIsSmall(x, m + 1);
    }
  }

  lemma SmallComplement(x: bv32)
    requires !x < 0x8000_0000
    ensures x >= 0x8000_0000
  {
  }

  lemma ParityOfComplement(x: bv32)
    ensures Bit(!x) == 1 - Bit(x)
  {
  }

  lemma ParityStep(b: nat, u: nat)
    requires b <= 1
    ensures (b + 2 * u) % 2 == b
  {
  }

  lemma UnsignedParity(x: bv32)
    ensures Unsigned(x) % 2 == Bit(x)
  {
    if x != 0 {
      ParityStep(Bit(x), Unsigned(x >> 1));
    }
  }

  lemma NegativeParity(u: nat, b: nat)
    requires b <= 1 && u % 2 == 1 - b
    ensures (-1 - u) % 2 == b
  {
  }

  lemma SignedParity(x: bv32)
    ensures Signed(x) % 2 == Bit(x)
  {
    if x < 0x8000_0000 {
      UnsignedParity(x);
    } else {
      UnsignedParity(!x);
      ParityOfComplement(x);
      NegativeParity(Unsigned(!x), Bit(x));
    }
  }

  lemma SignedEven(x: bv32)
    requires x & 1 == 0
    ensures Signed(x) % 2 == 0
  {
    SignedParity(x);
  }

  lemma SignedRange5(x: bv32)
    requires x <= 0x1f
    ensures 0 <= Signed(x) <= 31
  {
    hide Low, Pow2;
    PowersOfTwo();
    Low5(x);
    UnsignedBelow(x, 5);
  }

  lemma SignedRange6(x: bv32)
    requires x <= 0x3f
    ensures 0 <= Signed(x) <= 63
  {
    hide Low, Pow2;
    PowersOfTwo();
    Low6(x);
    UnsignedBelow(x, 6);
  }

  lemma NotHigh11(x: bv32)
    ensures !x <= 0x7ff <==> x >= 0xffff_f800
  {
  }

  lemma NotHigh12(x: bv32)
    ensures !x <= 0xfff <==> x >= 0xffff_f000
  {
  }

  lemma NotHigh19(x: bv32)
    ensures !x <= 0x7_ffff <==> x >= 0xfff8_0000
  {
  }

  lemma NotHigh20(x: bv32)
    ensures !x <= 0xf_ffff <==> x >= 0xfff0_0000
  {
  }

  lemma SignedRange12(x: bv32)
    requires x <= 0x7ff || x >= 0xffff_f800
    ensures -2048 <= Signed(x) <= 2047
  {
    hide Low, Signed, Pow2;
    PowersOfTwo();
    Low11(x);
    Low11(!x);
    NotHigh11(x);
    SignedRange(x, 11);
  }

  lemma SignedRange13(x: bv32)
    requires x <= 0xfff || x >= 0xffff_f000
    ensures -4096 <= Signed(x) <= 4095
  {
    hide Low, Signed, Pow2;
    PowersOfTwo();
    Low12(x);
    Low12(!x);
    NotHigh12(x);
    SignedRange(x, 12);
  }

  lemma SignedRange20(x: bv32)
    requires x <= 0x7_ffff || x >= 0xfff8_0000
    ensures -0x8_0000 <= Signed(x) <= 0x7_ffff
  {
    hide Low, Signed, Pow2;
    PowersOfTwo();
    Low19(x);
    Low19(!x);
    NotHigh19(x);
    SignedRange(x, 19);
  }

  lemma SignedRange21(x: bv32)
    requires x <= 0xf_ffff || x >= 0xfff0_0000
    ensures -0x10_0000 <= Signed(x) <= 0xf_ffff
  {
    hide Low, Signed, Pow2;
    PowersOfTwo();
    Low20(x);
    Low20(!x);
    NotHigh20(x);
    SignedRange(x, 20);
  }

  // ------------------------------------------------- integers to words and back

  lemma {:induction false} UnsignedAbove(x: bv32, m: nat)
    requires !Low(x, m)
    ensures Unsigned(x) >= Pow2(m)
    decreases m
  {
    if m == 0 {
      UnsignedPositive(x);
    } else {
      UnsignedAbove(x >> 1, m - 1);
      ShiftOfZero(x);
    }
  }

  lemma ShiftOfZero(x: bv32)
    ensures x == 0 ==> x >> 1 == 0
  {
  }

  lemma SmallWord(x: bv32)
    requires Unsigned(x) < 0x8000_0000
    ensures x < 0x8000_0000
  {
    hide Low, Unsigned, Pow2;
    PowersOfTwo();
    Low31(x);
    if !Low(x, 31) {
      UnsignedAbove(x, 31);
    }
  }

  lemma ShiftBack(x: bv32, c: bv32)
    requires x < 0x8000_0000 && c <= 1
    ensures ((x << 1) | c) >> 1 == x
  {
  }

  lemma LowBit(x: bv32, c: bv32)
    requires c <= 1
    ensures ((x << 1) | c) & 1 == c
  {
  }

  lemma AppendSplits(x: bv32, b: nat)
    requires x < 0x8000_0000 && b <= 1
    ensures AppendBit(x, b) >> 1 == x && Bit(AppendBit(x, b)) == b
  {
    var c: bv32 := if b == 1 then 1 else 0;
    ShiftBack(x, c);
    LowBit(x, c);
  }

  lemma UnsignedAppend(x: bv32, b: nat)
    requires x < 0x8000_0000 && b <= 1
    ensures Unsigned(AppendBit(x, b)) == b + 2 * Unsigned(x)
  {
    AppendSplits(x, b);
    if AppendBit(x, b) == 0 {
      ZeroSplits(x, b);
    }
  }

  lemma ZeroSplits(x: bv32, b: nat)
    requires x < 0x8000_0000 && b <= 1 && AppendBit(x, b) == 0
    ensures x == 0 && b == 0
  {
  }

  lemma {:induction false} UnsignedBitsOf(v: nat)
    requires v < 0x8000_0000
    ensures Unsigned(BitsOf(v)) == v
  {
    if v > 0 {
      UnsignedBitsOf(v / 2);
      SmallWord(BitsOf(v / 2));
      UnsignedAppend(BitsOf(v / 2), v % 2);
    }
  }

  lemma NotSmall(x: bv32)
    requires x < 0x8000_0000
    ensures !(!x < 0x8000_0000)
  {
  }

  /** Every `int32_t` value survives the cast to a word and back. */
  lemma SignedWordOf(v: int)
    requires -0x8000_0000 <= v < 0x8000_0000
    ensures Signed(WordOf(v)) == v
  {
    var u := if v >= 0 then v else -1 - v;
    UnsignedBitsOf(u);
    SmallWord(BitsOf(u));
    if v < 0 {
      NotNot(BitsOf(u));
      NotSmall(BitsOf(u));
    }
  }

  /** A word read as a number of `m + 1` signed bits has its sign bits set alike. */
  lemma SignedFits(x: bv32, m: nat)
    requires 0 - Pow2(m) <= Signed(x) < Pow2(m)
    ensures Low(x, m) || Low(!x, m)
  {
    hide Low, Unsigned, Pow2;
    var y := if x < 0x8000_0000 then x else !x;
    if !Low(y, m) {
      UnsignedAbove(y, m);
    }
  }

  lemma Word13(x: bv32)
    requires -4096 <= Signed(x) <= 4095
    ensures x <= 0xfff || x >= 0xffff_f000
  {
    hide Low, Signed, Pow2;
    PowersOfTwo();
    SignedFits(x, 12);
    Low12(x);
    Low12(!x);
    NotHigh12(x);
  }

  lemma Word21(x: bv32)
    requires -0x10_0000 <= Signed(x) <= 0xf_ffff
    ensures x <= 0xf_ffff || x >= 0xfff0_0000
  {
    hide Low, Signed, Pow2;
    PowersOfTwo();
    SignedFits(x, 20);
    Low20(x);
    Low20(!x);
    NotHigh20(x);
  }

  lemma WordEven(x: bv32)
    requires Signed(x) % 2 == 0
    ensures x & 1 == 0
  {
    SignedParity(x);
    BitOfOne(x);
  }

  lemma BitOfOne(x: bv32)
    requires Bit(x) == 0
    ensures x & 1 == 0
  {
  }

  // ------------------------------------------------------------ byte order

  function ReadU32(bytes: seq<bv8>, at: nat): bv32
    requires at + 4 <= |bytes|
  {
    (bytes[at] as bv32) | ((bytes[at + 1] as bv32) << 8) |
    ((bytes[at + 2] as bv32) << 16) | ((bytes[at + 3] as bv32) << 24)
  }

  function ReadU64(bytes: seq<bv8>, at: nat): bv64
    requires at + 8 <= |bytes|
  {
    (ReadU32(bytes, at) as bv64) | ((ReadU32(bytes, at + 4) as bv64) << 32)
  }

  function Le32(w: bv32): (r: seq<bv8>)
    ensures |r| == 4
  {
    [(w & 0xff) as bv8, ((w >> 8) & 0xff) as bv8, ((w >> 16) & 0xff) as bv8, ((w >> 24) & 0xff) as bv8]
  }

  function Le64(w: bv64): (r: seq<bv8>)
    ensures |r| == 8
  {
    Le32((w & 0xffff_ffff) as bv32) + Le32((w >> 32) as bv32)
  }

  lemma Le32Reads(bytes: seq<bv8>, at: nat)
    requires at + 4 <= |bytes|
    ensures Le32(ReadU32(bytes, at)) == bytes[at..at + 4]
  {
  }

  lemma Le64Reads(bytes: seq<bv8>, at: nat)
    requires at + 8 <= |bytes|
    ensures Le64(ReadU64(bytes, at)) == bytes[at..at + 8]
  {
    Le32Reads(bytes, at);
    Le32Reads(bytes, at + 4);
  }
}
