/**
 Where the arithmetic of the generated code leaves the range of `int`. `Eval` wraps around there, which C++ does
 not promise: these are the inputs on which it makes no difference.
 */
module CodegenOverflow {
  import opened Bits
  import opened SignalLayout
  import opened SignalDecoder
  import opened SignalCodegen
  import opened CodegenCorrect

  predicate IsInt(x: int) { -Pow2(31) <= x < Pow2(31) }

  /** No addition, subtraction or left shift in the expression overflows, and no negative number is shifted left. */
  predicate Safe(e: Expr, s: Store) {
    match e
    case ValueE => true
    case DataE(_) => true
    case Lit(_) => true
    case AndE(l, r) => Safe(l, s) && Safe(r, s)
    case OrE(l, r) => Safe(l, s) && Safe(r, s)
    case XorE(l, r) => Safe(l, s) && Safe(r, s)
    case AddE(l, r) => Safe(l, s) && Safe(r, s) && IsInt(Eval(l, s) + Eval(r, s))
    case SubE(l, r) => Safe(l, s) && Safe(r, s) && IsInt(Eval(l, s) - Eval(r, s))
    case ShlE(a, k) => Safe(a, s) && Eval(a, s) >= 0 && IsInt(Shl(Eval(a, s), k))
    case ShrE(a, _) => Safe(a, s)
  }

  /** The frame does not have the top bit of a 32-bit signal set. */
  predicate TopFree(l: Layout, f: Frame) {
    l.bitLen < 32 || !HasPlace(l, f, 31)
  }

  lemma SmallIfClear(x: int)
    requires forall i: nat :: i >= 31 ==> !Bit(x, i)
    ensures 0 <= x < Pow2(31)
  {
    forall i: nat ensures Bit(x, i) <==> Bit(Low(x, 31), i) { LowBit(x, 31, i); }
    SameBits(x, Low(x, 31));
  }

  lemma LargeIfSet(x: int)
    requires Bit(x, 31) && x >= 0
    ensures x >= Pow2(31)
  {
    if x < Pow2(31) { HighBitsZero(x, 31, 31); }
  }

  lemma SliceShiftBit(x: Byte, lo: nat, hi: nat, k: nat, i: nat)
    requires lo <= hi <= 7
    ensures Bit(Shl(And(x, Mask(lo, hi)), k), i) <==> i >= k && lo <= i - k <= hi && Bit(x, i - k)
  {
    ShlBit(And(x, Mask(lo, hi)), k, i);
    if i >= k {
      AndBit(x, Mask(lo, hi), i - k);
      MaskHasBit(lo, hi, i - k);
    }
  }

  /** The bits of a byte's slice are places below the length. */
  lemma SlicePlaces(l: Layout, s: Store, b: nat, j: nat)
    requires Compilable(l, |s.data|) && InBytes(l, b)
    ensures 0 <= Lo(l, b) <= Hi(l, b) <= 7 && Place(l, b) >= 0 && b < |s.data|
    ensures Lo(l, b) <= j <= Hi(l, b) ==>
      var i := Place(l, b) + j - Lo(l, b); 0 <= i < l.bitLen && (HasPlace(l, s.data, i) <==> Bit(s.data[b], j))
  {
    SliceOfByte(l, b);
    if Lo(l, b) <= j <= Hi(l, b) {
      SliceBit(l, b, j);
      assert (8 * b + j) / 8 == b && (8 * b + j) % 8 == j;
    }
  }

  lemma MaskedByte(x: Byte, lo: nat, hi: nat)
    requires lo <= hi <= 7
    ensures And(x, Mask(lo, hi)) >= 0
  {
    var y := And(x, Mask(lo, hi));
    forall i: nat | i >= 31 ensures !Bit(y, i) {
      AndBit(x, Mask(lo, hi), i);
      ByteBit(x, i);
    }
    SmallIfClear(y);
  }

  lemma TermRange(l: Layout, s: Store, b: nat)
    requires Compilable(l, |s.data|) && InBytes(l, b) && TopFree(l, s.data)
    ensures 0 <= Eval(Term(l, b), s) < Pow2(31)
  {
    forall i: nat | i >= 31 ensures !Bit(Eval(Term(l, b), s), i) { TermPlaces(l, s, b, i); }
    SmallIfClear(Eval(Term(l, b), s));
  }

  lemma TermIsShift(l: Layout, b: nat)
    requires l.bitLen >= 1 && InBytes(l, b)
    ensures 0 <= Lo(l, b) <= Hi(l, b) <= 7 && Place(l, b) >= 0
    ensures var e, k := AndE(DataE(b), Lit(Mask(Lo(l, b), Hi(l, b)))), Place(l, b) - Lo(l, b);
      Term(l, b) == if k > 0 then ShlE(e, k) else if k < 0 then ShrE(e, -k) else e
  {
    SliceOfByte(l, b);
  }

  lemma TermIsSafe(l: Layout, s: Store, b: nat)
    requires Compilable(l, |s.data|) && InBytes(l, b) && TopFree(l, s.data)
    ensures Safe(Term(l, b), s)
  {
    TermIsShift(l, b);
    var lo, hi, k := Lo(l, b), Hi(l, b), Place(l, b) - Lo(l, b);
    SlicePlaces(l, s, b, 0);
    if k > 0 {
      forall j: nat | lo <= j <= hi ensures j + k > 31 || (j + k == 31 && Bit(s.data[b], j)) ==> false {
        SlicePlaces(l, s, b, j);
      }
      SafeShift(s, b, lo, hi, k);
    }
  }

  lemma ShiftSafeIff(e: Expr, k: nat, s: Store, x: int)
    requires Eval(e, s) == x >= 0 && Safe(e, s)
    ensures Safe(ShlE(e, k), s) <==> IsInt(Shl(x, k))
  {
  }

  lemma SliceEval(s: Store, b: nat, mask: int)
    requires b < |s.data|
    ensures Eval(AndE(DataE(b), Lit(mask)), s) == And(s.data[b], mask) && Safe(AndE(DataE(b), Lit(mask)), s)
  {
    assert Eval(DataE(b), s) == s.data[b];
  }

  lemma SafeShift(s: Store, b: nat, lo: nat, hi: nat, k: nat)
    requires b < |s.data| && lo <= hi <= 7
    requires forall j: nat :: lo <= j <= hi && Bit(s.data[b], j) ==> j + k < 31
    ensures Safe(ShlE(AndE(DataE(b), Lit(Mask(lo, hi))), k), s)
  {
    var x := And(s.data[b], Mask(lo, hi));
    MaskedByte(s.data[b], lo, hi);
    forall i: nat | i >= 31 ensures !Bit(Shl(x, k), i) { SliceShiftBit(s.data[b], lo, hi, k, i); }
    SmallIfClear(Shl(x, k));
    SliceEval(s, b, Mask(lo, hi));
    ShiftSafeIff(AndE(DataE(b), Lit(Mask(lo, hi))), k, s, x);
  }

  lemma {:induction false} ShiftedSign(x: int, k: nat)
    requires x >= 0
    ensures Shl(x, k) >= 0
  {
    if k > 0 { ShiftedSign(x, k - 1); }
  }

  lemma UnsafeShift(s: Store, b: nat, lo: nat, hi: nat, k: nat)
    requires b < |s.data| && lo <= hi <= 7 && 24 <= k <= 31 && lo <= 31 - k <= hi && Bit(s.data[b], 31 - k)
    ensures !Safe(ShlE(AndE(DataE(b), Lit(Mask(lo, hi))), k), s)
  {
    var x := And(s.data[b], Mask(lo, hi));
    MaskedByte(s.data[b], lo, hi);
    SliceShiftBit(s.data[b], lo, hi, k, 31);
    ShiftedSign(x, k);
    LargeIfSet(Shl(x, k));
    SliceEval(s, b, Mask(lo, hi));
    ShiftSafeIff(AndE(DataE(b), Lit(Mask(lo, hi))), k, s, x);
  }

  lemma NoCarryOut(x: int, y: int)
    requires 0 <= x < Pow2(31) && 0 <= y < Pow2(31) && !Bit(Int32(x + y), 31)
    ensures IsInt(x + y)
  {
    if x + y >= Pow2(31) {
      Int32Bit(x + y, 31);
      TopBitOfLarge(x + y);
    }
  }

  lemma TopBitOfLarge(z: int)
    requires Pow2(31) <= z < 2 * Pow2(31)
    ensures Bit(z, 31)
  {
    if !Bit(z, 31) {
      forall i: nat | i >= 31 ensures !Bit(z, i) {
        if i > 31 { HighBitsZero(z, 32, i); }
      }
      SmallIfClear(z);
    }
  }

  lemma SumRange(l: Layout, s: Store, b: nat)
    requires Compilable(l, |s.data|) && InBytes(l, b) && TopFree(l, s.data)
    ensures TermsTo(l, b) != [] && 0 <= Eval(Sum(TermsTo(l, b)), s) < Pow2(31)
  {
    SumShape(l, b);
    var x := Eval(Sum(TermsTo(l, b)), s);
    forall i: nat | i >= 31 ensures !Bit(x, i) { SumPlaces(l, s, b, i); }
    SmallIfClear(x);
  }

  lemma SumFits(x: int, y: int)
    requires 0 <= x < Pow2(31) && 0 <= y < Pow2(31) && 0 <= Int32(x + y)
    ensures IsInt(x + y)
  {
    SignExtMeaning(x + y, 32);
    SmallTop(Int32(x + y));
    NoCarryOut(x, y);
  }

  lemma SafeSum(l: Expr, r: Expr, s: Store, x: int, y: int)
    requires Safe(l, s) && Safe(r, s) && Eval(l, s) == x && Eval(r, s) == y
    requires 0 <= x < Pow2(31) && 0 <= y < Pow2(31) && 0 <= Eval(AddE(l, r), s)
    ensures Safe(AddE(l, r), s)
  {
    assert Eval(AddE(l, r), s) == Int32(x + y);
    SumFits(x, y);
  }

  lemma SmallTop(x: int)
    requires 0 <= x < Pow2(31)
    ensures !Bit(x, 31)
  {
    HighBitsZero(x, 31, 31);
  }

  lemma {:induction false} SumIsSafe(l: Layout, s: Store, b: nat)
    requires Compilable(l, |s.data|) && InBytes(l, b) && TopFree(l, s.data)
    ensures TermsTo(l, b) != [] && Safe(Sum(TermsTo(l, b)), s)
    decreases b
  {
    SumShape(l, b);
    TermIsSafe(l, s, b);
    if b > StartByte(l) {
      SumIsSafe(l, s, b - 1);
      SumRange(l, s, b - 1);
      SumRange(l, s, b);
      TermRange(l, s, b);
      SafeSum(Sum(TermsTo(l, b - 1)), Term(l, b), s, Eval(Sum(TermsTo(l, b - 1)), s), Eval(Term(l, b), s));
    }
  }

  lemma SumShape(l: Layout, b: nat)
    requires l.bitLen >= 1 && InBytes(l, b)
    ensures TermsTo(l, b) != []
    ensures b == StartByte(l) ==> Sum(TermsTo(l, b)) == Term(l, b)
    ensures b > StartByte(l) ==>
      TermsTo(l, b - 1) != [] && Sum(TermsTo(l, b)) == AddE(Sum(TermsTo(l, b - 1)), Term(l, b))
  {
    var all := TermsTo(l, b);
    if b == StartByte(l) {
      assert TermsTo(l, b - 1) == [];
      assert all == [Term(l, b)];
    } else {
      assert all[..|all| - 1] == TermsTo(l, b - 1);
    }
  }

  /** The term that holds a set top bit shifts it into the sign. */
  lemma TopTermOverflows(l: Layout, s: Store, b: nat)
    requires Compilable(l, |s.data|) && !TopFree(l, s.data) && b == SigBit(l, 31) / 8
    ensures InBytes(l, b) && !Safe(Term(l, b), s)
  {
    PlaceInSlice(l, 31);
    var j := SigBit(l, 31) % 8;
    SlicePlaces(l, s, b, j);
    TermIsShift(l, b);
    UnsafeShift(s, b, Lo(l, b), Hi(l, b), Place(l, b) - Lo(l, b));
  }

  lemma {:induction false} UnsafeTermUnsafeSum(l: Layout, s: Store, t: nat, b: nat)
    requires Compilable(l, |s.data|) && InBytes(l, t) && InBytes(l, b) && t <= b && !Safe(Term(l, t), s)
    ensures TermsTo(l, b) != [] && !Safe(Sum(TermsTo(l, b)), s)
    decreases b
  {
    SumShape(l, b);
    if b > t { UnsafeTermUnsafeSum(l, s, t, b - 1); }
  }

  /**
   A generated getter computes without overflow on exactly the frames that do not have the top bit of a
   32-bit signal set: always, for shorter signals, sign step included.
   */
  lemma GetterSafeIff(l: Layout, f: Frame, v: int)
    requires Compilable(l, |f|) && GetterParses(l)
    ensures Parse(GetterCode(l)).Some?
    ensures Safe(Parse(GetterCode(l)).value, Store(f, v)) <==> TopFree(l, f)
  {
    var s := Store(f, v);
    FirstByte(l);
    if TopFree(l, f) {
      SumIsSafe(l, s, EndByte(l));
      if NeedsSignStep(l) { SignedGetterIsSafe(l, s, Sum(TermsTo(l, EndByte(l)))); }
    } else {
      var b := SigBit(l, 31) / 8;
      TopTermOverflows(l, s, b);
      UnsafeTermUnsafeSum(l, s, b, EndByte(l));
    }
  }

  lemma WeightIsSafe(l: Layout, s: Store)
    requires 1 <= l.bitLen < 32
    ensures Safe(ShlE(Lit(1), l.bitLen - 1), s)
  {
    ShlIsMul(1, l.bitLen - 1);
    Pow2Mono(l.bitLen, 31);
  }

  /** The sign step of a getter does not overflow. */
  lemma SignStepIsSafe(len: nat, s: Store, sum: Expr, weight: Expr)
    requires 1 <= len < 32 && Safe(sum, s) && 0 <= Eval(sum, s) < Pow2(len)
    requires Safe(weight, s) && Eval(weight, s) == Shl(1, len - 1)
    ensures Safe(SubE(XorE(sum, weight), weight), s)
  {
    ExtensionIsInt(Eval(sum, s), len);
    SafeDifference(sum, weight, s, Eval(sum, s), Shl(1, len - 1));
  }

  lemma SignedGetterIsSafe(l: Layout, s: Store, sum: Expr)
    requires Compilable(l, |s.data|) && l.bitLen < 32 && TermsTo(l, EndByte(l)) != [] && sum == Sum(TermsTo(l, EndByte(l)))
    requires Safe(sum, s)
    ensures var weight := ShlE(Lit(1), l.bitLen - 1); Safe(SubE(XorE(sum, weight), weight), s)
  {
    ShortSum(l, s, sum);
    WeightIsPower(l, s);
    WeightIsSafe(l, s);
    SignStepIsSafe(l.bitLen, s, sum, ShlE(Lit(1), l.bitLen - 1));
  }

  lemma ShortSum(l: Layout, s: Store, sum: Expr)
    requires Compilable(l, |s.data|) && l.bitLen < 32 && TermsTo(l, EndByte(l)) != [] && sum == Sum(TermsTo(l, EndByte(l)))
    ensures 0 <= Eval(sum, s) < Pow2(l.bitLen)
  {
    SumIsRaw(l, s);
    RawRange(l, s.data, l.bitLen);
    ShortIsInt(Raw(l, s.data), l.bitLen);
  }

  lemma ExtensionIsInt(raw: int, len: nat)
    requires 1 <= len <= 31 && 0 <= raw < Pow2(len)
    ensures IsInt(Xor(raw, Shl(1, len - 1)) - Shl(1, len - 1))
  {
    XorSubtractExtends(raw, len);
    SignExtMeaning(raw, len);
    Pow2Mono(len - 1, 31);
  }

  lemma ShortIsInt(x: int, len: nat)
    requires 0 <= x < Pow2(len) && len <= 31
    ensures Int32(x) == x
  {
    Pow2Mono(len, 31);
    SignExtOfSmall(x, 32);
  }

  lemma SafeDifference(sum: Expr, weight: Expr, s: Store, x: int, w: int)
    requires Safe(sum, s) && Safe(weight, s) && Eval(sum, s) == x && Eval(weight, s) == w && IsInt(Xor(x, w) - w)
    ensures Safe(SubE(XorE(sum, weight), weight), s)
  {
    assert Eval(XorE(sum, weight), s) == Xor(x, w);
  }

  /** The sign step of a setter overflows exactly for values at the very top of the range of `int`. */
  lemma SetterSignSafeIff(l: Layout, s: Store)
    requires 1 <= l.bitLen < 32 && l.signed && IsInt(s.value)
    ensures |SignPrefix(l)| == 1 && SignPrefix(l)[0].SetValue?
    ensures Safe(SignPrefix(l)[0].rhs, s) <==> s.value < Pow2(31) - Pow2(l.bitLen - 1)
    ensures InRange(l, s.value) ==> Safe(SignPrefix(l)[0].rhs, s)
  {
    WeightIsPower(l, s);
    WeightIsSafe(l, s);
    Pow2Mono(l.bitLen, 31);
    var k := l.bitLen - 1;
    SafeWithWeight(ShlE(Lit(1), k), s, Pow2(k));
  }

  lemma SafeWithWeight(weight: Expr, s: Store, w: int)
    requires Safe(weight, s) && Eval(weight, s) == w && w >= 0 && IsInt(s.value)
    ensures Safe(XorE(AddE(ValueE, weight), weight), s) <==> s.value < Pow2(31) - w
  {
    assert Eval(ValueE, s) == s.value;
    assert Safe(AddE(ValueE, weight), s) <==> IsInt(s.value + w);
  }
}
