/**
 What the generated getters and setters do: they agree with the layout's meaning, undo each
 other, and touch no other bit.
 */
module CodegenCorrect {
  import opened Bits
  import opened SignalLayout
  import opened SignalDecoder
  import opened SignalCodegen

  /** The signal fits the frame and the 32-bit `int` the generated code computes with. */
  predicate Compilable(l: Layout, n: nat) {
    Fits(l, n) && l.bitLen <= 32
  }

  function Idx(i: nat): nat { Min(i, 31) }

  lemma Int32Bit(x: int, i: nat)
    ensures Bit(Int32(x), i) <==> Bit(x, Idx(i))
  {
    SignExtBit(x, 32, i);
  }

  // ----- the getter

  /** Bits of `(data[b] & mask) << (position - rotate)`, or the matching right shift. */
  lemma TermBit(b: nat, lo: nat, hi: nat, place: nat, s: Store, i: nat)
    requires b < |s.data| && lo <= hi <= 7
    ensures var k := Idx(i) - place + lo;
            Bit(Eval(EmitTerm(b, Mask(lo, hi), place, lo), s), i) <==> lo <= k <= hi && Bit(s.data[b], k)
  {
    var x := And(s.data[b], Mask(lo, hi));
    assert Eval(DataE(b), s) == s.data[b] && Eval(Lit(Mask(lo, hi)), s) == Mask(lo, hi);
    assert Eval(AndE(DataE(b), Lit(Mask(lo, hi))), s) == x;
    forall k: nat ensures Bit(x, k) <==> lo <= k <= hi && Bit(s.data[b], k) {
      AndBit(s.data[b], Mask(lo, hi), k);
      MaskHasBit(lo, hi, k);
    }
    if place > lo {
      Int32Bit(Shl(x, place - lo), i);
      ShlBit(x, place - lo, Idx(i));
    } else {
      if place < lo { ShrBit(x, lo - place, i); }
    }
  }

  /** A term holds exactly the places whose bits lie in its byte. */
  lemma TermPlaces(l: Layout, s: Store, b: nat, i: nat)
    requires Compilable(l, |s.data|) && InBytes(l, b)
    ensures Bit(Eval(Term(l, b), s), i) <==>
            HasPlace(l, s.data, Idx(i)) && SigBit(l, Idx(i)) / 8 == b
  {
    SliceOfByte(l, b);
    TermBit(b, Lo(l, b), Hi(l, b), Place(l, b), s, i);
    var j := Idx(i) - Place(l, b) + Lo(l, b);
    if Lo(l, b) <= j <= Hi(l, b) {
      SliceBit(l, b, j);
      assert (8 * b + j) / 8 == b && (8 * b + j) % 8 == j;
    }
    if Idx(i) < l.bitLen { PlaceInSlice(l, Idx(i)); }
  }

  function Term(l: Layout, b: nat): Expr
    requires l.bitLen >= 1 && InBytes(l, b)
  {
    SliceOfByte(l, b);
    EmitTerm(b, Mask(Lo(l, b), Hi(l, b)), Place(l, b), Lo(l, b))
  }

  lemma SumSplit(l: Layout, s: Store, b: nat)
    requires l.bitLen >= 1 && InBytes(l, b)
    ensures TermsTo(l, b) != []
    ensures b == StartByte(l) ==> Eval(Sum(TermsTo(l, b)), s) == Eval(Term(l, b), s)
    ensures b > StartByte(l) ==> TermsTo(l, b - 1) != []
    ensures b > StartByte(l) ==>
      Eval(Sum(TermsTo(l, b)), s) == Int32(Eval(Sum(TermsTo(l, b - 1)), s) + Eval(Term(l, b), s))
  {
    var all := TermsTo(l, b);
    if b == StartByte(l) {
      assert TermsTo(l, b - 1) == [];
      assert all == [Term(l, b)];
    } else {
      var before := TermsTo(l, b - 1);
      assert before != [];
      assert all[..|all| - 1] == before;
      assert Sum(all) == AddE(Sum(before), Term(l, b));
    }
  }

  lemma WrappedSumBit(x: int, y: int, i: nat)
    requires forall j: nat :: !(Bit(x, j) && Bit(y, j))
    ensures Bit(Int32(x + y), i) <==> Bit(x, Idx(i)) || Bit(y, Idx(i))
  {
    Int32Bit(x + y, i);
    AddBit(x, y, Idx(i));
  }

  /** After the terms of bytes up to `b`, the sum holds exactly the places in those bytes. */
  lemma {:induction false} SumPlaces(l: Layout, s: Store, b: nat, i: nat)
    requires Compilable(l, |s.data|) && InBytes(l, b)
    ensures TermsTo(l, b) != []
    ensures Bit(Eval(Sum(TermsTo(l, b)), s), i) <==> HasPlace(l, s.data, Idx(i)) && SigBit(l, Idx(i)) / 8 <= b
    decreases b
  {
    SumSplit(l, s, b);
    if b == StartByte(l) {
      TermPlaces(l, s, b, i);
      if Idx(i) < l.bitLen { PlaceInSlice(l, Idx(i)); }
    } else {
      var x, y := Eval(Sum(TermsTo(l, b - 1)), s), Eval(Term(l, b), s);
      forall j: nat ensures !(Bit(x, j) && Bit(y, j)) {
        SumPlaces(l, s, b - 1, j);
        TermPlaces(l, s, b, j);
      }
      WrappedSumBit(x, y, i);
      SumPlaces(l, s, b - 1, Idx(i));
      TermPlaces(l, s, b, Idx(i));
    }
  }

  lemma SumIsRaw(l: Layout, s: Store)
    requires Compilable(l, |s.data|)
    ensures TermsTo(l, EndByte(l)) != []
    ensures Eval(Sum(TermsTo(l, EndByte(l))), s) == Int32(Raw(l, s.data))
  {
    FirstByte(l);
    SumPlaces(l, s, EndByte(l), 0);
    var x := Eval(Sum(TermsTo(l, EndByte(l))), s);
    forall i: nat ensures Bit(x, i) <==> Bit(Int32(Raw(l, s.data)), i) {
      SumPlaces(l, s, EndByte(l), i);
      Int32Bit(Raw(l, s.data), i);
      RawBit(l, s.data, Idx(i));
      if Idx(i) < l.bitLen { PlaceInSlice(l, Idx(i)); }
    }
    SameBits(x, Int32(Raw(l, s.data)));
  }

  /** The getter is C++ unless the layout is a signed big-endian one below 32 bits. */
  predicate GetterParses(l: Layout) {
    !(l.bigEndian && NeedsSignStep(l))
  }

  /** A 32-bit unsigned signal comes back as an `int`; every other signal as its value. */
  function GetterResult(l: Layout, f: Frame): int
    requires Fits(l, |f|)
  {
    if l.bitLen == 32 then Int32(Raw(l, f)) else Value(l, f)
  }

  lemma GetterParsesIff(l: Layout)
    requires Fits(l, MAX_FRAME)
    ensures Parse(GetterCode(l)).Some? <==> GetterParses(l)
  {
    FirstByte(l);
  }

  /** A parsed getter returns the signal's value on every frame. */
  lemma {:induction false} GetterReturnsValue(l: Layout, f: Frame, v: int)
    requires Compilable(l, |f|) && GetterParses(l)
    ensures Parse(GetterCode(l)).Some?
    ensures Eval(Parse(GetterCode(l)).value, Store(f, v)) == GetterResult(l, f)
  {
    var s := Store(f, v);
    SumIsRaw(l, s);
    RawRange(l, f, l.bitLen);
    if l.bitLen < 32 {
      ShortRawFitsWord(l, f, 32);
      if l.signed { SignStep(l, s, Sum(TermsTo(l, EndByte(l)))); }
    }
  }

  lemma SignStep(l: Layout, s: Store, sum: Expr)
    requires Compilable(l, |s.data|) && l.bitLen < 32
    requires Eval(sum, s) == Raw(l, s.data)
    ensures var weight := ShlE(Lit(1), l.bitLen - 1);
            Eval(SubE(XorE(sum, weight), weight), s) == SignExt(Raw(l, s.data), l.bitLen)
  {
    var raw, weight := Raw(l, s.data), ShlE(Lit(1), l.bitLen - 1);
    RawRange(l, s.data, l.bitLen);
    WeightIsPower(l, s);
    assert Eval(XorE(sum, weight), s) == Xor(raw, Pow2(l.bitLen - 1));
    XorSubtractExtends(raw, l.bitLen);
    ExtendedIsInt32(raw, l.bitLen);
  }

  lemma ExtendedIsInt32(x: int, len: nat)
    requires 1 <= len <= 32
    ensures Int32(SignExt(x, len)) == SignExt(x, len)
  {
    SignExtMeaning(x, len);
    Pow2Mono(len - 1, 31);
    SignExtOfSmall(SignExt(x, len), 32);
  }

  lemma WeightIsPower(l: Layout, s: Store)
    requires 1 <= l.bitLen < 32
    ensures Eval(ShlE(Lit(1), l.bitLen - 1), s) == Shl(1, l.bitLen - 1) == Pow2(l.bitLen - 1)
  {
    ShlIsMul(1, l.bitLen - 1);
    Pow2Mono(l.bitLen, 31);
    SignExtOfSmall(Pow2(l.bitLen - 1), 32);
  }

  /**
   Compiled and interpreted decoding agree on every frame exactly when the signal is shorter than
   32 bits, or is a signed 32-bit signal decoded in 32-bit words.
   */
  lemma CompiledAgreesWithInterpreted(l: Layout, n: nat, word: nat)
    requires Compilable(l, n) && GetterParses(l) && word >= 32
    ensures Parse(GetterCode(l)).Some?
    ensures (l.bitLen < 32 || (l.signed && word == 32)) <==>
      forall f: Frame :: |f| == n ==> Eval(Parse(GetterCode(l)).value, Store(f, 0)) == Interpreted(l, f, word)
  {
    GetterParsesIff(l);
    if l.bitLen < 32 || (l.signed && word == 32) {
      forall f: Frame | |f| == n
        ensures Eval(Parse(GetterCode(l)).value, Store(f, 0)) == Interpreted(l, f, word)
      {
        GetterReturnsValue(l, f, 0);
        ExactLayoutDecodes(l, f, word);
      }
    } else {
      var f := TopBitFrame(l, n);
      GetterReturnsValue(l, f, 0);
      TopBitDisagrees(l, n, word);
      assert |f| == n;
    }
  }

  /** On a 32-bit signal whose top bit is set the getter's `int` is negative, the raw word is not. */
  lemma TopBitDisagrees(l: Layout, n: nat, word: nat)
    requires Compilable(l, n) && word >= 32 && l.bitLen == 32 && !(l.signed && word == 32)
    ensures GetterResult(l, TopBitFrame(l, n)) < 0 < Interpreted(l, TopBitFrame(l, n), word)
  {
    TopBitFrameValue(l, n);
    PowerWraps(l.bitLen);
    PowerStays(l.bitLen, word);
  }

  lemma PowerWraps(w: nat)
    requires w >= 1
    ensures SignExt(Pow2(w - 1), w) < 0
  {
    SignExtMeaning(Pow2(w - 1), w);
    Pow2Bit(w - 1, w - 1);
    LowOfSmall(Pow2(w - 1), w);
  }

  lemma PowerStays(w: nat, word: nat)
    requires word >= w >= 1
    ensures Low(Pow2(w - 1), word) == Pow2(w - 1)
    ensures word > w ==> SignExt(Pow2(w - 1), word) == Pow2(w - 1)
  {
    Pow2Mono(w, word);
    LowOfSmall(Pow2(w - 1), word);
    if word > w {
      Pow2Mono(w, word - 1);
      SignExtOfSmall(Pow2(w - 1), word);
    }
  }

  // ----- the setter

  /** The C expression `(value >> position) << rotate`, with the shifts by zero left out. */
  lemma ShiftedValueBit(v: int, position: nat, rotate: nat, i: nat)
    requires i < 8
    ensures Bit(Int32(Shl(Shr(v, position), rotate)), i) <==> i >= rotate && Bit(v, position + i - rotate)
    ensures Bit(Int32(Shl(v, rotate)), i) <==> i >= rotate && Bit(v, i - rotate)
    ensures Bit(Shr(v, position), i) <==> Bit(v, position + i)
  {
    Int32Bit(Shl(Shr(v, position), rotate), i);
    ShlBit(Shr(v, position), rotate, i);
    if i >= rotate { ShrBit(v, position, i - rotate); }
    Int32Bit(Shl(v, rotate), i);
    ShlBit(v, rotate, i);
    ShrBit(v, position, i);
  }

  /** The value part of an emitted store. */
  function Moved(v: int, position: nat, rotate: nat): int {
    if rotate == 0 then if position == 0 then v else Shr(v, position)
    else if position == 0 then Int32(Shl(v, rotate)) else Int32(Shl(Shr(v, position), rotate))
  }

  lemma MovedEval(s: Store, position: nat, rotate: nat)
    ensures Eval(ValueE, s) == s.value
    ensures Eval(ShrE(ValueE, position), s) == Shr(s.value, position)
    ensures Eval(ShlE(ValueE, rotate), s) == Int32(Shl(s.value, rotate))
    ensures Eval(ShlE(ShrE(ValueE, position), rotate), s) == Int32(Shl(Shr(s.value, position), rotate))
  {
    assert Eval(ValueE, s) == s.value;
    assert Eval(ShrE(ValueE, position), s) == Shr(s.value, position);
  }

  lemma MergeEval(s: Store, b: nat, keep: int, put: int, e: Expr)
    requires b < |s.data|
    ensures Eval(OrE(AndE(Lit(keep), DataE(b)), AndE(Lit(put), e)), s) ==
            Or(And(keep, s.data[b]), And(put, Eval(e, s)))
    ensures Eval(AndE(e, Lit(255)), s) == And(Eval(e, s), 255)
  {
    assert Eval(Lit(keep), s) == keep && Eval(Lit(put), s) == put && Eval(DataE(b), s) == s.data[b];
    assert Eval(AndE(Lit(keep), DataE(b)), s) == And(keep, s.data[b]);
    assert Eval(AndE(Lit(put), e), s) == And(put, Eval(e, s));
  }

  /** The value operand of an emitted store. */
  function MovedExpr(position: nat, rotate: nat): Expr {
    if rotate == 0 then if position == 0 then ValueE else ShrE(ValueE, position)
    else if position == 0 then ShlE(ValueE, rotate) else ShlE(ShrE(ValueE, position), rotate)
  }

  lemma EmitStoreShape(b: nat, mask: int, rotate: nat, position: nat)
    ensures EmitStore(b, mask, rotate, position) == SetData(b,
      if mask == 255 then AndE(MovedExpr(position, rotate), Lit(255))
      else OrE(AndE(Lit(And(-1 - mask, 255)), DataE(b)), AndE(Lit(And(mask, 255)), MovedExpr(position, rotate))))
  {
  }

  lemma EmitStoreEval(b: nat, mask: int, rotate: nat, position: nat, s: Store)
    requires b < |s.data|
    ensures EmitStore(b, mask, rotate, position).SetData? && EmitStore(b, mask, rotate, position).index == b
    ensures Eval(EmitStore(b, mask, rotate, position).rhs, s) ==
      if mask == 255 then And(Moved(s.value, position, rotate), 255)
      else Or(And(And(-1 - mask, 255), s.data[b]), And(And(mask, 255), Moved(s.value, position, rotate)))
  {
    EmitStoreShape(b, mask, rotate, position);
    MovedEval(s, position, rotate);
    MergeEval(s, b, And(-1 - mask, 255), And(mask, 255), MovedExpr(position, rotate));
  }

  lemma ByteMaskBit(i: nat)
    ensures Bit(255, i) <==> i < 8
  {
    ShiftedOnesBit(0, i);
  }

  /** One emitted store puts the value's bits in the slice and keeps the rest of the byte. */
  lemma StoreBit(b: nat, lo: nat, hi: nat, place: nat, s: Store, i: nat)
    requires b < |s.data| && lo <= hi <= 7 && i < 8
    ensures EmitStore(b, Mask(lo, hi), lo, place).SetData?
    ensures Bit(Eval(EmitStore(b, Mask(lo, hi), lo, place).rhs, s), i) <==>
      if lo <= i <= hi then Bit(s.value, place + i - lo) else Bit(s.data[b], i)
  {
    var mask, v := Mask(lo, hi), Moved(s.value, place, lo);
    EmitStoreEval(b, mask, lo, place, s);
    assert Bit(v, i) <==> i >= lo && Bit(s.value, place + i - lo) by {
      ShiftedValueBit(s.value, place, lo, i);
    }
    ByteMaskBit(i);
    MaskHasBit(lo, hi, i);
    if mask == 255 {
      AndBit(v, 255, i);
    } else {
      StoreMergeBit(mask, s.data[b], v, i);
    }
  }

  lemma StoreMergeBit(mask: int, old_: int, v: int, i: nat)
    requires i < 8
    ensures Bit(Or(And(And(-1 - mask, 255), old_), And(And(mask, 255), v)), i) <==>
      if Bit(mask, i) then Bit(v, i) else Bit(old_, i)
  {
    var keep, put := And(-1 - mask, 255), And(mask, 255);
    assert Bit(keep, i) <==> !Bit(mask, i) by {
      AndBit(-1 - mask, 255, i);
      NotBit(mask, i);
      ByteMaskBit(i);
    }
    assert Bit(put, i) <==> Bit(mask, i) by {
      AndBit(mask, 255, i);
      ByteMaskBit(i);
    }
    OrBit(And(keep, old_), And(put, v), i);
    AndBit(keep, old_, i);
    AndBit(put, v, i);
  }

  predicate InSlice(l: Layout, p: nat)
    requires l.bitLen >= 1
  {
    InBytes(l, p / 8) && Lo(l, p / 8) <= p % 8 <= Hi(l, p / 8)
  }

  /** The store after the emitted stores of bytes up to `b`. */
  function Stored(l: Layout, s: Store, b: int): Store
    requires l.bitLen >= 1 && b <= EndByte(l)
    decreases b - StartByte(l)
  {
    if b < StartByte(l) then s
    else
      SliceOfByte(l, b);
      Step(EmitStore(b, Mask(Lo(l, b), Hi(l, b)), Lo(l, b), Place(l, b)), Stored(l, s, b - 1))
  }

  lemma {:induction false} RunIsStored(l: Layout, s: Store, b: int)
    requires l.bitLen >= 1 && b <= EndByte(l)
    ensures Run(StoresTo(l, b), s) == Stored(l, s, b)
    decreases b - StartByte(l)
  {
    if b >= StartByte(l) {
      assert StoresTo(l, b)[..|StoresTo(l, b - 1)|] == StoresTo(l, b - 1);
      RunIsStored(l, s, b - 1);
    }
  }

  /** One emitted store seen as a change of frame bits. */
  lemma StoreStepBit(b: nat, lo: nat, hi: nat, place: nat, s: Store, p: nat)
    requires b < |s.data| && lo <= hi <= 7 && p < 8 * |s.data|
    ensures var r := Step(EmitStore(b, Mask(lo, hi), lo, place), s);
      |r.data| == |s.data| && r.value == s.value &&
      (FrameBit(r.data, p) <==>
        if p / 8 == b && lo <= p % 8 <= hi then Bit(s.value, place + p % 8 - lo) else FrameBit(s.data, p))
  {
    var store := EmitStore(b, Mask(lo, hi), lo, place);
    StoreBit(b, lo, hi, place, s, p % 8);
    EmitStoreShape(b, Mask(lo, hi), lo, place);
    LowBit(Eval(store.rhs, s), 8, p % 8);
  }

  /** Exponent of the place held by frame bit `p` of the signal. */
  function PlaceAt(l: Layout, p: nat): (r: nat)
    requires l.bitLen >= 1 && InSlice(l, p)
    ensures r < l.bitLen && SigBit(l, r) == p
  {
    SliceBit(l, p / 8, p % 8);
    Place(l, p / 8) + p % 8 - Lo(l, p / 8)
  }

  /** Frame bit `p` after the bytes up to `b` were written from `v`. */
  predicate BitAfter(l: Layout, f: Frame, v: int, b: int, p: nat)
    requires l.bitLen >= 1 && p < 8 * |f|
  {
    if InSlice(l, p) && p / 8 <= b then Bit(v, PlaceAt(l, p)) else FrameBit(f, p)
  }

  lemma BitAfterStep(l: Layout, f: Frame, v: int, b: nat, p: nat)
    requires l.bitLen >= 1 && InBytes(l, b) && p < 8 * |f|
    ensures 0 <= Lo(l, b) <= Hi(l, b) <= 7 && Place(l, b) >= 0
    ensures BitAfter(l, f, v, b, p) <==>
      if p / 8 == b && Lo(l, b) <= p % 8 <= Hi(l, b)
      then Bit(v, Place(l, b) + p % 8 - Lo(l, b))
      else BitAfter(l, f, v, b - 1, p)
  {
    SliceOfByte(l, b);
  }

  lemma StoresBitStep(l: Layout, f: Frame, v: int, b: nat, p: nat, before: Store)
    requires l.bitLen >= 1 && InBytes(l, b) && b < |f| && p < 8 * |f|
    requires |before.data| == |f| && before.value == v
    requires FrameBit(before.data, p) <==> BitAfter(l, f, v, b - 1, p)
    ensures 0 <= Lo(l, b) <= Hi(l, b) <= 7 && Place(l, b) >= 0
    ensures var r := Step(EmitStore(b, Mask(Lo(l, b), Hi(l, b)), Lo(l, b), Place(l, b)), before);
            |r.data| == |f| && r.value == v && (FrameBit(r.data, p) <==> BitAfter(l, f, v, b, p))
  {
    BitAfterStep(l, f, v, b, p);
    StoreStepBit(b, Lo(l, b), Hi(l, b), Place(l, b), before, p);
  }

  /** The stores of bytes up to `b` write exactly the slices of those bytes. */
  lemma {:induction false} StoresBit(l: Layout, s: Store, b: int, p: nat)
    requires Compilable(l, |s.data|) && StartByte(l) - 1 <= b <= EndByte(l) && p < 8 * |s.data|
    ensures |Stored(l, s, b).data| == |s.data| && Stored(l, s, b).value == s.value
    ensures FrameBit(Stored(l, s, b).data, p) <==> BitAfter(l, s.data, s.value, b, p)
    decreases b - StartByte(l)
  {
    if b >= StartByte(l) {
      StoresBit(l, s, b - 1, p);
      StoresBitStep(l, s.data, s.value, b, p, Stored(l, s, b - 1));
    }
  }

  lemma {:induction false} RunPrefix(first: Stmt, rest: seq<Stmt>, s: Store)
    ensures Run([first] + rest, s) == Run(rest, Step(first, s))
  {
    var all := [first] + rest;
    if rest == [] {
      assert all == [first];
      assert Run(all[..0], s) == s;
    } else {
      assert all[..|all| - 1] == [first] + rest[..|rest| - 1];
      RunPrefix(first, rest[..|rest| - 1], s);
    }
  }

  /** Adding `2^k` flips bit `k` and leaves the bits below. */
  lemma {:induction false} AddWeightBit(x: int, k: nat, i: nat)
    requires i <= k
    ensures Bit(x + Pow2(k), i) <==> (Bit(x, i) != (i == k))
    decreases k
  {
    if k > 0 && i > 0 {
      assert (x + Pow2(k)) / 2 == x / 2 + Pow2(k - 1);
      AddWeightBit(x / 2, k - 1, i - 1);
    }
  }

  /** The sign step at the start of a setter keeps the bits that are going to be stored. */
  lemma SignPrefixEval(l: Layout, s: Store)
    requires 1 <= l.bitLen < 32 && l.signed
    ensures Step(SignPrefix(l)[0], s) ==
            s.(value := Int32(Xor(Int32(s.value + Pow2(l.bitLen - 1)), Pow2(l.bitLen - 1))))
  {
    var weight := ShlE(Lit(1), l.bitLen - 1);
    WeightIsPower(l, s);
    assert Eval(ValueE, s) == s.value;
    assert Eval(AddE(ValueE, weight), s) == Int32(s.value + Pow2(l.bitLen - 1));
  }

  lemma SignPrefixBit(l: Layout, s: Store, i: nat)
    requires 1 <= l.bitLen < 32 && l.signed && i < l.bitLen
    ensures Step(SignPrefix(l)[0], s).data == s.data
    ensures Bit(Step(SignPrefix(l)[0], s).value, i) <==> Bit(s.value, i)
  {
    var k := l.bitLen - 1;
    var w := Pow2(k);
    SignPrefixEval(l, s);
    var sum := Int32(s.value + w);
    Int32Bit(Xor(sum, w), i);
    XorBit(sum, w, i);
    Pow2Bit(k, i);
    Int32Bit(s.value + w, i);
    AddWeightBit(s.value, k, i);
  }

  /** The frame a generated setter leaves. */
  function SetSignal(l: Layout, f: Frame, v: int): Frame
    requires l.bitLen >= 1
  {
    Run(SetterCode(l), Store(f, v)).data
  }

  lemma SetSignalBit(l: Layout, f: Frame, v: int, p: nat)
    requires Compilable(l, |f|) && p < 8 * |f|
    ensures |SetSignal(l, f, v)| == |f|
    ensures FrameBit(SetSignal(l, f, v), p) <==> BitAfter(l, f, v, EndByte(l), p)
  {
    FirstByte(l);
    var s, stores := Store(f, v), StoresTo(l, EndByte(l));
    if NeedsSignStep(l) {
      var prefix := SignPrefix(l)[0];
      RunPrefix(prefix, stores, s);
      assert SetterCode(l) == [prefix] + stores;
      var t := Step(prefix, s);
      SignPrefixBit(l, s, if InSlice(l, p) then PlaceAt(l, p) else 0);
      RunIsStored(l, t, EndByte(l));
      StoresBit(l, t, EndByte(l), p);
    } else {
      assert SetterCode(l) == stores;
      RunIsStored(l, s, EndByte(l));
      StoresBit(l, s, EndByte(l), p);
    }
  }

  /** A setter stores the value's bits at the signal's places and leaves every other bit alone. */
  lemma SetterWritesSignal(l: Layout, f: Frame, v: int)
    requires Compilable(l, |f|)
    ensures |SetSignal(l, f, v)| == |f|
    ensures Raw(l, SetSignal(l, f, v)) == Low(v, l.bitLen)
    ensures forall p: nat :: p < 8 * |f| && !Covers(l, p) ==>
      (FrameBit(SetSignal(l, f, v), p) <==> FrameBit(f, p))
  {
    var g := SetSignal(l, f, v);
    SigBitInFrame(l, 0, |f|);
    SetSignalBit(l, f, v, SigBit(l, 0));
    forall i: nat ensures Bit(Raw(l, g), i) <==> Bit(Low(v, l.bitLen), i) {
      SetterPlace(l, f, v, i);
    }
    SameBits(Raw(l, g), Low(v, l.bitLen));
    forall p: nat | p < 8 * |f| && !Covers(l, p) ensures FrameBit(g, p) <==> FrameBit(f, p) {
      CoversIffInSlice(l, p);
      SetSignalBit(l, f, v, p);
    }
  }

  lemma SetterPlace(l: Layout, f: Frame, v: int, i: nat)
    requires Compilable(l, |f|) && |SetSignal(l, f, v)| == |f|
    ensures Bit(Raw(l, SetSignal(l, f, v)), i) <==> Bit(Low(v, l.bitLen), i)
  {
    RawBit(l, SetSignal(l, f, v), i);
    LowBit(v, l.bitLen, i);
    if i < l.bitLen {
      var p := SigBit(l, i);
      SigBitInFrame(l, i, |f|);
      PlaceInSlice(l, i);
      SigBitInjective(l, PlaceAt(l, p), i);
      SetSignalBit(l, f, v, p);
    }
  }

  // ----- setter and getter undo each other

  /** `v` modulo `2^bitLen`, in the range of the signal. */
  function Representable(l: Layout, v: int): int
    requires l.bitLen >= 1
  {
    if l.signed then SignExt(v, l.bitLen) else Low(v, l.bitLen)
  }

  predicate InRange(l: Layout, v: int)
    requires l.bitLen >= 1
  {
    if l.signed then -Pow2(l.bitLen - 1) <= v < Pow2(l.bitLen - 1) else 0 <= v < Pow2(l.bitLen)
  }

  /** After the setter the signal stands for the value modulo `2^bitLen`, in either byte order. */
  lemma SetThenValue(l: Layout, f: Frame, v: int)
    requires Compilable(l, |f|)
    ensures |SetSignal(l, f, v)| == |f|
    ensures Value(l, SetSignal(l, f, v)) == Representable(l, v)
    ensures InRange(l, v) ==> Value(l, SetSignal(l, f, v)) == v
  {
    SetterWritesSignal(l, f, v);
    if l.signed {
      SignExtLow(v, l.bitLen);
      if InRange(l, v) { SignExtOfSmall(v, l.bitLen); }
    } else if InRange(l, v) {
      LowOfSmall(v, l.bitLen);
    }
  }

  /** Running the generated setter and then the generated getter returns the value. */
  lemma SetThenGet(l: Layout, f: Frame, v: int)
    requires Compilable(l, |f|) && GetterParses(l)
    ensures Parse(GetterCode(l)).Some?
    ensures var got := Eval(Parse(GetterCode(l)).value, Run(SetterCode(l), Store(f, v)));
      (l.bitLen < 32 ==> got == Representable(l, v)) &&
      (l.bitLen == 32 ==> got == Int32(v)) &&
      (l.bitLen < 32 && InRange(l, v) ==> got == v)
  {
    SetThenValue(l, f, v);
    var s := Run(SetterCode(l), Store(f, v));
    GetterReturnsValue(l, s.data, s.value);
    if l.bitLen == 32 {
      SetterWritesSignal(l, f, v);
      SignExtLow(v, 32);
    }
  }

  /** Writing back the value a signal has changes nothing. */
  lemma {:induction false} GetThenSet(l: Layout, f: Frame)
    requires Compilable(l, |f|)
    ensures SetSignal(l, f, Value(l, f)) == f
  {
    var g := SetSignal(l, f, Value(l, f));
    SetterWritesSignal(l, f, Value(l, f));
    RawRange(l, f, l.bitLen);
    LowOfSmall(Raw(l, f), l.bitLen);
    if l.signed { SignExtLow(Raw(l, f), l.bitLen); }
    assert Raw(l, g) == Raw(l, f);
    forall p: nat | p < 8 * |f| ensures FrameBit(g, p) <==> FrameBit(f, p) {
      if Covers(l, p) {
        var i: nat :| i < l.bitLen && SigBit(l, i) == p;
        RawBit(l, f, i);
        RawBit(l, g, i);
      }
    }
    SameFrames(g, f);
  }
}
