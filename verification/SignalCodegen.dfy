/**
 The code generator dbcgen: `getCanSignalDecoder` and `getCanSignalEncoder` compile a signal
 layout to a getter and a setter. The generated C is modelled as expressions and assignments
 with the meaning C gives them for a 32-bit `int`.
 */
module SignalCodegen {
  import opened Basics
  import opened Bits
  import opened SignalLayout
  import opened SignalDecoder

  // ----- generated code and its meaning

  datatype Expr =
    | ValueE                         // static_cast<int>(value)
    | DataE(index: nat)               // static_cast<int>(data[index])
    | Lit(number: int)
    | AndE(left: Expr, right: Expr)
    | OrE(left: Expr, right: Expr)
    | XorE(left: Expr, right: Expr)
    | AddE(left: Expr, right: Expr)
    | SubE(left: Expr, right: Expr)
    | ShlE(arg: Expr, count: nat)
    | ShrE(arg: Expr, count: nat)

  datatype Stmt =
    | SetValue(rhs: Expr)
    | SetData(index: nat, rhs: Expr)

  datatype Store = Store(data: Frame, value: int)

  /** Conversion to a 32-bit `int`. */
  function Int32(x: int): int {
    SignExt(x, 32)
  }

  function Eval(e: Expr, s: Store): int {
    match e
    case ValueE => s.value
    case DataE(i) => if i < |s.data| then s.data[i] else 0
    case Lit(n) => n
    case AndE(l, r) => And(Eval(l, s), Eval(r, s))
    case OrE(l, r) => Or(Eval(l, s), Eval(r, s))
    case XorE(l, r) => Xor(Eval(l, s), Eval(r, s))
    case AddE(l, r) => Int32(Eval(l, s) + Eval(r, s))
    case SubE(l, r) => Int32(Eval(l, s) - Eval(r, s))
    case ShlE(a, k) => Int32(Shl(Eval(a, s), k))
    case ShrE(a, k) => Shr(Eval(a, s), k)
  }

  /** `uint8_t` store of an `int`. */
  function ToByte(x: int): Byte {
    Pow2Of8();
    Low(x, 8)
  }

  function Step(c: Stmt, s: Store): Store {
    match c
    case SetValue(e) => s.(value := Int32(Eval(e, s)))
    case SetData(b, e) => if b < |s.data| then s.(data := s.data[b := ToByte(Eval(e, s))]) else s
  }

  function Run(code: seq<Stmt>, s: Store): Store {
    if code == [] then s else Step(code[|code| - 1], Run(code[..|code| - 1], s))
  }

  // ----- masks

  /** Bits `lo` to `hi` set. */
  function Mask(lo: nat, hi: nat): int
    requires lo <= hi
  {
    Shl(Pow2(hi - lo + 1) - 1, lo)
  }

  lemma MaskHasBit(lo: nat, hi: nat, i: nat)
    requires lo <= hi
    ensures Bit(Mask(lo, hi), i) <==> lo <= i <= hi
  {
    ShlBit(Pow2(hi - lo + 1) - 1, lo, i);
    if i >= lo { OnesBit(hi - lo + 1, i - lo); }
  }

  lemma IsMask(lo: nat, hi: nat, x: int)
    requires lo <= hi
    requires forall i: nat :: Bit(x, i) <==> lo <= i <= hi
    ensures x == Mask(lo, hi)
  {
    forall i: nat ensures Bit(x, i) <==> Bit(Mask(lo, hi), i) { MaskHasBit(lo, hi, i); }
    SameBits(x, Mask(lo, hi));
  }

  lemma ShiftedOnesBit(k: nat, i: nat)
    ensures Bit(Shr(ONES, k), i) <==> i + k < 8
  {
    ShrBit(ONES, k, i);
    Pow2Of8();
    OnesBit(8, i + k);
  }

  /** `(uint8)~0 >> (7 - hi + lo) << lo`, stored in a `uint8`. */
  lemma MiddleMask(lo: nat, hi: nat)
    requires lo <= hi <= 7
    ensures Low(Shl(Shr(ONES, 7 - hi + lo), lo), 8) == Mask(lo, hi)
  {
    var m := Shr(ONES, 7 - hi + lo);
    forall i: nat ensures Bit(Low(Shl(m, lo), 8), i) <==> lo <= i <= hi {
      LowBit(Shl(m, lo), 8, i);
      ShlBit(m, lo, i);
      if i >= lo { ShiftedOnesBit(7 - hi + lo, i - lo); }
    }
    IsMask(lo, hi, Low(Shl(m, lo), 8));
  }

  /** `(uint8)~0 >> (7 - hi)`. */
  lemma LowerMask(hi: nat)
    requires hi <= 7
    ensures Shr(ONES, 7 - hi) == Mask(0, hi)
  {
    var x := Shr(ONES, 7 - hi);
    forall i: nat ensures Bit(x, i) <==> i <= hi { ShiftedOnesBit(7 - hi, i); }
    IsMask(0, hi, x);
  }

  /** `0xFF ^ ((uint8)~0 >> (8 - lo))`. */
  lemma UpperMask(lo: nat)
    requires lo <= 7
    ensures Xor(ONES, Shr(ONES, 8 - lo)) == Mask(lo, 7)
  {
    var x := Xor(ONES, Shr(ONES, 8 - lo));
    forall i: nat ensures Bit(x, i) <==> lo <= i <= 7 {
      XorBit(ONES, Shr(ONES, 8 - lo), i);
      ShiftedOnesBit(8 - lo, i);
      ShiftedOnesBit(0, i);
    }
    IsMask(lo, 7, x);
  }

  lemma FullMask()
    ensures Mask(0, 7) == ONES
  {
    Pow2Of8();
  }

  // ----- what the generator emits for one byte

  /** The three `snprintf` cases of the getter. */
  function EmitTerm(b: nat, mask: int, position: int, rotate: int): Expr {
    if position > rotate then ShlE(AndE(DataE(b), Lit(mask)), position - rotate)
    else if position < rotate then ShrE(AndE(DataE(b), Lit(mask)), rotate - position)
    else AndE(DataE(b), Lit(mask))
  }

  /** The eight `snprintf` cases of the setter. */
  function EmitStore(b: nat, mask: int, rotate: nat, position: nat): Stmt {
    var keep := AndE(Lit(And(-1 - mask, 255)), DataE(b));
    if mask == 255 then
      if rotate == 0 then
        if position == 0
        then SetData(b, AndE(ValueE, Lit(255)))
        else SetData(b, AndE(ShrE(ValueE, position), Lit(255)))
      else
        if position == 0
        then SetData(b, AndE(ShlE(ValueE, rotate), Lit(255)))
        else SetData(b, AndE(ShlE(ShrE(ValueE, position), rotate), Lit(255)))
    else
      var m := Lit(And(mask, 255));
      if rotate == 0 then
        if position == 0
        then SetData(b, OrE(keep, AndE(m, ValueE)))
        else SetData(b, OrE(keep, AndE(m, ShrE(ValueE, position))))
      else
        if position == 0
        then SetData(b, OrE(keep, AndE(m, ShlE(ValueE, rotate))))
        else SetData(b, OrE(keep, AndE(m, ShlE(ShrE(ValueE, position), rotate))))
  }

  // ----- what the loops emit: one item per byte, in byte order

  function TermsTo(l: Layout, b: int): seq<Expr>
    requires l.bitLen >= 1 && b <= EndByte(l)
    decreases b - StartByte(l)
  {
    if b < StartByte(l) then []
    else
      SliceOfByte(l, b);
      TermsTo(l, b - 1) + [EmitTerm(b, Mask(Lo(l, b), Hi(l, b)), Place(l, b), Lo(l, b))]
  }

  function StoresTo(l: Layout, b: int): seq<Stmt>
    requires l.bitLen >= 1 && b <= EndByte(l)
    decreases b - StartByte(l)
  {
    if b < StartByte(l) then []
    else
      SliceOfByte(l, b);
      StoresTo(l, b - 1) + [EmitStore(b, Mask(Lo(l, b), Hi(l, b)), Lo(l, b), Place(l, b))]
  }

  /** Left-associated sum, as `a + b + c` in C. */
  function Sum(terms: seq<Expr>): Expr
    requires terms != []
  {
    if |terms| == 1 then terms[0] else AddE(Sum(terms[..|terms| - 1]), terms[|terms| - 1])
  }

  predicate NeedsSignStep(l: Layout) {
    l.signed && l.bitLen < 32
  }

  /**
   Text of a getter: whether the cast that opens the sign step was written, the terms, and
   whether the part that closes it was written.
   */
  datatype Getter = Getter(castOpen: bool, terms: seq<Expr>, castClosed: bool, signBit: nat)

  /** A getter whose parentheses do not match is not C++. */
  function Parse(g: Getter): Option<Expr> {
    if g.terms == [] || g.castOpen != g.castClosed then None
    else if g.castOpen then
      var weight := ShlE(Lit(1), g.signBit);
      Some(SubE(XorE(Sum(g.terms), weight), weight))
    else Some(Sum(g.terms))
  }

  function GetterCode(l: Layout): Getter
    requires l.bitLen >= 1
  {
    Getter(!l.bigEndian && NeedsSignStep(l), TermsTo(l, EndByte(l)), NeedsSignStep(l), l.bitLen - 1)
  }

  function SignPrefix(l: Layout): seq<Stmt>
    requires l.bitLen >= 1
  {
    var weight := ShlE(Lit(1), l.bitLen - 1);
    if NeedsSignStep(l) then [SetValue(XorE(AddE(ValueE, weight), weight))] else []
  }

  function SetterCode(l: Layout): seq<Stmt>
    requires l.bitLen >= 1
  {
    SignPrefix(l) + StoresTo(l, EndByte(l))
  }

  // ----- the generator

  /** Mask, rotation and number of bits chosen for one byte of a big-endian signal. */
  method BigEndianByte(l: Layout, workByte: nat) returns (mask: int, rotate: nat, shift: nat)
    requires l.bigEndian && Fits(l, MAX_FRAME) && InBytes(l, workByte)
    ensures rotate == Lo(l, workByte) <= Hi(l, workByte) <= 7
    ensures mask == Mask(Lo(l, workByte), Hi(l, workByte))
    ensures shift == Width(l, workByte)
  {
    SliceOfByte(l, workByte);
    var startOffset, startByte, endByte, endOffset := StartOffset(l), StartByte(l), EndByte(l), EndOffset(l);
    if workByte == startByte && workByte == endByte && startOffset != 7 && endOffset != 0 {
      mask := Low(Shl(Shr(ONES, 7 - startOffset + endOffset), endOffset), 8);
      rotate := endOffset;
      shift := startOffset - endOffset + 1;
      MiddleMask(endOffset, startOffset);
    } else if workByte == startByte && startOffset != 7 {
      mask := Shr(ONES, 7 - startOffset);
      rotate := 0;
      shift := startOffset + 1;
      LowerMask(startOffset);
    } else if workByte == endByte && endOffset != 0 {
      mask := Xor(ONES, Shr(ONES, 8 - endOffset));
      rotate := endOffset;
      shift := 8 - endOffset;
      UpperMask(endOffset);
    } else {
      mask := ONES;
      rotate := 0;
      shift := 8;
      FullMask();
    }
  }

  /** The same for a little-endian signal; `single` is the guard of the one-byte case. */
  method LittleEndianByte(l: Layout, workByte: nat, single: bool)
      returns (mask: int, rotate: nat, shift: nat)
    requires !l.bigEndian && Fits(l, MAX_FRAME) && InBytes(l, workByte)
    requires StartOffset(l) != 0 && EndOffset(l) != 7 ==> single
    requires single ==> StartOffset(l) != 0 || EndOffset(l) != 7
    ensures rotate == Lo(l, workByte) <= Hi(l, workByte) <= 7
    ensures mask == Mask(Lo(l, workByte), Hi(l, workByte))
    ensures shift == Width(l, workByte)
  {
    SliceOfByte(l, workByte);
    var startOffset, startByte, endByte, endOffset := StartOffset(l), StartByte(l), EndByte(l), EndOffset(l);
    if workByte == startByte && workByte == endByte && single {
      mask := Low(Shl(Shr(ONES, 7 - endOffset + startOffset), startOffset), 8);
      rotate := startOffset;
      shift := endOffset - startOffset + 1;
      MiddleMask(startOffset, endOffset);
    } else if workByte == endByte && endOffset != 7 {
      mask := Shr(ONES, 7 - endOffset);
      rotate := 0;
      shift := endOffset + 1;
      LowerMask(endOffset);
    } else if workByte == startByte && startOffset != 0 {
      mask := Xor(ONES, Shr(ONES, 8 - startOffset));
      rotate := startOffset;
      shift := 8 - startOffset;
      UpperMask(startOffset);
    } else {
      mask := ONES;
      rotate := 0;
      shift := 8;
      FullMask();
    }
  }

  /** Arithmetic on a `uint8` variable. */
  function Uint8(x: int): (r: nat)
    ensures 0 <= x < 256 ==> r == x
  {
    x % 256
  }

  /** The loop over the bytes in `getCanSignalDecoder`, big endian. */
  method GetterBigEndian(l: Layout) returns (terms: seq<Expr>)
    requires l.bigEndian && Fits(l, MAX_FRAME)
    ensures terms == TermsTo(l, EndByte(l))
  {
    terms := [];
    FirstByte(l);
    var position: nat := l.bitLen;
    var workByte := StartByte(l);
    while workByte <= EndByte(l)
      invariant StartByte(l) <= workByte <= EndByte(l) + 1
      invariant position == PlacesAbove(l, workByte) <= l.bitLen
      invariant terms == TermsTo(l, workByte - 1)
    {
      OneByte(l, workByte);
      SliceOfByte(l, workByte);
      var mask, rotate, shift := BigEndianByte(l, workByte);
      position := Uint8(position - shift);
      terms := terms + [EmitTerm(workByte, mask, position, rotate)];
      workByte := workByte + 1;
    }
    assert position == 0;
  }

  /** The loop over the bytes in `getCanSignalDecoder`, little endian. */
  method GetterLittleEndian(l: Layout) returns (terms: seq<Expr>)
    requires !l.bigEndian && Fits(l, MAX_FRAME)
    ensures terms == TermsTo(l, EndByte(l))
  {
    terms := [];
    FirstByte(l);
    var position: nat := 0;
    var workByte := StartByte(l);
    while workByte <= EndByte(l)
      invariant StartByte(l) <= workByte <= EndByte(l) + 1
      invariant position == PlacesBelow(l, workByte) <= l.bitLen
      invariant terms == TermsTo(l, workByte - 1)
    {
      OneByteUp(l, workByte);
      SliceOfByte(l, workByte);
      var single := StartOffset(l) != 0 && EndOffset(l) != 7;
      var mask, rotate, shift := LittleEndianByte(l, workByte, single);
      terms := terms + [EmitTerm(workByte, mask, position, rotate)];
      position := Uint8(position + shift);
      workByte := workByte + 1;
    }
    assert l.bitLen == position;
  }

  /** The loop over the bytes in `getCanSignalEncoder`, big endian. */
  method SetterBigEndian(l: Layout) returns (stores: seq<Stmt>)
    requires l.bigEndian && Fits(l, MAX_FRAME)
    ensures stores == StoresTo(l, EndByte(l))
  {
    stores := [];
    FirstByte(l);
    var position: nat := l.bitLen;
    var workByte := StartByte(l);
    while workByte <= EndByte(l)
      invariant StartByte(l) <= workByte <= EndByte(l) + 1
      invariant position == PlacesAbove(l, workByte) <= l.bitLen
      invariant stores == StoresTo(l, workByte - 1)
    {
      OneByte(l, workByte);
      SliceOfByte(l, workByte);
      var mask, rotate, shift := BigEndianByte(l, workByte);
      position := Uint8(position - shift);
      stores := stores + [EmitStore(workByte, mask, rotate, position)];
      workByte := workByte + 1;
    }
    assert position == 0;
  }

  /** The loop over the bytes in `getCanSignalEncoder`, little endian. */
  method SetterLittleEndian(l: Layout) returns (stores: seq<Stmt>)
    requires !l.bigEndian && Fits(l, MAX_FRAME)
    ensures stores == StoresTo(l, EndByte(l))
  {
    stores := [];
    FirstByte(l);
    var position: nat := 0;
    var workByte := StartByte(l);
    while workByte <= EndByte(l)
      invariant StartByte(l) <= workByte <= EndByte(l) + 1
      invariant position == PlacesBelow(l, workByte) <= l.bitLen
      invariant stores == StoresTo(l, workByte - 1)
    {
      OneByteUp(l, workByte);
      SliceOfByte(l, workByte);
      var single := StartOffset(l) != 0 || EndOffset(l) != 7;
      var mask, rotate, shift := LittleEndianByte(l, workByte, single);
      stores := stores + [EmitStore(workByte, mask, rotate, position)];
      position := Uint8(position + shift);
      workByte := workByte + 1;
    }
    assert l.bitLen == position;
  }

  /** `getCanSignalDecoder`. */
  method CompileGetter(l: Layout) returns (g: Getter)
    requires Fits(l, MAX_FRAME)
    ensures g == GetterCode(l)
  {
    var terms, castOpen := [], false;
    if l.bigEndian {
      terms := GetterBigEndian(l);
    } else {
      terms := GetterLittleEndian(l);
      castOpen := l.signed && l.bitLen < 32;
    }
    g := Getter(castOpen, terms, l.signed && l.bitLen < 32, l.bitLen - 1);
  }

  /** `getCanSignalEncoder`. */
  method CompileSetter(l: Layout) returns (code: seq<Stmt>)
    requires Fits(l, MAX_FRAME)
    ensures code == SetterCode(l)
  {
    code := [];
    if l.signed && l.bitLen < 32 {
      var weight := ShlE(Lit(1), l.bitLen - 1);
      code := [SetValue(XorE(AddE(ValueE, weight), weight))];
    }
    var stores;
    if l.bigEndian {
      stores := SetterBigEndian(l);
    } else {
      stores := SetterLittleEndian(l);
    }
    code := code + stores;
  }
}
