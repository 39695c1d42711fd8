/**
 The Intel branch of canmatrix's `putSignalValueInFrame` and the start-value packing loop that
 uses it.
 */
module CanmatrixPacker {
  import opened Bits
  import opened SignalLayout
  import opened SignalDecoder

  /** The value's bits `0..width` are or-ed into the frame from bit `startbit` on. */
  ghost predicate OredInto(f: Frame, g: Frame, startbit: nat, from: nat, to: nat, value: int) {
    |f| == |g| &&
    forall p: nat :: p < 8 * |f| ==>
      (FrameBit(g, p) <==> FrameBit(f, p) || (startbit + from <= p < startbit + to && Bit(value, p - startbit)))
  }

  /**
   Extra value bits the routine writes above the signal: when the signal lies inside one byte, the
   mask `(0xff >> (7 - start)) << end` reaches `end` bits too far.
   */
  function Spill(startbit: nat, len: nat): nat
    requires len >= 1
  {
    if startbit / 8 == (startbit + len - 1) / 8
    then Min(startbit % 8, 7 - (startbit + len - 1) % 8)
    else 0
  }

  /** `((value >> len) << end) & mask` with the mask of the routine. */
  function Piece(value: int, len: nat, start: nat, end: nat): int
    requires start <= 7
  {
    And(Shl(Shr(value, len), end), And(Shl(Shr(ONES, 7 - start), end), ONES))
  }

  lemma ShiftedOnes(k: nat, i: nat)
    ensures Bit(ONES, i) <==> i < 8
    ensures Bit(Shr(ONES, k), i) <==> i + k < 8
  {
    Pow2Of8();
    OnesBit(8, i);
    OnesBit(8, i + k);
    ShrBit(ONES, k, i);
  }

  lemma MaskBit(m: int, start: nat, end: nat, j: nat)
    requires start <= 7 && m == Shl(Shr(ONES, 7 - start), end)
    ensures Bit(And(m, ONES), j) <==> end <= j <= Min(7, start + end)
  {
    AndBit(m, ONES, j);
    ShiftedOnes(0, j);
    ShlBit(Shr(ONES, 7 - start), end, j);
    if j >= end { ShiftedOnes(7 - start, j - end); }
  }

  lemma PieceBit(value: int, len: nat, start: nat, end: nat, j: nat)
    requires start <= 7
    ensures Bit(Piece(value, len, start, end), j) <==> end <= j <= Min(7, start + end) && Bit(value, len + j - end)
  {
    var m := Shl(Shr(ONES, 7 - start), end);
    AndBit(Shl(Shr(value, len), end), And(m, ONES), j);
    MaskBit(m, start, end, j);
    ShlBit(Shr(value, len), end, j);
    if j >= end { ShrBit(value, len, j - end); }
  }

  lemma OrIsByte(x: Byte, y: int)
    requires forall j: nat :: Bit(y, j) ==> j < 8
    ensures 0 <= Or(x, y) < 256
  {
    forall j: nat ensures Bit(Or(x, y), j) <==> Bit(Low(Or(x, y), 8), j) {
      OrBit(x, y, j);
      ByteBit(x, j);
      LowBit(Or(x, y), 8, j);
    }
    SameBits(Or(x, y), Low(Or(x, y), 8));
    Pow2Of8();
  }

  /** One turn of the loop: the top remaining bits go into byte `i`. */
  lemma PieceStored(f: Frame, g: Frame, startbit: nat, len: nat, to: nat, i: nat, start: nat, end: nat, value: int, x: int)
    requires i < |f| && |f| == |g| && end <= start <= 7
    requires startbit + len == 8 * i + end
    requires startbit + to == 8 * i + Min(7, start + end) + 1
    requires x == Or(f[i], Piece(value, len, start, end))
    requires 0 <= x < 256 && g == f[i := x]
    ensures OredInto(f, g, startbit, len, to, value)
  {
    forall p: nat | p < 8 * |f|
      ensures FrameBit(g, p) <==> FrameBit(f, p) || (startbit + len <= p < startbit + to && Bit(value, p - startbit))
    {
      if p / 8 == i {
        OrBit(f[i], Piece(value, len, start, end), p % 8);
        PieceBit(value, len, start, end, p % 8);
        assert p == 8 * i + p % 8;
      }
    }
  }

  lemma OredTwice(f: Frame, g: Frame, h: Frame, startbit: nat, low: nat, mid: nat, high: nat, value: int)
    requires low <= mid <= high
    requires OredInto(f, g, startbit, mid, high, value) && OredInto(g, h, startbit, low, mid, value)
    ensures OredInto(f, h, startbit, low, high, value)
  {
    forall p: nat | p < 8 * |f|
      ensures FrameBit(h, p) <==> FrameBit(f, p) || (startbit + low <= p < startbit + high && Bit(value, p - startbit))
    {
      assert FrameBit(g, p) <==> FrameBit(f, p) || (startbit + mid <= p < startbit + high && Bit(value, p - startbit));
    }
  }

  /** `putSignalValueInFrame` with format 1 (Intel). */
  method PutSignalValueInFrame(startbit: nat, signalLen: nat, value: int, frame: array<Byte>)
    requires signalLen >= 1 && startbit + signalLen <= 8 * frame.Length
    modifies frame
    ensures OredInto(old(frame[..]), frame[..], startbit, 0, signalLen + Spill(startbit, signalLen), value)
  {
    var len := signalLen;
    var lastbit := startbit + len;
    var firstbyte := startbit / 8 - 1;
    var lastbyte := (lastbit - 1) / 8;
    ghost var to := signalLen + Spill(startbit, signalLen);
    ghost var before := frame[..];
    var i := lastbyte;
    while i > firstbyte
      invariant firstbyte <= i <= lastbyte && len <= signalLen && lastbit == startbit + len
      invariant i > firstbyte ==> len >= 1 && i == (lastbit - 1) / 8
      invariant i == firstbyte ==> len == 0
      invariant i < lastbyte && i > firstbyte ==> lastbit % 8 == 0
      invariant i == lastbyte ==> len == signalLen && frame[..] == before
      invariant i < lastbyte ==> OredInto(before, frame[..], startbit, len, to, value)
    {
      var nbits := if lastbit % 8 != 0 then lastbit % 8 else Min(len, 8);
      nbits := Min(len, nbits);
      var start := lastbit - 1 - (lastbit - 1) / 8 * 8;
      var end := lastbit - nbits - (lastbit - nbits) / 8 * 8;
      ghost var top := if i == lastbyte then to else len;
      ghost var prior := frame[..];
      TurnArithmetic(startbit, signalLen, len, i, nbits);
      len := len - nbits;
      var piece := Piece(value, len, start, end);
      forall j: nat ensures Bit(piece, j) ==> j < 8 { PieceBit(value, len, start, end, j); }
      OrIsByte(frame[i], piece);
      frame[i] := Or(frame[i], piece);
      PieceStored(prior, frame[..], startbit, len, top, i, start, end, value, frame[i]);
      if i < lastbyte { OredTwice(before, prior, frame[..], startbit, len, top, to, value); }
      lastbit := startbit + len;
      i := i - 1;
    }
  }

  lemma TurnArithmetic(startbit: nat, signalLen: nat, len: nat, i: nat, nbits: nat)
    requires 1 <= len <= signalLen && i == (startbit + len - 1) / 8 && startbit / 8 <= i
    requires var lastbit := startbit + len;
             nbits == Min(len, if lastbit % 8 != 0 then lastbit % 8 else Min(len, 8)) &&
             (len < signalLen ==> lastbit % 8 == 0)
    ensures var lastbit := startbit + len;
            var start, end := lastbit - 1 - (lastbit - 1) / 8 * 8, lastbit - nbits - (lastbit - nbits) / 8 * 8;
            1 <= nbits <= len && 0 <= end <= start <= 7 && startbit + (len - nbits) == 8 * i + end &&
            startbit + (if len == signalLen then signalLen + Spill(startbit, signalLen) else len) ==
              8 * i + Min(7, start + end) + 1 &&
            (if i == startbit / 8 then len == nbits
             else len > nbits && (lastbit - nbits) % 8 == 0 && (lastbit - nbits - 1) / 8 == i - 1)
  {
  }

  // ----- when the routine writes the signal and nothing else

  predicate NoSpill(startbit: nat, len: nat, value: int)
    requires len >= 1
  {
    forall k: nat :: len <= k < len + Spill(startbit, len) ==> !Bit(value, k)
  }

  lemma InRangeHasNoSpill(startbit: nat, len: nat, value: int)
    requires len >= 1 && 0 <= value < Pow2(len)
    ensures NoSpill(startbit, len, value)
  {
    forall k: nat | len <= k ensures !Bit(value, k) { HighBitsZero(value, len, k); }
  }

  /** The frame whose bit `p` is bit `p` of `x`. */
  function FrameOf(n: nat, x: int): (f: Frame)
    ensures |f| == n
  {
    Pow2Of8();
    seq(n, b requires 0 <= b < n => Low(Shr(x, 8 * b), 8))
  }

  lemma FrameOfBit(n: nat, x: int, p: nat)
    requires p < 8 * n
    ensures FrameBit(FrameOf(n, x), p) <==> Bit(x, p)
  {
    LowBit(Shr(x, 8 * (p / 8)), 8, p % 8);
    ShrBit(x, 8 * (p / 8), p % 8);
  }

  /** What the routine leaves in a cleared frame. */
  lemma ClearedFrameResult(n: nat, startbit: nat, len: nat, to: nat, value: int)
    ensures OredInto(FrameOf(n, 0), FrameOf(n, Shl(Low(value, to), startbit)), startbit, 0, to, value)
  {
    var f, x := FrameOf(n, 0), Shl(Low(value, to), startbit);
    var g := FrameOf(n, x);
    forall p: nat | p < 8 * n
      ensures FrameBit(g, p) <==> FrameBit(f, p) || (startbit + 0 <= p < startbit + to && Bit(value, p - startbit))
    {
      FrameOfBit(n, 0, p);
      ConstBit(0, p);
      FrameOfBit(n, x, p);
      ShlBit(Low(value, to), startbit, p);
      if p >= startbit { LowBit(value, to, p - startbit); }
    }
  }

  /**
   The routine or-s exactly the signal's bits into every frame if and only if the value has no bit
   set in the spill just above the signal. Negative values of signals inside one byte have.
   */
  lemma PutsExactlyIff(n: nat, startbit: nat, len: nat, value: int)
    requires len >= 1 && startbit + len <= 8 * n
    ensures NoSpill(startbit, len, value) <==>
      forall f: Frame, g: Frame :: |f| == n && OredInto(f, g, startbit, 0, len + Spill(startbit, len), value) ==>
        OredInto(f, g, startbit, 0, len, value)
  {
    var to := len + Spill(startbit, len);
    if NoSpill(startbit, len, value) {
      forall f: Frame, g: Frame | |f| == n && OredInto(f, g, startbit, 0, to, value)
        ensures OredInto(f, g, startbit, 0, len, value)
      {
        forall p: nat | p < 8 * n
          ensures FrameBit(g, p) <==> FrameBit(f, p) || (startbit + 0 <= p < startbit + len && Bit(value, p - startbit))
        {
          assert FrameBit(g, p) <==> FrameBit(f, p) || (startbit + 0 <= p < startbit + to && Bit(value, p - startbit));
        }
      }
    } else {
      var k: nat :| len <= k < to && Bit(value, k);
      var f, g := FrameOf(n, 0), FrameOf(n, Shl(Low(value, to), startbit));
      ClearedFrameResult(n, startbit, len, to, value);
      var p := startbit + k;
      FrameOfBit(n, 0, p);
      ConstBit(0, p);
      assert FrameBit(g, p) && !FrameBit(f, p);
      assert !OredInto(f, g, startbit, 0, len, value);
    }
  }

  /**
   A value that spoils its neighbour: -1 in the four bits from bit 2 on. Packed into a cleared frame it sets
   bit 6, which belongs to the signal above.
   */
  lemma NegativeSpills(f: Frame, g: Frame)
    requires |f| == |g| == MAX_FRAME && f == FrameOf(MAX_FRAME, 0) && OredInto(f, g, 2, 0, 4 + Spill(2, 4), -1)
    ensures !NoSpill(2, 4, -1) && !FrameBit(f, 6) && FrameBit(g, 6)
    ensures g[0] == 0xfc && forall b :: 0 < b < MAX_FRAME ==> g[b] == 0
  {
    assert Spill(2, 4) == 2;
    ConstBit(-1, 4);
    forall p: nat | p < 8 * MAX_FRAME ensures !FrameBit(f, p) && (FrameBit(g, p) <==> 2 <= p < 8) {
      FrameOfBit(MAX_FRAME, 0, p);
      ConstBit(0, p);
      if p >= 2 { ConstBit(-1, p - 2); }
    }
    FirstByteFull(g);
  }

  lemma FirstByteFull(g: Frame)
    requires |g| == MAX_FRAME && forall p: nat :: p < 8 * MAX_FRAME ==> (FrameBit(g, p) <==> 2 <= p < 8)
    ensures g[0] == 0xfc && forall b :: 0 < b < MAX_FRAME ==> g[b] == 0
  {
    var h := seq(MAX_FRAME, b requires 0 <= b < MAX_FRAME => if b == 0 then 0xfc else 0);
    forall p: nat | p < 8 * MAX_FRAME ensures FrameBit(g, p) <==> FrameBit(h, p) {
      if p / 8 == 0 { ByteFcBit(p); } else { ConstBit(0, p % 8); }
    }
    SameFrames(g, h);
  }

  lemma ByteFcBit(j: nat)
    requires j < 8
    ensures Bit(0xfc, j) <==> 2 <= j
  {
    assert Bit(0xfc, 0) == false && Bit(0xfc, 1) == false && Bit(0xfc, 2) && Bit(0xfc, 3);
    assert Bit(0xfc, 4) && Bit(0xfc, 5) && Bit(0xfc, 6) && Bit(0xfc, 7);
  }

  // ----- packing all start values of a message

  datatype StartValue = StartValue(startbit: nat, len: nat, signed: bool, value: int)

  function LayoutOf(s: StartValue): Layout {
    Layout(s.startbit, s.len, false, s.signed)
  }

  predicate Inside(s: StartValue, p: nat) {
    s.startbit <= p < s.startbit + s.len
  }

  /** Signals that fit into a frame of `n` bytes and share no bit. */
  ghost predicate Disjoint(sigs: seq<StartValue>, n: nat) {
    (forall k :: 0 <= k < |sigs| ==> Fits(LayoutOf(sigs[k]), n)) &&
    (forall j, k, p: nat :: 0 <= j < k < |sigs| ==> !(Inside(sigs[j], p) && Inside(sigs[k], p)))
  }

  /** Frame bit `p` is a set bit of the signal. */
  predicate Contributes(s: StartValue, p: nat) {
    Inside(s, p) && Bit(s.value, p - s.startbit)
  }

  /** Frame bit `p` lies in the excess above the signal, and the value has it set. */
  predicate Spills(s: StartValue, p: nat) {
    s.len >= 1 && s.startbit + s.len <= p < s.startbit + s.len + Spill(s.startbit, s.len) && Bit(s.value, p - s.startbit)
  }

  predicate Writes(s: StartValue, p: nat) {
    Contributes(s, p) || Spills(s, p)
  }

  /** One of the first `k` signals writes bit `p`. */
  predicate PackedBit(sigs: seq<StartValue>, k: nat, p: nat)
    requires k <= |sigs|
  {
    exists j :: 0 <= j < k && Writes(sigs[j], p)
  }

  ghost predicate Packed(f: Frame, sigs: seq<StartValue>, k: nat)
    requires k <= |sigs|
  {
    forall p: nat :: p < 8 * |f| ==> (FrameBit(f, p) <==> PackedBit(sigs, k, p))
  }

  lemma PackNext(f: Frame, g: Frame, sigs: seq<StartValue>, k: nat)
    requires Disjoint(sigs, |f|) && k < |sigs| && Packed(f, sigs, k)
    requires var s := sigs[k];
             (s.value == 0 && g == f) || OredInto(f, g, s.startbit, 0, s.len + Spill(s.startbit, s.len), s.value)
    ensures |g| == |f| && Packed(g, sigs, k + 1)
  {
    var s := sigs[k];
    assert Fits(LayoutOf(s), |f|);
    forall p: nat | p < 8 * |f| ensures FrameBit(g, p) <==> PackedBit(sigs, k + 1, p) {
      NextBit(f, g, s, p);
      assert PackedBit(sigs, k + 1, p) <==> PackedBit(sigs, k, p) || Writes(sigs[k], p);
    }
  }

  lemma NextBit(f: Frame, g: Frame, s: StartValue, p: nat)
    requires s.len >= 1 && p < 8 * |f|
    requires (s.value == 0 && g == f) || OredInto(f, g, s.startbit, 0, s.len + Spill(s.startbit, s.len), s.value)
    ensures |g| == |f| && (FrameBit(g, p) <==> FrameBit(f, p) || Writes(s, p))
  {
    var to := s.len + Spill(s.startbit, s.len);
    if s.value == 0 && g == f {
      if p >= s.startbit { ConstBit(0, p - s.startbit); }
    } else {
      assert FrameBit(g, p) <==> FrameBit(f, p) || (s.startbit + 0 <= p < s.startbit + to && Bit(s.value, p - s.startbit));
    }
  }

  // ----- when the packed frame is right

  /** No signal's excess sets a bit that is clear in signal `j`. */
  ghost predicate Unspoilt(sigs: seq<StartValue>, j: nat)
    requires j < |sigs|
  {
    forall m, p: nat :: 0 <= m < |sigs| && Spills(sigs[m], p) && Inside(sigs[j], p) ==> Contributes(sigs[j], p)
  }

  lemma PackedPlace(f: Frame, sigs: seq<StartValue>, j: nat, i: nat)
    requires Disjoint(sigs, |f|) && Packed(f, sigs, |sigs|) && j < |sigs| && i < sigs[j].len
    ensures sigs[j].startbit + i < 8 * |f|
    ensures Bit(Raw(LayoutOf(sigs[j]), f), i) <==>
      Contributes(sigs[j], sigs[j].startbit + i) || exists m :: 0 <= m < |sigs| && Spills(sigs[m], sigs[j].startbit + i)
  {
    var s, l := sigs[j], LayoutOf(sigs[j]);
    assert Fits(l, |f|);
    RawBit(l, f, i);
    SigBitInFrame(l, i, |f|);
    var p := s.startbit + i;
    assert FrameBit(f, p) <==> PackedBit(sigs, |sigs|, p);
    OnlyOwner(sigs, |f|, j, p);
  }

  lemma OneOwner(sigs: seq<StartValue>, n: nat, i: nat, j: nat, p: nat)
    requires Disjoint(sigs, n) && i < |sigs| && j < |sigs| && Inside(sigs[i], p) && Inside(sigs[j], p)
    ensures i == j
  {
  }

  lemma OnlyOwner(sigs: seq<StartValue>, n: nat, j: nat, p: nat)
    requires Disjoint(sigs, n) && j < |sigs| && Inside(sigs[j], p)
    ensures PackedBit(sigs, |sigs|, p) <==>
      Contributes(sigs[j], p) || exists m :: 0 <= m < |sigs| && Spills(sigs[m], p)
  {
    if m :| 0 <= m < |sigs| && Writes(sigs[m], p) {
      if Contributes(sigs[m], p) { OneOwner(sigs, n, m, j, p); }
    }
    if Contributes(sigs[j], p) { assert Writes(sigs[j], p); }
    if m :| 0 <= m < |sigs| && Spills(sigs[m], p) { assert Writes(sigs[m], p); }
  }

  lemma UnspoiltRaw(f: Frame, sigs: seq<StartValue>, j: nat)
    requires Disjoint(sigs, |f|) && Packed(f, sigs, |sigs|) && j < |sigs| && Fits(LayoutOf(sigs[j]), |f|)
    requires Unspoilt(sigs, j)
    ensures Raw(LayoutOf(sigs[j]), f) == Low(sigs[j].value, sigs[j].len)
  {
    var raw, low := Raw(LayoutOf(sigs[j]), f), Low(sigs[j].value, sigs[j].len);
    forall i: nat ensures Bit(raw, i) <==> Bit(low, i) { UnspoiltPlace(f, sigs, j, i); }
    SameBits(raw, low);
  }

  lemma UnspoiltPlace(f: Frame, sigs: seq<StartValue>, j: nat, i: nat)
    requires Disjoint(sigs, |f|) && Packed(f, sigs, |sigs|) && j < |sigs| && Fits(LayoutOf(sigs[j]), |f|)
    requires Unspoilt(sigs, j)
    ensures Bit(Raw(LayoutOf(sigs[j]), f), i) <==> Bit(Low(sigs[j].value, sigs[j].len), i)
  {
    var s := sigs[j];
    LowBit(s.value, s.len, i);
    if i < s.len {
      PackedPlace(f, sigs, j, i);
      assert Inside(s, s.startbit + i);
    } else {
      RawBit(LayoutOf(s), f, i);
    }
  }

  /** A signal of the packed frame holds its value exactly when it is unspoilt. */
  lemma PackedRawIff(f: Frame, sigs: seq<StartValue>, j: nat)
    requires Disjoint(sigs, |f|) && Packed(f, sigs, |sigs|) && j < |sigs|
    ensures Raw(LayoutOf(sigs[j]), f) == Low(sigs[j].value, sigs[j].len) <==> Unspoilt(sigs, j)
  {
    var s, l := sigs[j], LayoutOf(sigs[j]);
    assert Fits(l, |f|);
    if Unspoilt(sigs, j) {
      UnspoiltRaw(f, sigs, j);
    } else {
      var m, p: nat :| 0 <= m < |sigs| && Spills(sigs[m], p) && Inside(s, p) && !Contributes(s, p);
      var i := p - s.startbit;
      PackedPlace(f, sigs, j, i);
      LowBit(s.value, s.len, i);
    }
  }

  /** Every signal holds its value and no other bit is set. */
  ghost predicate PackedRight(f: Frame, sigs: seq<StartValue>)
    requires Disjoint(sigs, |f|)
  {
    (forall j :: 0 <= j < |sigs| ==> Raw(LayoutOf(sigs[j]), f) == Low(sigs[j].value, sigs[j].len)) &&
    (forall p: nat :: p < 8 * |f| && (forall j :: 0 <= j < |sigs| ==> !Inside(sigs[j], p)) ==> !FrameBit(f, p))
  }

  /** Every spilt bit falls on a bit that is set anyway. */
  ghost predicate Harmless(sigs: seq<StartValue>) {
    forall m, p: nat :: 0 <= m < |sigs| && Spills(sigs[m], p) ==>
      exists j :: 0 <= j < |sigs| && Contributes(sigs[j], p)
  }

  /** The excess ends in the byte of the signal. */
  lemma SpillInFrame(s: StartValue, n: nat, p: nat)
    requires Fits(LayoutOf(s), n) && Spills(s, p)
    ensures p < 8 * n
  {
  }

  /**
   For disjoint Intel signals: the packed frame gives every signal its value and sets no other bit if and
   only if every value bit that spills lies on a place of some signal whose value has it set.
   */
  lemma PackedRightIff(f: Frame, sigs: seq<StartValue>)
    requires Disjoint(sigs, |f|) && Packed(f, sigs, |sigs|)
    ensures PackedRight(f, sigs) <==> Harmless(sigs)
  {
    forall j | 0 <= j < |sigs|
      ensures Raw(LayoutOf(sigs[j]), f) == Low(sigs[j].value, sigs[j].len) <==> Unspoilt(sigs, j)
    {
      PackedRawIff(f, sigs, j);
    }
    if Harmless(sigs) {
      HarmlessIsRight(f, sigs);
    } else {
      var m, p: nat :| 0 <= m < |sigs| && Spills(sigs[m], p) && !(exists j :: 0 <= j < |sigs| && Contributes(sigs[j], p));
      SpillInFrame(sigs[m], |f|, p);
      assert Writes(sigs[m], p) && PackedBit(sigs, |sigs|, p);
      if j :| 0 <= j < |sigs| && Inside(sigs[j], p) { assert !Unspoilt(sigs, j); }
    }
  }

  lemma SpillsOntoSignal(sigs: seq<StartValue>, m: nat, p: nat)
    requires Harmless(sigs) && m < |sigs|
    ensures Spills(sigs[m], p) ==> exists j :: 0 <= j < |sigs| && Inside(sigs[j], p)
  {
    if Spills(sigs[m], p) {
      var j :| 0 <= j < |sigs| && Contributes(sigs[j], p);
      assert Inside(sigs[j], p);
    }
  }

  lemma HarmlessIsRight(f: Frame, sigs: seq<StartValue>)
    requires Disjoint(sigs, |f|) && Packed(f, sigs, |sigs|) && Harmless(sigs)
    ensures forall j :: 0 <= j < |sigs| ==> Unspoilt(sigs, j)
    ensures forall p: nat :: p < 8 * |f| && (forall j :: 0 <= j < |sigs| ==> !Inside(sigs[j], p)) ==> !FrameBit(f, p)
  {
    forall j | 0 <= j < |sigs| ensures Unspoilt(sigs, j) {
      forall m, p: nat | 0 <= m < |sigs| && Spills(sigs[m], p) && Inside(sigs[j], p) ensures Contributes(sigs[j], p) {
        var i :| 0 <= i < |sigs| && Contributes(sigs[i], p);
        OneOwner(sigs, |f|, i, j, p);
      }
    }
    forall p: nat | p < 8 * |f| && forall j :: 0 <= j < |sigs| ==> !Inside(sigs[j], p) ensures !FrameBit(f, p) {
      forall m | 0 <= m < |sigs| ensures !Writes(sigs[m], p) { SpillsOntoSignal(sigs, m, p); }
    }
  }

  /** In particular when nothing spills, as for values in the unsigned range. */
  lemma NoSpillIsRight(f: Frame, sigs: seq<StartValue>)
    requires Disjoint(sigs, |f|) && Packed(f, sigs, |sigs|)
    requires forall k :: 0 <= k < |sigs| ==> NoSpill(sigs[k].startbit, sigs[k].len, sigs[k].value)
    ensures PackedRight(f, sigs)
  {
    forall m, p: nat | 0 <= m < |sigs| ensures !Spills(sigs[m], p) {
      assert NoSpill(sigs[m].startbit, sigs[m].len, sigs[m].value);
      if p >= sigs[m].startbit {
        var k: nat := p - sigs[m].startbit;
        assert sigs[m].len <= k < sigs[m].len + Spill(sigs[m].startbit, sigs[m].len) ==> !Bit(sigs[m].value, k);
      }
    }
    PackedRightIff(f, sigs);
  }

  /** The packing loop of the AUTOSAR importer: a bit is set iff it is a set bit of a signal or of its excess. */
  method PackStartValues(sigs: seq<StartValue>) returns (f: Frame)
    requires Disjoint(sigs, MAX_FRAME)
    ensures |f| == MAX_FRAME && Packed(f, sigs, |sigs|)
    ensures PackedRight(f, sigs) <==> Harmless(sigs)
  {
    var frame := new Byte[MAX_FRAME](_ => 0);
    forall p: nat | p < 8 * MAX_FRAME ensures !FrameBit(frame[..], p) { ConstBit(0, p % 8); }
    var k := 0;
    while k < |sigs|
      invariant k <= |sigs| && Packed(frame[..], sigs, k)
    {
      ghost var before := frame[..];
      var s := sigs[k];
      assert Fits(LayoutOf(s), MAX_FRAME);
      if s.value != 0 {
        PutSignalValueInFrame(s.startbit, s.len, s.value, frame);
      }
      PackNext(before, frame[..], sigs, k);
      k := k + 1;
    }
    f := frame[..];
    PackedRightIff(f, sigs);
  }

  predicate InRangeOf(s: StartValue) {
    if s.signed then s.len >= 1 && -Pow2(s.len - 1) <= s.value < Pow2(s.len - 1) else 0 <= s.value < Pow2(s.len)
  }

  /** The run-time decoder recovers an in-range start value from the packed frame exactly when the signal is unspoilt. */
  lemma DecoderRecoversStartValue(f: Frame, sigs: seq<StartValue>, j: nat, word: nat)
    requires Disjoint(sigs, |f|) && Packed(f, sigs, |sigs|) && j < |sigs|
    requires word >= 32 && DecodesExactly(LayoutOf(sigs[j]), word) && InRangeOf(sigs[j])
    ensures Interpreted(LayoutOf(sigs[j]), f, word) == sigs[j].value <==> Unspoilt(sigs, j)
  {
    var s, l := sigs[j], LayoutOf(sigs[j]);
    assert Fits(l, |f|);
    PackedRawIff(f, sigs, j);
    ExactLayoutDecodes(l, f, word);
    RawRange(l, f, s.len);
    SameValueIff(s, Raw(l, f));
  }

  /** A value in range is the meaning of exactly one raw value. */
  lemma SameValueIff(s: StartValue, raw: int)
    requires s.len >= 1 && InRangeOf(s) && 0 <= raw < Pow2(s.len)
    ensures raw == Low(s.value, s.len) <==> (if s.signed then SignExt(raw, s.len) else raw) == s.value
  {
    LowOfSmall(raw, s.len);
    if s.signed {
      SignExtLow(s.value, s.len);
      SignExtLow(raw, s.len);
      SignExtOfSmall(s.value, s.len);
    } else {
      LowOfSmall(s.value, s.len);
    }
  }
}
