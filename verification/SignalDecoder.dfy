/**
 The two run-time decoders: `canMessage_decode` of libcandbc and `decodeCanMessage` of
 the panel, which branch differently over the same layouts. `word` is the width of the
 C type the raw value is kept in (`unsigned long`, so 32 or 64).
 */
module SignalDecoder {
  import opened Bits
  import opened SignalLayout

  /** The low bits of `raw` are the places from `from` on, as far as the word reaches. */
  ghost predicate HoldsFrom(l: Layout, f: Frame, word: nat, from: int, raw: int)
    requires from >= 0
  {
    forall i: nat :: Bit(raw, i) <==> i < word && HasPlace(l, f, from + i)
  }

  /** `data` is the signal's slice of byte `b`, moved down to bit 0. */
  ghost predicate IsSlice(l: Layout, f: Frame, b: nat, data: int)
    requires l.bitLen >= 1 && InBytes(l, b) && b < |f|
  {
    forall i: nat :: Bit(data, i) <==> i < Width(l, b) && Bit(f[b], Lo(l, b) + i)
  }

  /** `data &= (uint8)~0 >> (7 - top)`. */
  function MaskTo(data: int, top: nat): int
    requires top <= 7
  {
    Low(And(data, Shr(ONES, 7 - top)), 8)
  }

  /** `rawValue <<= shift; rawValue |= data;` in a word of `word` bits. */
  function InsertBits(rawValue: int, shift: nat, word: nat, data: int): int {
    Or(Low(Shl(rawValue, shift), word), data)
  }

  lemma MaskBit(x: int, top: nat, i: nat)
    requires top <= 7
    ensures Bit(MaskTo(x, top), i) <==> i <= top && Bit(x, i)
  {
    var m := Shr(ONES, 7 - top);
    assert Bit(m, i) <==> i <= top by {
      ShrBit(ONES, 7 - top, i);
      Pow2Of8();
      OnesBit(8, i + 7 - top);
    }
    LowBit(And(x, m), 8, i);
    AndBit(x, m, i);
  }

  /** Masking with `0xFF >> (7 - top)` and shifting down by `lo` keeps bits `lo` to `top`. */
  function Cut(x: Byte, lo: nat, top: nat): int
    requires lo <= top <= 7
  {
    Shr(MaskTo(x, top), lo)
  }

  lemma CutBit(x: Byte, lo: nat, top: nat, i: nat)
    requires lo <= top <= 7
    ensures Bit(Cut(x, lo, top), i) <==> i <= top - lo && Bit(x, lo + i)
  {
    ShrBit(MaskTo(x, top), lo, i);
    MaskBit(x, top, lo + i);
  }

  /** Nothing to mask when the slice reaches bit 7. */
  lemma NoMask(x: Byte)
    ensures MaskTo(x, 7) == x
  {
    var y := MaskTo(x, 7);
    forall i: nat ensures Bit(y, i) <==> Bit(x, i) {
      MaskBit(x, 7, i);
      ByteBit(x, i);
    }
    SameBits(y, x);
  }

  lemma CutIsSlice(l: Layout, f: Frame, b: nat)
    requires Fits(l, |f|) && InBytes(l, b)
    ensures 0 <= Lo(l, b) <= Hi(l, b) <= 7
    ensures IsSlice(l, f, b, Cut(f[b], Lo(l, b), Hi(l, b)))
  {
    SliceOfByte(l, b);
    var d := Cut(f[b], Lo(l, b), Hi(l, b));
    forall i: nat ensures Bit(d, i) <==> i < Width(l, b) && Bit(f[b], Lo(l, b) + i) {
      CutBit(f[b], Lo(l, b), Hi(l, b), i);
    }
  }

  lemma ShiftInBit(raw: int, shift: nat, word: nat, data: int, i: nat)
    ensures Bit(InsertBits(raw, shift, word, data), i) <==> (shift <= i < word && Bit(raw, i - shift)) || Bit(data, i)
  {
    OrBit(Low(Shl(raw, shift), word), data, i);
    LowBit(Shl(raw, shift), word, i);
    ShlBit(raw, shift, i);
  }

  lemma SlicePlace(l: Layout, f: Frame, b: nat, i: nat)
    requires Fits(l, |f|) && InBytes(l, b) && i < Width(l, b)
    ensures Place(l, b) >= 0
    ensures HasPlace(l, f, Place(l, b) + i) <==> Bit(f[b], Lo(l, b) + i)
  {
    var j := Lo(l, b) + i;
    SliceOfByte(l, b);
    SliceBit(l, b, j);
    assert (8 * b + j) / 8 == b && (8 * b + j) % 8 == j;
  }

  /** One turn of the loop: making room for a slice and inserting it. */
  lemma ShiftIn(l: Layout, f: Frame, word: nat, b: nat, raw: int, shift: nat, data: int)
    requires Fits(l, |f|) && InBytes(l, b) && word >= 8
    requires shift == Width(l, b) && Place(l, b) >= 0
    requires HoldsFrom(l, f, word, Place(l, b) + shift, raw)
    requires IsSlice(l, f, b, data)
    ensures HoldsFrom(l, f, word, Place(l, b), InsertBits(raw, shift, word, data))
  {
    SliceOfByte(l, b);
    var r := InsertBits(raw, shift, word, data);
    forall i: nat ensures Bit(r, i) <==> i < word && HasPlace(l, f, Place(l, b) + i) {
      ShiftInBit(raw, shift, word, data, i);
      assert Bit(data, i) <==> i < Width(l, b) && Bit(f[b], Lo(l, b) + i);
      if i < shift {
        SlicePlace(l, f, b, i);
      } else {
        var k := i - shift;
        assert Bit(raw, k) <==> k < word && HasPlace(l, f, Place(l, b) + shift + k);
        assert Place(l, b) + shift + k == Place(l, b) + i;
      }
    }
  }

  /** What the masking branches leave in `data` is the signal's slice of the byte. */
  lemma CutIsData(l: Layout, f: Frame, b: nat, data: int)
    requires Fits(l, |f|) && InBytes(l, b)
    requires var lo, hi := Lo(l, b), Hi(l, b);
             lo <= hi <= 7 &&
             data == Shr(if hi == 7 then f[b] else MaskTo(f[b], hi), lo)
    ensures IsSlice(l, f, b, data)
  {
    CutIsSlice(l, f, b);
    NoMask(f[b]);
  }

  /** One turn of a loop, whatever branches it takes: the places of one more byte are in. */
  lemma Turn(l: Layout, f: Frame, word: nat, b: nat, raw: int, shift: nat, data: int)
    requires Fits(l, |f|) && InBytes(l, b) && word >= 8
    requires HoldsFrom(l, f, word, PlacesAbove(l, b), raw)
    requires var lo, hi := Lo(l, b), Hi(l, b);
             lo <= hi <= 7 && shift == hi - lo + 1 &&
             data == Shr(if hi == 7 then f[b] else MaskTo(f[b], hi), lo)
    ensures HoldsFrom(l, f, word, PlacesAbove(l, if l.bigEndian then b + 1 else b - 1),
                      InsertBits(raw, shift, word, data))
  {
    OneByte(l, b);
    CutIsData(l, f, b, data);
    ShiftIn(l, f, word, b, raw, shift, data);
  }

  lemma NothingYet(l: Layout, f: Frame, word: nat)
    ensures HoldsFrom(l, f, word, l.bitLen, 0)
  {
    forall i: nat ensures !Bit(0, i) { ConstBit(0, i); }
  }

  lemma AllPlaces(l: Layout, f: Frame, word: nat, raw: int)
    requires Fits(l, |f|) && HoldsFrom(l, f, word, 0, raw)
    ensures raw == Low(Raw(l, f), word)
  {
    forall i: nat ensures Bit(raw, i) <==> i < word && HasPlace(l, f, i) {
      assert HasPlace(l, f, i) <==> HasPlace(l, f, 0 + i);
    }
    RawUnique(l, f, word, raw);
  }

  /** The byte loop of `canMessage_decode`, big-endian branch. */
  method AlignBigEndian(l: Layout, f: Frame, word: nat) returns (rawValue: int)
    requires l.bigEndian && Fits(l, |f|) && word >= 8
    ensures rawValue == Low(Raw(l, f), word)
  {
    var startOffset, startByte := l.bitStart % 8, l.bitStart / 8;
    var endByte := startByte + (7 + l.bitLen - startOffset - 1) / 8;
    var endOffset := (startOffset - l.bitLen + 1) % 8;
    assert endByte == EndByte(l) && endOffset == EndOffset(l);
    rawValue := 0;
    NothingYet(l, f, word);
    FirstByte(l);
    var workByte := startByte;
    while workByte <= endByte
      invariant startByte <= workByte <= endByte + 1
      invariant HoldsFrom(l, f, word, PlacesAbove(l, workByte), rawValue)
    {
      SliceOfByte(l, workByte);
      var data: int := f[workByte];
      var shift: nat;
      if workByte == startByte && startOffset != 7 {
        data := MaskTo(data, startOffset);
        shift := startOffset + 1;
      } else {
        shift := 8;
      }
      if workByte == endByte && endOffset != 0 {
        data := Shr(data, endOffset);
        shift := shift - endOffset;
      }
      Turn(l, f, word, workByte, rawValue, shift, data);
      rawValue := InsertBits(rawValue, shift, word, data);
      workByte := workByte + 1;
    }
    AllPlaces(l, f, word, rawValue);
  }

  /** The byte loop of `canMessage_decode`, little-endian branch. */
  method AlignLittleEndian(l: Layout, f: Frame, word: nat) returns (rawValue: int)
    requires !l.bigEndian && Fits(l, |f|) && word >= 8
    ensures rawValue == Low(Raw(l, f), word)
  {
    var startOffset, startByte := l.bitStart % 8, l.bitStart / 8;
    var endByte := startByte + (l.bitLen + startOffset - 1) / 8;
    var endOffset := (startOffset + l.bitLen - 1) % 8;
    assert endByte == EndByte(l) && endOffset == EndOffset(l);
    rawValue := 0;
    NothingYet(l, f, word);
    FirstByte(l);
    var workByte: int := endByte;
    while workByte >= startByte
      invariant startByte - 1 <= workByte <= endByte
      invariant HoldsFrom(l, f, word, PlacesAbove(l, workByte), rawValue)
    {
      SliceOfByte(l, workByte);
      var data: int := f[workByte];
      var shift: nat;
      if workByte == endByte && endOffset != 7 {
        data := MaskTo(data, endOffset);
        shift := endOffset + 1;
      } else {
        shift := 8;
      }
      if workByte == startByte && startOffset != 0 {
        data := Shr(data, startOffset);
        shift := shift - startOffset;
      }
      Turn(l, f, word, workByte, rawValue, shift, data);
      rawValue := InsertBits(rawValue, shift, word, data);
      workByte := workByte - 1;
    }
    AllPlaces(l, f, word, rawValue);
  }

  /** The byte loop of the panel's `decodeCanMessage`, big-endian branch. */
  method PanelAlignBigEndian(l: Layout, f: Frame, word: nat) returns (rawValue: int)
    requires l.bigEndian && Fits(l, |f|) && word >= 8
    ensures rawValue == Low(Raw(l, f), word)
  {
    var startOffset, startByte := l.bitStart % 8, l.bitStart / 8;
    var endByte := startByte + (7 + l.bitLen - startOffset - 1) / 8;
    var endOffset := (startOffset - l.bitLen + 1) % 8;
    assert endByte == EndByte(l) && endOffset == EndOffset(l);
    rawValue := 0;
    NothingYet(l, f, word);
    FirstByte(l);
    var workByte := startByte;
    while workByte <= endByte
      invariant startByte <= workByte <= endByte + 1
      invariant HoldsFrom(l, f, word, PlacesAbove(l, workByte), rawValue)
    {
      SliceOfByte(l, workByte);
      var data: int := f[workByte];
      var shift: nat;
      if workByte == startByte && workByte == endByte && startOffset != 7 && endOffset != 0 {
        data := MaskTo(data, startOffset);
        data := Shr(data, endOffset);
        shift := startOffset - endOffset + 1;
      } else if workByte == startByte && startOffset != 7 {
        data := MaskTo(data, startOffset);
        shift := startOffset + 1;
      } else if workByte == endByte && endOffset != 0 {
        data := Shr(data, endOffset);
        shift := 8 - endOffset;
      } else {
        shift := 8;
      }
      Turn(l, f, word, workByte, rawValue, shift, data);
      rawValue := InsertBits(rawValue, shift, word, data);
      workByte := workByte + 1;
    }
    AllPlaces(l, f, word, rawValue);
  }

  /** The byte loop of the panel's `decodeCanMessage`, little-endian branch. */
  method PanelAlignLittleEndian(l: Layout, f: Frame, word: nat) returns (rawValue: int)
    requires !l.bigEndian && Fits(l, |f|) && word >= 8
    ensures rawValue == Low(Raw(l, f), word)
  {
    var startOffset, startByte := l.bitStart % 8, l.bitStart / 8;
    var endByte := startByte + (l.bitLen + startOffset - 1) / 8;
    var endOffset := (startOffset + l.bitLen - 1) % 8;
    assert endByte == EndByte(l) && endOffset == EndOffset(l);
    rawValue := 0;
    NothingYet(l, f, word);
    FirstByte(l);
    var workByte: int := endByte;
    while workByte >= startByte
      invariant startByte - 1 <= workByte <= endByte
      invariant HoldsFrom(l, f, word, PlacesAbove(l, workByte), rawValue)
    {
      SliceOfByte(l, workByte);
      var data: int := f[workByte];
      var shift: nat;
      if workByte == startByte && workByte == endByte && startOffset != 0 && endOffset != 7 {
        data := MaskTo(data, endOffset);
        data := Shr(data, startOffset);
        shift := endOffset - startOffset + 1;
      } else if workByte == endByte && endOffset != 7 {
        data := MaskTo(data, endOffset);
        shift := endOffset + 1;
      } else if workByte == startByte && startOffset != 0 {
        data := Shr(data, startOffset);
        shift := 8 - startOffset;
      } else {
        shift := 8;
      }
      Turn(l, f, word, workByte, rawValue, shift, data);
      rawValue := InsertBits(rawValue, shift, word, data);
      workByte := workByte - 1;
    }
    AllPlaces(l, f, word, rawValue);
  }

  // ----- sign extension

  /** Flipping a bit adds its weight when it is clear and subtracts it when it is set. */
  lemma FlipBit(x: int, k: nat)
    ensures Xor(x, Pow2(k)) == if Bit(x, k) then x - Pow2(k) else x + Pow2(k)
  {
    var m := Pow2(k);
    var y := Xor(x, m);
    var low := if Bit(x, k) then y else x;
    var high := if Bit(x, k) then x else y;
    forall i: nat ensures Bit(y, i) <==> if i == k then !Bit(x, k) else Bit(x, i) {
      XorBit(x, m, i);
      Pow2Bit(k, i);
    }
    forall i: nat ensures !(Bit(low, i) && Bit(m, i)) {
      Pow2Bit(k, i);
    }
    forall i: nat ensures Bit(low + m, i) <==> Bit(high, i) {
      AddBit(low, m, i);
      Pow2Bit(k, i);
    }
    SameBits(low + m, high);
  }

  /** For a number of `len` bits, flipping the top bit and subtracting its weight extends the sign. */
  lemma XorSubtractExtends(raw: int, len: nat)
    requires len >= 1 && 0 <= raw < Pow2(len)
    ensures Xor(raw, Shl(1, len - 1)) - Shl(1, len - 1) == SignExt(raw, len)
  {
    ShlIsMul(1, len - 1);
    FlipBit(raw, len - 1);
    LowOfSmall(raw, len);
    SignExtMeaning(raw, len);
  }

  /** What the decoders multiply by the scale: the raw word after the sign step. */
  function Interpreted(l: Layout, f: Frame, word: nat): int
    requires Fits(l, |f|) && word >= 32
  {
    var raw := Low(Raw(l, f), word);
    if !l.signed then raw
    else if l.bitLen < 32 then SignExt(raw, l.bitLen)
    else SignExt(raw, word)
  }

  /** `canMessage_decode` for one signal: raw word and physical value handed to the callback. */
  method DecodeSignal(l: Layout, f: Frame, word: nat, scale: real, offset: real)
      returns (rawValue: int, physicalValue: real)
    requires Fits(l, |f|) && word >= 32
    ensures rawValue == Low(Interpreted(l, f, word), word)
    ensures physicalValue == Interpreted(l, f, word) as real * scale + offset
  {
    if l.bigEndian {
      rawValue := AlignBigEndian(l, f, word);
    } else {
      rawValue := AlignLittleEndian(l, f, word);
    }
    rawValue, physicalValue := Finish(l, f, word, rawValue, scale, offset);
  }

  /** `CanMsgParser::decodeCanMessage` for one signal. */
  method PanelDecodeSignal(l: Layout, f: Frame, word: nat, scale: real, offset: real)
      returns (rawValue: int, physicalValue: real)
    requires Fits(l, |f|) && word >= 32
    ensures rawValue == Low(Interpreted(l, f, word), word)
    ensures physicalValue == Interpreted(l, f, word) as real * scale + offset
  {
    if l.bigEndian {
      rawValue := PanelAlignBigEndian(l, f, word);
    } else {
      rawValue := PanelAlignLittleEndian(l, f, word);
    }
    rawValue, physicalValue := Finish(l, f, word, rawValue, scale, offset);
  }

  /** Sign extension and scaling, the same statements in both decoders. */
  method Finish(l: Layout, f: Frame, word: nat, aligned: int, scale: real, offset: real)
      returns (rawValue: int, physicalValue: real)
    requires Fits(l, |f|) && word >= 32
    requires aligned == Low(Raw(l, f), word)
    ensures rawValue == Low(Interpreted(l, f, word), word)
    ensures physicalValue == Interpreted(l, f, word) as real * scale + offset
  {
    rawValue := aligned;
    if l.signed && l.bitLen < 32 {
      ShortRawFitsWord(l, f, word);
      XorSubtractExtends(rawValue, l.bitLen);
      SignedShortIsSmall(l, f, word);
      var m := Shl(1, l.bitLen - 1);
      var extended := Xor(SignExt(rawValue, word), m) - m;
      assert extended == Interpreted(l, f, word);
      rawValue := Low(extended, word);
    } else {
      LowTwice(Raw(l, f), word);
      SignExtLow(Low(Raw(l, f), word), word);
    }
    if l.signed {
      physicalValue := SignExt(rawValue, word) as real * scale + offset;
    } else {
      physicalValue := rawValue as real * scale + offset;
    }
  }

  lemma ShortRawFitsWord(l: Layout, f: Frame, word: nat)
    requires Fits(l, |f|) && l.bitLen < word
    ensures 0 <= Raw(l, f) < Pow2(l.bitLen) <= Pow2(word - 1) <= Pow2(word)
    ensures Low(Raw(l, f), word) == Raw(l, f) == SignExt(Raw(l, f), word)
  {
    RawRange(l, f, l.bitLen);
    Pow2Mono(l.bitLen, word - 1);
    Pow2Mono(word - 1, word);
    LowOfSmall(Raw(l, f), word);
    SignExtOfSmall(Raw(l, f), word);
  }

  lemma SignedShortIsSmall(l: Layout, f: Frame, word: nat)
    requires Fits(l, |f|) && l.bitLen < word
    ensures SignExt(Low(SignExt(Raw(l, f), l.bitLen), word), word) == SignExt(Raw(l, f), l.bitLen)
  {
    var v := SignExt(Raw(l, f), l.bitLen);
    SignExtMeaning(Raw(l, f), l.bitLen);
    Pow2Mono(l.bitLen - 1, word - 1);
    SignExtLow(v, word);
    SignExtOfSmall(v, word);
  }

  lemma {:induction false} LowTwice(x: int, w: nat)
    ensures Low(Low(x, w), w) == Low(x, w)
  {
    LowOfSmall(Low(x, w), w);
  }

  lemma SignExtLow(x: int, w: nat)
    requires w >= 1
    ensures SignExt(Low(x, w), w) == SignExt(x, w)
    ensures Low(SignExt(x, w), w) == Low(x, w)
  {
    forall i: nat ensures Bit(SignExt(Low(x, w), w), i) <==> Bit(SignExt(x, w), i) {
      SignExtBit(Low(x, w), w, i);
      SignExtBit(x, w, i);
      LowBit(x, w, Min(i, w - 1));
    }
    SameBits(SignExt(Low(x, w), w), SignExt(x, w));
    forall i: nat ensures Bit(Low(SignExt(x, w), w), i) <==> Bit(Low(x, w), i) {
      LowBit(SignExt(x, w), w, i);
      LowBit(x, w, i);
      SignExtBit(x, w, i);
    }
    SameBits(Low(SignExt(x, w), w), Low(x, w));
  }

  // ----- when the decoders compute the value the layout stands for

  predicate DecodesExactly(l: Layout, word: nat) {
    l.bitLen <= word && (l.signed && 32 <= l.bitLen ==> l.bitLen == word)
  }

  /**
   The decoders give the signal's value on every frame exactly when the signal fits the word
   and, if it is signed, is either below 32 bits or fills the word: the sign step is guarded
   by `bit_len < 32` although the word may have 64 bits.
   */
  lemma DecoderExactIff(l: Layout, n: nat, word: nat)
    requires Fits(l, n) && word >= 32
    ensures DecodesExactly(l, word) <==>
      forall f: Frame :: |f| == n ==> Interpreted(l, f, word) == Value(l, f)
  {
    if DecodesExactly(l, word) {
      forall f: Frame | |f| == n ensures Interpreted(l, f, word) == Value(l, f) {
        ExactLayoutDecodes(l, f, word);
      }
    } else {
      var f := TopBitFrame(l, n);
      TopBitFrameRaw(l, n);
      TopBitFrameDecodesWrong(l, n, word);
      assert |f| == n && Interpreted(l, f, word) != Value(l, f);
    }
  }

  lemma ExactLayoutDecodes(l: Layout, f: Frame, word: nat)
    requires Fits(l, |f|) && word >= 32 && DecodesExactly(l, word)
    ensures Interpreted(l, f, word) == Value(l, f)
  {
    RawRange(l, f, l.bitLen);
    Pow2Mono(l.bitLen, word);
    LowOfSmall(Raw(l, f), word);
  }

  /** The frame in which only the signal's most significant bit is set. */
  function TopBitFrame(l: Layout, n: nat): (f: Frame)
    requires Fits(l, n)
    ensures |f| == n
  {
    var p := SigBit(l, l.bitLen - 1);
    SmallPow2(p % 8);
    seq(n, b => if b == p / 8 then Pow2(p % 8) else 0)
  }

  lemma SmallPow2(k: nat)
    requires k < 8
    ensures Pow2(k) < 256
  {
    Pow2Mono(k, 7);
    Pow2Of8();
    assert Pow2(8) == 2 * Pow2(7);
  }

  lemma TopBitFrameRaw(l: Layout, n: nat)
    requires Fits(l, n)
    ensures Raw(l, TopBitFrame(l, n)) == Pow2(l.bitLen - 1)
  {
    var f, top := TopBitFrame(l, n), l.bitLen - 1;
    var p := SigBit(l, top);
    SigBitInFrame(l, top, n);
    forall i: nat ensures Bit(Raw(l, f), i) <==> Bit(Pow2(top), i) {
      RawBit(l, f, i);
      Pow2Bit(top, i);
      if i < l.bitLen {
        var q := SigBit(l, i);
        SigBitInFrame(l, i, n);
        if q == p { SigBitInjective(l, i, top); }
        if q / 8 == p / 8 { Pow2Bit(p % 8, q % 8); } else { ConstBit(0, q % 8); }
      }
    }
    SameBits(Raw(l, f), Pow2(top));
  }

  lemma TopBitFrameDecodesWrong(l: Layout, n: nat, word: nat)
    requires Fits(l, n) && word >= 32 && !DecodesExactly(l, word)
    ensures Interpreted(l, TopBitFrame(l, n), word) != Value(l, TopBitFrame(l, n))
  {
    TopBitFrameValue(l, n);
    if l.bitLen > word {
      PowerLostInWord(l.bitLen - 1, word);
    } else {
      var x := Pow2(l.bitLen - 1);
      Pow2Mono(l.bitLen, word - 1);
      Pow2Mono(word - 1, word);
      LowOfSmall(x, word);
      SignExtOfSmall(x, word);
    }
  }

  lemma TopBitFrameValue(l: Layout, n: nat)
    requires Fits(l, n)
    ensures Raw(l, TopBitFrame(l, n)) == Pow2(l.bitLen - 1) > 0
    ensures Value(l, TopBitFrame(l, n)) == if l.signed then -Pow2(l.bitLen - 1) else Pow2(l.bitLen - 1)
  {
    var x := Pow2(l.bitLen - 1);
    TopBitFrameRaw(l, n);
    SignExtMeaning(x, l.bitLen);
    Pow2Bit(l.bitLen - 1, l.bitLen - 1);
    LowOfSmall(x, l.bitLen);
  }

  lemma PowerLostInWord(k: nat, word: nat)
    requires k >= word >= 1
    ensures Low(Pow2(k), word) == 0 && SignExt(0, word) == 0
  {
    forall i: nat ensures Bit(Low(Pow2(k), word), i) <==> Bit(0, i) {
      LowBit(Pow2(k), word, i);
      Pow2Bit(k, i);
      ConstBit(0, i);
    }
    SameBits(Low(Pow2(k), word), 0);
    SignExtOfSmall(0, word);
  }
}
