/**
 The meaning of a signal layout: which bit of the frame holds which place value.
 Bits of a frame are numbered `8 * byte + offset`. This module is the common
 specification of the run-time decoders, the code generator and the packer; it
 contains none of their loops.
 */
module SignalLayout {
  import opened Bits

  type Byte = x: int | 0 <= x < 256

  type Frame = seq<Byte>

  const MAX_FRAME := 8

  /** `(uint8)~0`. */
  const ONES: int := 255

  datatype Layout = Layout(bitStart: nat, bitLen: nat, bigEndian: bool, signed: bool)

  function StartByte(l: Layout): nat { l.bitStart / 8 }

  function StartOffset(l: Layout): nat { l.bitStart % 8 }

  function EndByte(l: Layout): nat
    requires l.bitLen >= 1
  {
    if l.bigEndian
    then StartByte(l) + (7 + l.bitLen - StartOffset(l) - 1) / 8
    else StartByte(l) + (l.bitLen + StartOffset(l) - 1) / 8
  }

  function EndOffset(l: Layout): nat {
    if l.bigEndian then (StartOffset(l) - l.bitLen + 1) % 8 else (StartOffset(l) + l.bitLen - 1) % 8
  }

  /** The signal is not empty and lies inside a frame of `n` bytes. */
  predicate Fits(l: Layout, n: nat) {
    l.bitLen >= 1 && n <= MAX_FRAME && EndByte(l) < n
  }

  /**
   Frame bit that holds place value `2^i`. Little endian: places go up with the bit
   numbers. Big endian (Motorola): `bitStart` is the most significant bit, and places go
   down through each byte and then on to the top of the next byte.
   */
  function SigBit(l: Layout, i: nat): nat
    requires i < l.bitLen
  {
    if l.bigEndian
    then
      var m := 8 * StartByte(l) + (7 - StartOffset(l)) + (l.bitLen - 1 - i);
      8 * (m / 8) + (7 - m % 8)
    else l.bitStart + i
  }

  predicate FrameBit(f: Frame, p: nat)
    requires p < 8 * |f|
  {
    Bit(f[p / 8], p % 8)
  }

  /** Place `2^i` of the signal is set in the frame. */
  predicate HasPlace(l: Layout, f: Frame, i: nat) {
    i < l.bitLen && SigBit(l, i) < 8 * |f| && FrameBit(f, SigBit(l, i))
  }

  /** Sum of the place values of the signal bits that are set, over the lowest `n` places. */
  function PlaceValueSum(l: Layout, f: Frame, n: nat): int
    requires Fits(l, |f|) && n <= l.bitLen
  {
    if n == 0 then 0
    else PlaceValueSum(l, f, n - 1) + if HasPlace(l, f, n - 1) then Pow2(n - 1) else 0
  }

  /** The unsigned number the signal's bits spell. */
  function Raw(l: Layout, f: Frame): int
    requires Fits(l, |f|)
  {
    PlaceValueSum(l, f, l.bitLen)
  }

  /** The number the signal stands for: two's complement when the layout is signed. */
  function Value(l: Layout, f: Frame): int
    requires Fits(l, |f|)
  {
    if l.signed then SignExt(Raw(l, f), l.bitLen) else Raw(l, f)
  }

  // ----- which part of a byte belongs to the signal

  function Lo(l: Layout, b: nat): nat
    requires l.bitLen >= 1
  {
    if l.bigEndian then if b == EndByte(l) then EndOffset(l) else 0
    else if b == StartByte(l) then StartOffset(l) else 0
  }

  function Hi(l: Layout, b: nat): nat
    requires l.bitLen >= 1
  {
    if l.bigEndian then if b == StartByte(l) then StartOffset(l) else 7
    else if b == EndByte(l) then EndOffset(l) else 7
  }

  /** Exponent of the place value held by bit `Lo(l, b)` of byte `b`. */
  function Place(l: Layout, b: nat): int
    requires l.bitLen >= 1
  {
    if l.bigEndian
    then if b == EndByte(l) then 0 else 8 * (EndByte(l) - b) - EndOffset(l)
    else if b == StartByte(l) then 0 else 8 * (b - StartByte(l)) - StartOffset(l)
  }

  function Width(l: Layout, b: nat): int
    requires l.bitLen >= 1
  {
    Hi(l, b) - Lo(l, b) + 1
  }

  /** Byte `b` of the frame is one of the signal's bytes. */
  predicate InBytes(l: Layout, b: nat)
    requires l.bitLen >= 1
  {
    StartByte(l) <= b <= EndByte(l)
  }

  ghost predicate Covers(l: Layout, p: nat) {
    exists i: nat :: i < l.bitLen && SigBit(l, i) == p
  }

  // ----- the slices of the bytes are exactly the signal

  lemma SigBitInFrame(l: Layout, i: nat, n: nat)
    requires Fits(l, n) && i < l.bitLen
    ensures SigBit(l, i) < 8 * n
  {
  }

  /** Where the last place lies, in the bit order of the layout. */
  lemma Ends(l: Layout)
    requires l.bitLen >= 1
    ensures 0 <= EndOffset(l) <= 7 && StartByte(l) <= EndByte(l)
    ensures if l.bigEndian
            then 8 * EndByte(l) + 7 - EndOffset(l) == 8 * StartByte(l) + 7 - StartOffset(l) + l.bitLen - 1
            else 8 * EndByte(l) + EndOffset(l) == 8 * StartByte(l) + StartOffset(l) + l.bitLen - 1
  {
  }

  /** The slice of byte `b` is a run of `Width` bits holding consecutive places from `Place` on. */
  lemma SliceOfByte(l: Layout, b: nat)
    requires l.bitLen >= 1 && InBytes(l, b)
    ensures 0 <= Lo(l, b) <= Hi(l, b) <= 7
    ensures 0 <= Place(l, b) && Place(l, b) + Width(l, b) <= l.bitLen
  {
    Ends(l);
  }

  lemma SliceBit(l: Layout, b: nat, j: nat)
    requires l.bitLen >= 1 && InBytes(l, b) && Lo(l, b) <= j <= Hi(l, b)
    ensures 0 <= Place(l, b) + j - Lo(l, b) < l.bitLen && j <= 7
    ensures SigBit(l, Place(l, b) + j - Lo(l, b)) == 8 * b + j
  {
    SliceOfByte(l, b);
    Ends(l);
    if l.bigEndian {
      var m := 8 * b + 7 - j;
      assert m / 8 == b && m % 8 == 7 - j;
    }
  }

  /** Every place of the signal lies in the slice of its byte. */
  lemma PlaceInSlice(l: Layout, i: nat)
    requires l.bitLen >= 1 && i < l.bitLen
    ensures var b, j := SigBit(l, i) / 8, SigBit(l, i) % 8;
            InBytes(l, b) && Lo(l, b) <= j <= Hi(l, b) && Place(l, b) + j - Lo(l, b) == i
  {
    Ends(l);
    var p := SigBit(l, i);
    var b, j := p / 8, p % 8;
    assert p == 8 * b + j;
    if l.bigEndian {
      var m := 8 * StartByte(l) + (7 - StartOffset(l)) + (l.bitLen - 1 - i);
      assert m == 8 * b + 7 - j;
    }
    PlaceOfBit(l, i, b, j);
  }

  lemma PlaceOfBit(l: Layout, i: nat, b: nat, j: nat)
    requires l.bitLen >= 1 && i < l.bitLen && j <= 7
    requires if l.bigEndian
             then 8 * b + 7 - j == 8 * StartByte(l) + (7 - StartOffset(l)) + (l.bitLen - 1 - i)
             else 8 * b + j == 8 * StartByte(l) + StartOffset(l) + i
    ensures InBytes(l, b) && Lo(l, b) <= j <= Hi(l, b) && Place(l, b) + j - Lo(l, b) == i
  {
    Ends(l);
  }

  /** The first byte starts, and the last byte ends, the sequence of places. */
  lemma SlicesTile(l: Layout, b: nat)
    requires l.bitLen >= 1 && InBytes(l, b)
    ensures l.bigEndian ==>
      if b == EndByte(l) then Place(l, b) == 0 else Place(l, b) == Place(l, b + 1) + Width(l, b + 1)
    ensures !l.bigEndian ==>
      if b == StartByte(l) then Place(l, b) == 0 else Place(l, b) == Place(l, b - 1) + Width(l, b - 1)
    ensures b == (if l.bigEndian then StartByte(l) else EndByte(l)) ==> Place(l, b) + Width(l, b) == l.bitLen
  {
    Ends(l);
  }

  /** Number of places not yet taken when a loop that starts at the most significant byte is at byte `b`. */
  function PlacesAbove(l: Layout, b: int): int
    requires l.bitLen >= 1
  {
    if b < 0 || !InBytes(l, b) then 0 else Place(l, b) + Width(l, b)
  }

  /** Each turn of a loop takes the places of one byte. */
  lemma OneByte(l: Layout, b: nat)
    requires l.bitLen >= 1 && InBytes(l, b)
    ensures Lo(l, b) <= Hi(l, b) <= 7 && Place(l, b) >= 0
    ensures PlacesAbove(l, b) == Place(l, b) + Width(l, b)
    ensures PlacesAbove(l, if l.bigEndian then b + 1 else b - 1) == Place(l, b)
  {
    SliceOfByte(l, b);
    SlicesTile(l, b);
    if l.bigEndian {
      if b < EndByte(l) { SlicesTile(l, b + 1); }
    } else if b > StartByte(l) {
      SlicesTile(l, b - 1);
    }
  }

  /** Number of places already taken when a loop that starts at the least significant byte is at byte `b`. */
  function PlacesBelow(l: Layout, b: int): int
    requires l.bitLen >= 1
  {
    if b < 0 || !InBytes(l, b) then l.bitLen else Place(l, b)
  }

  lemma OneByteUp(l: Layout, b: nat)
    requires l.bitLen >= 1 && InBytes(l, b) && !l.bigEndian
    ensures Lo(l, b) <= Hi(l, b) <= 7 && Place(l, b) >= 0
    ensures PlacesBelow(l, b) == Place(l, b)
    ensures PlacesBelow(l, b + 1) == Place(l, b) + Width(l, b)
    ensures PlacesBelow(l, StartByte(l)) == 0
  {
    SliceOfByte(l, b);
    SlicesTile(l, b);
    SlicesTile(l, StartByte(l));
    if b < EndByte(l) { SlicesTile(l, b + 1); }
  }

  lemma FirstByte(l: Layout)
    requires l.bitLen >= 1
    ensures StartByte(l) <= EndByte(l)
    ensures PlacesAbove(l, if l.bigEndian then StartByte(l) else EndByte(l)) == l.bitLen
    ensures !l.bigEndian ==> PlacesBelow(l, StartByte(l)) == 0
  {
    SlicesTile(l, StartByte(l));
    SlicesTile(l, if l.bigEndian then StartByte(l) else EndByte(l));
  }

  lemma CoversIffInSlice(l: Layout, p: nat)
    requires l.bitLen >= 1
    ensures Covers(l, p) <==> InBytes(l, p / 8) && Lo(l, p / 8) <= p % 8 <= Hi(l, p / 8)
  {
    if Covers(l, p) {
      var i: nat :| i < l.bitLen && SigBit(l, i) == p;
      PlaceInSlice(l, i);
    }
    var b, j := p / 8, p % 8;
    if InBytes(l, b) && Lo(l, b) <= j <= Hi(l, b) {
      SliceBit(l, b, j);
    }
  }

  /** Two places of one signal never share a frame bit. */
  lemma SigBitInjective(l: Layout, i: nat, k: nat)
    requires i < l.bitLen && k < l.bitLen && SigBit(l, i) == SigBit(l, k)
    ensures i == k
  {
    PlaceInSlice(l, i);
    PlaceInSlice(l, k);
  }

  // ----- bits of the specification

  lemma {:induction false} Pow2Bit(k: nat, i: nat)
    ensures Bit(Pow2(k), i) <==> i == k
  {
    if k == 0 {
      if i > 0 { ConstBit(0, i - 1); }
    } else {
      BitOfDouble(Pow2(k - 1), 0, i);
      if i > 0 { Pow2Bit(k - 1, i - 1); }
    }
  }

  lemma {:induction false} OnesBit(k: nat, i: nat)
    ensures Bit(Pow2(k) - 1, i) <==> i < k
  {
    if k == 0 {
      ConstBit(0, i);
    } else {
      BitOfDouble(Pow2(k - 1) - 1, 1, i);
      if i > 0 { OnesBit(k - 1, i - 1); }
    }
  }

  lemma {:induction false} PlaceValueSumBit(l: Layout, f: Frame, n: nat, i: nat)
    requires Fits(l, |f|) && n <= l.bitLen
    ensures Bit(PlaceValueSum(l, f, n), i) <==> i < n && HasPlace(l, f, i)
    decreases n
  {
    if n == 0 {
      ConstBit(0, i);
    } else {
      var rest := PlaceValueSum(l, f, n - 1);
      var top := if HasPlace(l, f, n - 1) then Pow2(n - 1) else 0;
      forall j: nat ensures Bit(rest, j) ==> j < n - 1 {
        PlaceValueSumBit(l, f, n - 1, j);
      }
      forall j: nat ensures Bit(top, j) <==> j == n - 1 && HasPlace(l, f, n - 1) {
        if top == 0 { ConstBit(0, j); } else { Pow2Bit(n - 1, j); }
      }
      AddBit(rest, top, i);
      PlaceValueSumBit(l, f, n - 1, i);
    }
  }

  lemma RawBit(l: Layout, f: Frame, i: nat)
    requires Fits(l, |f|)
    ensures Bit(Raw(l, f), i) <==> HasPlace(l, f, i)
  {
    PlaceValueSumBit(l, f, l.bitLen, i);
  }

  /** A number with exactly the signal's bits below `w` is the raw value modulo `2^w`. */
  lemma RawUnique(l: Layout, f: Frame, w: nat, x: int)
    requires Fits(l, |f|)
    requires forall i: nat :: Bit(x, i) <==> i < w && HasPlace(l, f, i)
    ensures x == Low(Raw(l, f), w)
  {
    forall i: nat ensures Bit(x, i) <==> Bit(Low(Raw(l, f), w), i) {
      RawBit(l, f, i);
      LowBit(Raw(l, f), w, i);
    }
    SameBits(x, Low(Raw(l, f), w));
  }

  lemma {:induction false} RawRange(l: Layout, f: Frame, n: nat)
    requires Fits(l, |f|) && n <= l.bitLen
    ensures 0 <= PlaceValueSum(l, f, n) < Pow2(n)
  {
    if n > 0 { RawRange(l, f, n - 1); }
  }

  lemma Pow2Of8()
    ensures Pow2(8) == 256
  {
    assert Pow2(4) == 16;
    assert Pow2(5) == 32;
    assert Pow2(6) == 64;
  }

  lemma ByteBit(x: Byte, i: nat)
    ensures Bit(x, i) ==> i < 8
  {
    if i >= 8 {
      Pow2Of8();
      HighBitsZero(x, 8, i);
    }
  }

  lemma SameFrames(f: Frame, g: Frame)
    requires |f| == |g|
    requires forall p: nat :: p < 8 * |f| ==> (FrameBit(f, p) <==> FrameBit(g, p))
    ensures f == g
  {
    forall b | 0 <= b < |f| ensures f[b] == g[b] {
      forall i: nat ensures Bit(f[b], i) <==> Bit(g[b], i) {
        if i < 8 {
          var p := 8 * b + i;
          assert p / 8 == b && p % 8 == i;
          assert FrameBit(f, p) <==> FrameBit(g, p);
        } else {
          ByteBit(f[b], i);
          ByteBit(g[b], i);
        }
      }
      SameBits(f[b], g[b]);
    }
  }
}
