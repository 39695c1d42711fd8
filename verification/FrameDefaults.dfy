/**
 The generated `setDefaultSignals` of a message: clear the frame, then run the setter of every
 signal with its start value. The signals of a message are keyed by name.
 */
module FrameDefaults {
  import opened Bits
  import opened SignalLayout
  import opened SignalDecoder
  import opened SignalCodegen
  import opened CodegenCorrect

  datatype Default = Default(layout: Layout, start: int)

  type Signals = map<string, Default>

  function Zeros(n: nat): (f: Frame)
    ensures |f| == n
  {
    seq(n, _ => 0)
  }

  /** The setters in the order of `names`. */
  function RunSetters(f: Frame, sigs: Signals, names: seq<string>): Frame
    requires forall s :: s in sigs ==> sigs[s].layout.bitLen >= 1
    requires forall k :: 0 <= k < |names| ==> names[k] in sigs
  {
    if names == [] then f
    else
      var n := |names| - 1;
      SetSignal(sigs[names[n]].layout, RunSetters(f, sigs, names[..n]), Int32(sigs[names[n]].start))
  }

  ghost predicate Disjoint(a: Layout, b: Layout) {
    forall p: nat :: !(Covers(a, p) && Covers(b, p))
  }

  ghost predicate WellPlaced(sigs: Signals, n: nat) {
    (forall s :: s in sigs ==> Compilable(sigs[s].layout, n)) &&
    (forall s, t :: s in sigs && t in sigs && s != t ==> Disjoint(sigs[s].layout, sigs[t].layout))
  }

  /** Every signal exactly once. */
  ghost predicate IsOrder(names: seq<string>, sigs: Signals) {
    (forall i, j :: 0 <= i < j < |names| ==> names[i] != names[j]) &&
    (forall s :: s in names <==> s in sigs)
  }

  /** The same signal bits give the same raw value. */
  lemma RawDependsOnCovered(l: Layout, f: Frame, g: Frame)
    requires |f| == |g| && Fits(l, |f|)
    requires forall p: nat :: p < 8 * |f| && Covers(l, p) ==> (FrameBit(f, p) <==> FrameBit(g, p))
    ensures Raw(l, f) == Raw(l, g)
  {
    forall i: nat ensures Bit(Raw(l, f), i) <==> Bit(Raw(l, g), i) {
      RawBit(l, f, i);
      RawBit(l, g, i);
      if i < l.bitLen {
        SigBitInFrame(l, i, |f|);
        assert Covers(l, SigBit(l, i));
      }
    }
    SameBits(Raw(l, f), Raw(l, g));
  }

  lemma Int32KeepsLow(v: int, w: nat)
    requires w <= 32
    ensures Low(Int32(v), w) == Low(v, w)
  {
    forall i: nat ensures Bit(Low(Int32(v), w), i) <==> Bit(Low(v, w), i) {
      LowBit(Int32(v), w, i);
      LowBit(v, w, i);
      Int32Bit(v, i);
    }
    SameBits(Low(Int32(v), w), Low(v, w));
  }

  lemma {:induction false} SettersKeepUncovered(f: Frame, sigs: Signals, names: seq<string>, p: nat)
    requires WellPlaced(sigs, |f|) && p < 8 * |f|
    requires forall k :: 0 <= k < |names| ==> names[k] in sigs && !Covers(sigs[names[k]].layout, p)
    ensures |RunSetters(f, sigs, names)| == |f|
    ensures FrameBit(RunSetters(f, sigs, names), p) <==> FrameBit(f, p)
    decreases |names|
  {
    if names != [] {
      var n := |names| - 1;
      SettersKeepUncovered(f, sigs, names[..n], p);
      SetterWritesSignal(sigs[names[n]].layout, RunSetters(f, sigs, names[..n]), Int32(sigs[names[n]].start));
    }
  }

  lemma {:induction false} SettersKeepLength(f: Frame, sigs: Signals, names: seq<string>)
    requires WellPlaced(sigs, |f|)
    requires forall k :: 0 <= k < |names| ==> names[k] in sigs
    ensures |RunSetters(f, sigs, names)| == |f|
    decreases |names|
  {
    if names != [] {
      var n := |names| - 1;
      SettersKeepLength(f, sigs, names[..n]);
      SetterWritesSignal(sigs[names[n]].layout, RunSetters(f, sigs, names[..n]), Int32(sigs[names[n]].start));
    }
  }

  /** A signal that has been set keeps its value through all later setters. */
  lemma {:induction false} SettersRaw(f: Frame, sigs: Signals, names: seq<string>, k: nat)
    requires WellPlaced(sigs, |f|) && k < |names|
    requires forall i :: 0 <= i < |names| ==> names[i] in sigs
    requires forall i, j :: 0 <= i < j < |names| ==> names[i] != names[j]
    ensures |RunSetters(f, sigs, names)| == |f|
    ensures var d := sigs[names[k]];
            Raw(d.layout, RunSetters(f, sigs, names)) == Low(d.start, d.layout.bitLen)
    decreases |names|
  {
    SettersKeepLength(f, sigs, names);
    var n := |names| - 1;
    var last, d := sigs[names[n]], sigs[names[k]];
    SettersKeepLength(f, sigs, names[..n]);
    var before := RunSetters(f, sigs, names[..n]);
    var after := RunSetters(f, sigs, names);
    SetterWritesSignal(last.layout, before, Int32(last.start));
    if k == n {
      Int32KeepsLow(d.start, d.layout.bitLen);
    } else {
      SettersRaw(f, sigs, names[..n], k);
      assert Disjoint(d.layout, last.layout);
      RawDependsOnCovered(d.layout, before, after);
    }
  }

  /** The frame `setDefaultSignals` leaves when it visits the signals in the order of `names`. */
  function DefaultFrame(n: nat, sigs: Signals, names: seq<string>): Frame
    requires forall s :: s in sigs ==> sigs[s].layout.bitLen >= 1
    requires forall k :: 0 <= k < |names| ==> names[k] in sigs
  {
    RunSetters(Zeros(n), sigs, names)
  }

  /** Every signal reads back its own start value, by its meaning and through its getter. */
  lemma EveryDefaultReadsBack(n: nat, sigs: Signals, names: seq<string>, name: string)
    requires WellPlaced(sigs, n) && IsOrder(names, sigs) && name in sigs
    ensures |DefaultFrame(n, sigs, names)| == n
    ensures var d, f := sigs[name], DefaultFrame(n, sigs, names);
      Value(d.layout, f) == Representable(d.layout, d.start) &&
      (InRange(d.layout, d.start) ==> Value(d.layout, f) == d.start)
    ensures var l, f := sigs[name].layout, DefaultFrame(n, sigs, names);
      GetterParses(l) ==>
        Parse(GetterCode(l)).Some? &&
        Eval(Parse(GetterCode(l)).value, Store(f, 0)) ==
          if l.bitLen < 32 then Representable(l, sigs[name].start) else Int32(sigs[name].start)
  {
    var k :| 0 <= k < |names| && names[k] == name;
    var d := sigs[name];
    SettersRaw(Zeros(n), sigs, names, k);
    SignExtLow(d.start, d.layout.bitLen);
    if InRange(d.layout, d.start) {
      if d.layout.signed { SignExtOfSmall(d.start, d.layout.bitLen); } else { LowOfSmall(d.start, d.layout.bitLen); }
    }
    if GetterParses(d.layout) {
      GetterReturnsValue(d.layout, DefaultFrame(n, sigs, names), 0);
      if d.layout.bitLen == 32 { SignExtLow(d.start, 32); }
    }
  }

  /** Bits that belong to no signal stay cleared. */
  lemma OtherBitsCleared(n: nat, sigs: Signals, names: seq<string>, p: nat)
    requires WellPlaced(sigs, n) && IsOrder(names, sigs) && p < 8 * n
    requires forall s :: s in sigs ==> !Covers(sigs[s].layout, p)
    ensures |DefaultFrame(n, sigs, names)| == n
    ensures !FrameBit(DefaultFrame(n, sigs, names), p)
  {
    SettersKeepUncovered(Zeros(n), sigs, names, p);
    ConstBit(0, p % 8);
  }

  /** The order in which the setters run does not matter. */
  lemma {:induction false} OrderIrrelevant(n: nat, sigs: Signals, a: seq<string>, b: seq<string>)
    requires WellPlaced(sigs, n) && IsOrder(a, sigs) && IsOrder(b, sigs)
    ensures DefaultFrame(n, sigs, a) == DefaultFrame(n, sigs, b)
  {
    var f, g := DefaultFrame(n, sigs, a), DefaultFrame(n, sigs, b);
    SettersKeepLength(Zeros(n), sigs, a);
    SettersKeepLength(Zeros(n), sigs, b);
    forall p: nat | p < 8 * n ensures FrameBit(f, p) <==> FrameBit(g, p) {
      SameBitInBothOrders(n, sigs, a, b, p);
    }
    SameFrames(f, g);
  }

  lemma SameBitInBothOrders(n: nat, sigs: Signals, a: seq<string>, b: seq<string>, p: nat)
    requires WellPlaced(sigs, n) && IsOrder(a, sigs) && IsOrder(b, sigs) && p < 8 * n
    ensures |DefaultFrame(n, sigs, a)| == n && |DefaultFrame(n, sigs, b)| == n
    ensures FrameBit(DefaultFrame(n, sigs, a), p) <==> FrameBit(DefaultFrame(n, sigs, b), p)
  {
    if s :| s in sigs && Covers(sigs[s].layout, p) {
      var l := sigs[s].layout;
      var i: nat :| i < l.bitLen && SigBit(l, i) == p;
      var j :| 0 <= j < |a| && a[j] == s;
      var k :| 0 <= k < |b| && b[k] == s;
      SettersRaw(Zeros(n), sigs, a, j);
      SettersRaw(Zeros(n), sigs, b, k);
      RawBit(l, DefaultFrame(n, sigs, a), i);
      RawBit(l, DefaultFrame(n, sigs, b), i);
    } else {
      OtherBitsCleared(n, sigs, a, p);
      OtherBitsCleared(n, sigs, b, p);
    }
  }
}
