/**
 The CAN receive path as a state machine over whole calls of the driver: frames are put into the ring of
 the device they arrived on, and the interrupt that follows drains the ring of the *current* device into
 the receive delegates. One of the delegates copies payloads into the buffers of the known messages.
 The classes in CanDevices carry these steps out in place.
 */
module CanReceive {
  import opened Basics
  import SignalLayout

  const CAN_MAX_SIZE := 8
  const NUM_CAN_RXBUFFERS := 8
  const MAX_CAN_DELEGATES := 4
  const INVALID_CAN_DEVICE := 255

  type Byte = SignalLayout.Byte

  /** A frame: its identifier and the bytes its length announces. */
  datatype Frame = Frame(id: nat, payload: seq<Byte>)

  datatype Transceiver = Undefined | Standby | Active

  datatype Device = Device(transceiver: Transceiver, queue: seq<Frame>)

  /** A delegate is an object and a function; two delegates are equal when both are. */
  datatype Delegate = Delegate(callee: nat, callback: nat)

  /** MainSystem's own delegate, `processCanMessage_can01`. */
  const MAIN := Delegate(0, 0)

  datatype Call = Call(delegate: Delegate, frame: Frame)

  /** `buffers` are the receive buffers of the known identifiers, each as long as its message. */
  datatype State = State(devices: seq<Device>, delegates: seq<seq<Delegate>>, calls: seq<Call>,
                         buffers: map<nat, seq<Byte>>)

  ghost predicate Shaped(s: State) {
    0 < |s.devices| == |s.delegates| <= INVALID_CAN_DEVICE &&
    (forall d :: 0 <= d < |s.delegates| ==> |s.delegates[d]| <= MAX_CAN_DELEGATES) &&
    (forall d :: 0 <= d < |s.devices| ==> |s.devices[d].queue| <= NUM_CAN_RXBUFFERS)
  }

  /**
   `getDevId`: the difference of two element pointers already is an index, and the code divides it once
   more by the size of an element.
   */
  function DeviceId(k: nat, elementSize: nat, count: nat): nat
    requires elementSize > 0
  {
    var id := k / elementSize % 256;
    if id < count then id else INVALID_CAN_DEVICE
  }

  /** The device an interrupt is raised for is the one that received the frame iff it is the first, or elements had size one. */
  lemma DeviceIdExact(k: nat, elementSize: nat, count: nat)
    requires elementSize > 0 && k < count <= INVALID_CAN_DEVICE
    ensures DeviceId(k, elementSize, count) == k <==> k == 0 || elementSize == 1
    ensures k < elementSize ==> DeviceId(k, elementSize, count) == 0
    ensures DeviceId(k, elementSize, count) < count
  {
    assert k == k / elementSize * elementSize + k % elementSize;
    Quotient(k, elementSize, k / elementSize);
  }

  lemma Quotient(k: nat, size: nat, q: nat)
    requires size > 0 && q * size <= k < q * size + size
    ensures q <= k && (q == k <==> k == 0 || size == 1) && (k < size ==> q == 0)
  {
    if q > 0 && size > 1 {
      Products(q - 1, size - 1);
      assert q * size == (q - 1) * (size - 1) + q + size - 1;
    }
  }

  lemma Products(x: nat, y: nat)
    ensures x * y >= 0
  {
  }

  /** What the message table does with a frame: only a known identifier with the announced length is copied. */
  function Process(buffers: map<nat, seq<Byte>>, f: Frame): map<nat, seq<Byte>> {
    if f.id in buffers && |buffers[f.id]| == |f.payload| then buffers[f.id := f.payload] else buffers
  }

  function CallsTo(ds: seq<Delegate>, f: Frame): seq<Call> {
    seq(|ds|, i requires 0 <= i < |ds| => Call(ds[i], f))
  }

  function Dispatch(s: State, d: nat, f: Frame): State
    requires d < |s.delegates|
  {
    s.(calls := s.calls + CallsTo(s.delegates[d], f),
       buffers := if MAIN in s.delegates[d] then Process(s.buffers, f) else s.buffers)
  }

  /** The interrupt: at most one frame of the current device goes to that device's delegates. */
  function Interrupt(s: State, d: nat): State
    requires |s.devices| == |s.delegates|
  {
    if d >= |s.devices| || s.devices[d].queue == [] then s
    else
      var f := s.devices[d].queue[0];
      var t := Dispatch(s, d, f);
      t.(devices := t.devices[d := t.devices[d].(queue := t.devices[d].queue[1..])])
  }

  predicate Accepts(device: Device, dlc: nat, payload: Option<seq<Byte>>) {
    dlc <= CAN_MAX_SIZE && payload.Some? && device.transceiver.Active? && |device.queue| < NUM_CAN_RXBUFFERS
  }

  function Enqueue(s: State, k: nat, f: Frame): State
    requires k < |s.devices|
  {
    s.(devices := s.devices[k := s.devices[k].(queue := s.devices[k].queue + [f])])
  }

  datatype Op = Init(k: nat) | Start(k: nat) | Stop(k: nat) | Reset
              | Arrive(k: nat, id: nat, dlc: nat, payload: Option<seq<Byte>>)
              | Add(k: nat, delegate: Delegate) | Remove(k: nat, delegate: Delegate)

  /** What callers owe: an existing device, and as many bytes as the length says. */
  predicate Legal(op: Op, count: nat) {
    match op
    case Reset => true
    case Arrive(k, id, dlc, payload) => k < count && (payload.Some? && dlc <= CAN_MAX_SIZE ==> dlc <= |payload.value|)
    case _ => op.k < count
  }

  /** The transceiver's states: start works from standby only, stop from active only, init always. */
  function NextTransceiver(t: Transceiver, op: Op): Transceiver {
    match op
    case Init(_) => Standby
    case Start(_) => if t == Standby then Active else t
    case Stop(_) => if t == Active then Standby else t
    case Reset => Undefined
    case _ => t
  }

  function WithoutFirst(ds: seq<Delegate>, d: Delegate): seq<Delegate> {
    if ds == [] then [] else if ds[0] == d then ds[1..] else [ds[0]] + WithoutFirst(ds[1..], d)
  }

  function NextDelegates(ds: seq<Delegate>, op: Op): seq<Delegate> {
    match op
    case Add(_, d) => if |ds| < MAX_CAN_DELEGATES then ds + [d] else ds
    case Remove(_, d) => WithoutFirst(ds, d)
    case _ => ds
  }

  function Step(s: State, op: Op, elementSize: nat): State
    requires elementSize > 0 && |s.devices| == |s.delegates| && Legal(op, |s.devices|)
  {
    match op
    case Arrive(k, id, dlc, payload) =>
      if Accepts(s.devices[k], dlc, payload) then
        Interrupt(Enqueue(s, k, Frame(id, payload.value[..dlc])), DeviceId(k, elementSize, |s.devices|))
      else s
    case Add(k, _) => s.(delegates := s.delegates[k := NextDelegates(s.delegates[k], op)])
    case Remove(k, _) => s.(delegates := s.delegates[k := NextDelegates(s.delegates[k], op)])
    case Reset =>
      s.(devices := seq(|s.devices|, _ => Device(Undefined, [])))
    case _ => s.(devices := s.devices[op.k := s.devices[op.k].(transceiver := NextTransceiver(s.devices[op.k].transceiver, op))])
  }

  predicate LegalRun(ops: seq<Op>, count: nat) {
    forall i :: 0 <= i < |ops| ==> Legal(ops[i], count)
  }

  /** A run, last operation last. */
  function Run(s: State, ops: seq<Op>, elementSize: nat): (r: State)
    requires elementSize > 0 && |s.devices| == |s.delegates| && LegalRun(ops, |s.devices|)
    ensures |r.devices| == |r.delegates| == |s.devices|
    decreases |ops|
  {
    if ops == [] then s else Step(Run(s, ops[..|ops| - 1], elementSize), ops[|ops| - 1], elementSize)
  }

  // The ring in front of the delegates makes no difference on the first device ------------------

  /** The same bus without rings: an accepted frame goes straight to the delegates. */
  datatype Bus = Bus(transceiver: Transceiver, delegates: seq<Delegate>, calls: seq<Call>,
                     buffers: map<nat, seq<Byte>>)

  function AsBus(s: State): Bus
    requires 0 < |s.devices| == |s.delegates|
  {
    Bus(s.devices[0].transceiver, s.delegates[0], s.calls, s.buffers)
  }

  function Deliver(b: Bus, f: Frame): Bus {
    b.(calls := b.calls + CallsTo(b.delegates, f),
       buffers := if MAIN in b.delegates then Process(b.buffers, f) else b.buffers)
  }

  /** The frame an operation puts on the first device's bus, if any. */
  function Carried(t: Transceiver, op: Op): Option<Frame> {
    if op.Arrive? && op.k == 0 && t.Active? && op.payload.Some? && op.dlc <= CAN_MAX_SIZE && op.dlc <= |op.payload.value|
    then Some(Frame(op.id, op.payload.value[..op.dlc])) else None
  }

  function BusStep(b: Bus, op: Op): Bus {
    if !op.Reset? && op.k != 0 then b
    else if op.Arrive? then
      var f := Carried(b.transceiver, op);
      if f.Some? then Deliver(b, f.value) else b
    else
      b.(transceiver := NextTransceiver(b.transceiver, op), delegates := NextDelegates(b.delegates, op))
  }

  function BusRun(b: Bus, ops: seq<Op>): Bus
    decreases |ops|
  {
    if ops == [] then b else BusStep(BusRun(b, ops[..|ops| - 1]), ops[|ops| - 1])
  }

  /** What holds between driver calls, for elements at least as large as there are devices. */
  ghost predicate Settled(s: State) {
    Shaped(s) && s.devices[0].queue == []
  }

  lemma WithoutFirstShorter(ds: seq<Delegate>, d: Delegate)
    ensures |WithoutFirst(ds, d)| <= |ds|
  {
  }

  lemma ArriveStep(s: State, op: Op, elementSize: nat)
    requires Settled(s) && elementSize >= |s.devices| && op.Arrive? && Legal(op, |s.devices|)
    ensures Settled(Step(s, op, elementSize))
    ensures AsBus(Step(s, op, elementSize)) == BusStep(AsBus(s), op)
  {
    DeviceIdExact(op.k, elementSize, |s.devices|);
  }

  lemma OtherStep(s: State, op: Op, elementSize: nat)
    requires Settled(s) && elementSize > 0 && !op.Arrive? && Legal(op, |s.devices|)
    ensures Settled(Step(s, op, elementSize))
    ensures AsBus(Step(s, op, elementSize)) == BusStep(AsBus(s), op)
  {
    if op.Remove? { WithoutFirstShorter(s.delegates[op.k], op.delegate); }
  }

  /**
   Over every run, in every mix of operations on all devices, the first device's ring is empty between
   driver calls and its delegates and buffers are those of a bus without a ring.
   */
  lemma {:induction false} RingIsTransparent(s: State, ops: seq<Op>, elementSize: nat)
    requires Settled(s) && elementSize >= |s.devices| && LegalRun(ops, |s.devices|)
    ensures Settled(Run(s, ops, elementSize))
    ensures AsBus(Run(s, ops, elementSize)) == BusRun(AsBus(s), ops)
    decreases |ops|
  {
    if ops != [] {
      var before, op := ops[..|ops| - 1], ops[|ops| - 1];
      RingIsTransparent(s, before, elementSize);
      var t := Run(s, before, elementSize);
      if op.Arrive? { ArriveStep(t, op, elementSize); } else { OtherStep(t, op, elementSize); }
    }
  }

  /** An arrival on a device whose ring is empty leaves it empty iff the interrupt is raised for that device. */
  lemma ArrivalDrainsExactly(s: State, op: Op, elementSize: nat)
    requires Shaped(s) && elementSize > 0 && op.Arrive? && Legal(op, |s.devices|)
    requires s.devices[op.k].queue == [] && Accepts(s.devices[op.k], op.dlc, op.payload)
    ensures Step(s, op, elementSize).devices[op.k].queue == [] <==> op.k == 0 || elementSize == 1
  {
    DeviceIdExact(op.k, elementSize, |s.devices|);
  }

  // What the delegates and the buffers have seen -----------------------------------------------

  /** The frames a run puts on the first device's bus. */
  function Accepted(t: Transceiver, ops: seq<Op>): seq<Frame>
    decreases |ops|
  {
    if ops == [] then []
    else
      var before, op := ops[..|ops| - 1], ops[|ops| - 1];
      var f := Carried(TransceiverAfter(t, before), op);
      Accepted(t, before) + if f.Some? then [f.value] else []
  }

  function TransceiverAfter(t: Transceiver, ops: seq<Op>): Transceiver
    decreases |ops|
  {
    if ops == [] then t
    else
      var before, op := ops[..|ops| - 1], ops[|ops| - 1];
      if op.Reset? || op.k == 0 then NextTransceiver(TransceiverAfter(t, before), op) else TransceiverAfter(t, before)
  }

  /** The calls one delegate got, as frames. */
  function Seen(calls: seq<Call>, d: Delegate): seq<Frame>
    decreases |calls|
  {
    if calls == [] then []
    else
      var before, c := calls[..|calls| - 1], calls[|calls| - 1];
      Seen(before, d) + if c.delegate == d then [c.frame] else []
  }

  lemma {:induction false} SeenConcat(a: seq<Call>, b: seq<Call>, d: Delegate)
    ensures Seen(a + b, d) == Seen(a, d) + Seen(b, d)
    decreases |b|
  {
    if b == [] {
      assert a + b == a;
    } else {
      SeenConcat(a, b[..|b| - 1], d);
      assert (a + b)[..|a + b| - 1] == a + b[..|b| - 1];
    }
  }

  /** How often a delegate is registered: registering does not look for one that is there already. */
  function Times(ds: seq<Delegate>, d: Delegate): nat
    decreases |ds|
  {
    if ds == [] then 0 else Times(ds[..|ds| - 1], d) + if ds[|ds| - 1] == d then 1 else 0
  }

  function Copies(n: nat, f: Frame): seq<Frame> {
    seq(n, _ => f)
  }

  /** Every frame `n` times over. */
  function Repeated(frames: seq<Frame>, n: nat): seq<Frame>
    decreases |frames|
  {
    if frames == [] then [] else Repeated(frames[..|frames| - 1], n) + Copies(n, frames[|frames| - 1])
  }

  lemma {:induction false} RepeatedOnce(frames: seq<Frame>)
    ensures Repeated(frames, 1) == frames
    decreases |frames|
  {
    if frames != [] { RepeatedOnce(frames[..|frames| - 1]); }
  }

  lemma {:induction false} OneRound(ds: seq<Delegate>, f: Frame, d: Delegate)
    ensures Seen(CallsTo(ds, f), d) == Copies(Times(ds, d), f)
    decreases |ds|
  {
    if ds != [] {
      assert CallsTo(ds, f)[..|ds| - 1] == CallsTo(ds[..|ds| - 1], f);
      OneRound(ds[..|ds| - 1], f, d);
    }
  }

  /** The buffer of an identifier: the payload of the last frame of that identifier and length. */
  function LastPayload(frames: seq<Frame>, id: nat, start: seq<Byte>): seq<Byte>
    decreases |frames|
  {
    if frames == [] then start
    else
      var f := frames[|frames| - 1];
      if f.id == id && |f.payload| == |start| then f.payload else LastPayload(frames[..|frames| - 1], id, start)
  }

  lemma {:induction false} LastPayloadLength(frames: seq<Frame>, id: nat, start: seq<Byte>)
    ensures |LastPayload(frames, id, start)| == |start|
    decreases |frames|
  {
    if frames != [] { LastPayloadLength(frames[..|frames| - 1], id, start); }
  }

  /** No delegate is registered or removed on the first device. */
  predicate KeepsDelegates(ops: seq<Op>) {
    forall i :: 0 <= i < |ops| ==> !((ops[i].Add? || ops[i].Remove?) && ops[i].k == 0)
  }

  lemma {:induction false} BusDelivers(b: Bus, ops: seq<Op>, d: Delegate)
    requires KeepsDelegates(ops)
    ensures BusRun(b, ops).delegates == b.delegates
    ensures BusRun(b, ops).transceiver == TransceiverAfter(b.transceiver, ops)
    ensures Seen(BusRun(b, ops).calls, d)
         == Seen(b.calls, d) + Repeated(Accepted(b.transceiver, ops), Times(b.delegates, d))
    decreases |ops|
  {
    if ops != [] {
      var before, op := ops[..|ops| - 1], ops[|ops| - 1];
      BusDelivers(b, before, d);
      var c := BusRun(b, before);
      var f := Carried(c.transceiver, op);
      var frames := Accepted(b.transceiver, before);
      if f.Some? {
        SeenConcat(c.calls, CallsTo(c.delegates, f.value), d);
        OneRound(c.delegates, f.value, d);
        RepeatedStep(Seen(b.calls, d), frames, f.value, Times(b.delegates, d));
      } else {
        assert frames + [] == frames;
      }
    }
  }

  lemma RepeatedStep(start: seq<Frame>, frames: seq<Frame>, f: Frame, n: nat)
    ensures start + Repeated(frames, n) + Copies(n, f) == start + Repeated(frames + [f], n)
  {
    assert (frames + [f])[..|frames|] == frames;
    Associative(start, Repeated(frames, n), Copies(n, f));
  }

  /** A delegate sees exactly the accepted frames, in order, each as often as the delegate is registered. */
  lemma {:induction false} DelegatesSeeAccepted(s: State, ops: seq<Op>, elementSize: nat, d: Delegate)
    requires Settled(s) && elementSize >= |s.devices| && LegalRun(ops, |s.devices|) && KeepsDelegates(ops)
    ensures Seen(Run(s, ops, elementSize).calls, d)
         == Seen(s.calls, d) + Repeated(Accepted(s.devices[0].transceiver, ops), Times(s.delegates[0], d))
    ensures Times(s.delegates[0], d) == 1 ==>
              Seen(Run(s, ops, elementSize).calls, d) == Seen(s.calls, d) + Accepted(s.devices[0].transceiver, ops)
  {
    RingIsTransparent(s, ops, elementSize);
    BusDelivers(AsBus(s), ops, d);
    RepeatedOnce(Accepted(s.devices[0].transceiver, ops));
  }

  lemma {:induction false} BusFillsBuffers(b: Bus, ops: seq<Op>, id: nat)
    requires KeepsDelegates(ops) && MAIN in b.delegates && id in b.buffers
    ensures BusRun(b, ops).delegates == b.delegates
    ensures BusRun(b, ops).transceiver == TransceiverAfter(b.transceiver, ops)
    ensures id in BusRun(b, ops).buffers
    ensures BusRun(b, ops).buffers[id] == LastPayload(Accepted(b.transceiver, ops), id, b.buffers[id])
    decreases |ops|
  {
    if ops != [] {
      var before, op := ops[..|ops| - 1], ops[|ops| - 1];
      BusFillsBuffers(b, before, id);
      var c := BusRun(b, before);
      var f := Carried(c.transceiver, op);
      var frames := Accepted(b.transceiver, before);
      LastPayloadLength(frames, id, b.buffers[id]);
      if f.Some? {
        assert (frames + [f.value])[..|frames|] == frames;
      } else {
        assert frames + [] == frames;
      }
    }
  }

  /** While MainSystem's delegate is registered, a known identifier's buffer is its last accepted frame's payload. */
  lemma BuffersHoldLastPayload(s: State, ops: seq<Op>, elementSize: nat, id: nat)
    requires Settled(s) && elementSize >= |s.devices| && LegalRun(ops, |s.devices|)
    requires KeepsDelegates(ops) && MAIN in s.delegates[0] && id in s.buffers
    ensures id in Run(s, ops, elementSize).buffers
    ensures Run(s, ops, elementSize).buffers[id]
         == LastPayload(Accepted(s.devices[0].transceiver, ops), id, s.buffers[id])
  {
    RingIsTransparent(s, ops, elementSize);
    BusFillsBuffers(AsBus(s), ops, id);
  }

  // The other devices --------------------------------------------------------------------------

  /** A device's transceiver and the frames offered to it since its last reset while it listened. */
  datatype Offer = Offer(transceiver: Transceiver, frames: seq<Frame>)

  function OfferStep(r: Offer, k: nat, op: Op): Offer {
    if op.Reset? then Offer(Undefined, [])
    else if op.k != k then r
    else if !op.Arrive? then r.(transceiver := NextTransceiver(r.transceiver, op))
    else if r.transceiver.Active? && op.payload.Some? && op.dlc <= CAN_MAX_SIZE && op.dlc <= |op.payload.value|
    then r.(frames := r.frames + [Frame(op.id, op.payload.value[..op.dlc])])
    else r
  }

  function Offered(r: Offer, k: nat, ops: seq<Op>): Offer
    decreases |ops|
  {
    if ops == [] then r else OfferStep(Offered(r, k, ops[..|ops| - 1]), k, ops[|ops| - 1])
  }

  function FirstEight(frames: seq<Frame>): seq<Frame> {
    if |frames| <= NUM_CAN_RXBUFFERS then frames else frames[..NUM_CAN_RXBUFFERS]
  }

  lemma FirstEightOfMore(frames: seq<Frame>, f: Frame)
    ensures FirstEight(frames + [f]) ==
            if |FirstEight(frames)| < NUM_CAN_RXBUFFERS then FirstEight(frames) + [f] else FirstEight(frames)
  {
  }

  function Kept(r: Offer): Device {
    Device(r.transceiver, FirstEight(r.frames))
  }

  lemma OtherDeviceStep(t: State, op: Op, elementSize: nat, k: nat, r: Offer)
    requires Settled(t) && elementSize >= |t.devices| && Legal(op, |t.devices|) && 0 < k < |t.devices|
    requires t.devices[k] == Kept(r)
    ensures Step(t, op, elementSize).devices[k] == Kept(OfferStep(r, k, op))
  {
    if op.Arrive? {
      DeviceIdExact(op.k, elementSize, |t.devices|);
      if op.payload.Some? && op.dlc <= CAN_MAX_SIZE {
        FirstEightOfMore(r.frames, Frame(op.id, op.payload.value[..op.dlc]));
      }
    }
  }

  /**
   Every device but the first keeps the first eight frames offered to it and refuses the rest until it is
   reset: the interrupt it raises is served from the first device's ring.
   */
  lemma {:induction false} OtherDevicesFillUp(s: State, ops: seq<Op>, elementSize: nat, k: nat, r: Offer)
    requires Settled(s) && elementSize >= |s.devices| && LegalRun(ops, |s.devices|) && 0 < k < |s.devices|
    requires s.devices[k] == Kept(r)
    ensures Run(s, ops, elementSize).devices[k] == Kept(Offered(r, k, ops))
    decreases |ops|
  {
    if ops != [] {
      var before, op := ops[..|ops| - 1], ops[|ops| - 1];
      OtherDevicesFillUp(s, before, elementSize, k, r);
      RingIsTransparent(s, before, elementSize);
      OtherDeviceStep(Run(s, before, elementSize), op, elementSize, k, Offered(r, k, before));
    }
  }
}
