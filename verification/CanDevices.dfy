/**
 The drivers, the delegate table and the interrupt of the CAN receive path, updated in place as the
 source does, each method tied to the step of CanReceive that it carries out.
 */
module CanDevices {
  import opened Basics
  import opened CanReceive

  /** The driver's message struct: a payload area of fixed size of which `dlc` bytes count. */
  datatype CanMessage = CanMessage(id: nat, dlc: nat, payload: seq<Byte>)

  predicate Sized(m: CanMessage) {
    |m.payload| == CAN_MAX_SIZE && m.dlc <= CAN_MAX_SIZE
  }

  function AsFrame(m: CanMessage): Frame
    requires Sized(m)
  {
    Frame(m.id, m.payload[..m.dlc])
  }

  /** `count` slots of the ring, from `pos` on and around its end. */
  function Queued(ms: seq<CanMessage>, pos: nat, count: nat): (q: seq<Frame>)
    requires |ms| == NUM_CAN_RXBUFFERS && forall i :: 0 <= i < |ms| ==> Sized(ms[i])
    ensures |q| == count
    ensures forall i :: 0 <= i < count ==> q[i] == AsFrame(ms[(pos + i) % NUM_CAN_RXBUFFERS])
  {
    seq(count, i requires 0 <= i < count => AsFrame(ms[(pos + i) % NUM_CAN_RXBUFFERS]))
  }

  /** Writing the slot behind the last one appends, as long as one is free. */
  lemma WriteAppends(ms: seq<CanMessage>, pos: nat, count: nat, m: CanMessage)
    requires |ms| == NUM_CAN_RXBUFFERS && (forall i :: 0 <= i < |ms| ==> Sized(ms[i])) && Sized(m)
    requires pos < NUM_CAN_RXBUFFERS && count < NUM_CAN_RXBUFFERS
    ensures var at := (pos + count) % NUM_CAN_RXBUFFERS;
            Queued(ms[at := m], pos, count + 1) == Queued(ms, pos, count) + [AsFrame(m)]
  {
  }

  lemma AdvanceDrops(ms: seq<CanMessage>, pos: nat, count: nat)
    requires |ms| == NUM_CAN_RXBUFFERS && (forall i :: 0 <= i < |ms| ==> Sized(ms[i]))
    requires pos < NUM_CAN_RXBUFFERS && 0 < count <= NUM_CAN_RXBUFFERS
    ensures Queued(ms, (pos + 1) % NUM_CAN_RXBUFFERS, count - 1) == Queued(ms, pos, count)[1..]
  {
  }

  class CanDevice {
    var transceiver: Transceiver
    const rxMessages: array<CanMessage>
    var rxPos: nat
    var rxCnt: nat

    ghost predicate Valid()
      reads this, rxMessages
    {
      rxMessages.Length == NUM_CAN_RXBUFFERS && rxPos < NUM_CAN_RXBUFFERS && rxCnt <= NUM_CAN_RXBUFFERS &&
      forall i :: 0 <= i < NUM_CAN_RXBUFFERS ==> Sized(rxMessages[i])
    }

    ghost function Abstract(): Device
      reads this, rxMessages
      requires Valid()
    {
      Device(transceiver, Queued(rxMessages[..], rxPos, rxCnt))
    }

    constructor ()
      ensures Valid() && fresh(rxMessages) && Abstract() == Device(Undefined, [])
    {
      transceiver, rxPos, rxCnt := Undefined, 0, 0;
      rxMessages := new CanMessage[NUM_CAN_RXBUFFERS](_ => CanMessage(0, 0, [0, 0, 0, 0, 0, 0, 0, 0]));
    }

    /** The part of `insertRxMessage` in front of the interrupt. */
    method Store(id: nat, dlc: nat, payload: Option<seq<Byte>>) returns (ok: bool)
      requires Valid() && (payload.Some? && dlc <= CAN_MAX_SIZE ==> dlc <= |payload.value|)
      modifies this, rxMessages
      ensures Valid() && ok == Accepts(old(Abstract()), dlc, payload)
      ensures !ok ==> Abstract() == old(Abstract())
      ensures ok ==> Abstract() == Device(old(transceiver), old(Abstract()).queue + [Frame(id, payload.value[..dlc])])
    {
      if dlc > CAN_MAX_SIZE || payload.None? { return false; }
      if !transceiver.Active? { return false; }
      if rxCnt >= NUM_CAN_RXBUFFERS { return false; }
      var pos := (rxPos + rxCnt) % NUM_CAN_RXBUFFERS;
      var m := CanMessage(id, dlc, payload.value[..dlc] + rxMessages[pos].payload[dlc..]);
      WriteAppends(rxMessages[..], rxPos, rxCnt, m);
      assert m.payload[..dlc] == payload.value[..dlc];
      ghost var was := rxMessages[..];
      rxMessages[pos] := m;
      assert rxMessages[..] == was[pos := m];
      rxCnt := rxCnt + 1;
      ok := true;
    }

    /** `CanDriver_getRxMessage` on a device that exists. */
    method Front() returns (m: Option<CanMessage>)
      requires Valid()
      ensures m.None? <==> Abstract().queue == []
      ensures m.Some? ==> Sized(m.value) && AsFrame(m.value) == Abstract().queue[0]
    {
      if rxCnt == 0 { return None; }
      m := Some(rxMessages[rxPos]);
    }

    /** `CanDriver_delRxMessage`. */
    method DeleteFront() returns (ok: bool)
      requires Valid()
      modifies this
      ensures Valid() && ok == (old(Abstract()).queue != [])
      ensures Abstract() == if ok then old(Abstract()).(queue := old(Abstract()).queue[1..]) else old(Abstract())
    {
      if rxCnt == 0 { return false; }
      AdvanceDrops(rxMessages[..], rxPos, rxCnt);
      rxPos := (rxPos + 1) % NUM_CAN_RXBUFFERS;
      rxCnt := rxCnt - 1;
      ok := true;
    }

    /** `CanTransceiver_init`, `_start` and `_stop`; the result is false for an illegal state. */
    method Switch(op: Op) returns (ok: bool)
      requires Valid() && (op.Init? || op.Start? || op.Stop?)
      modifies this`transceiver
      ensures Valid() && Abstract() == old(Abstract()).(transceiver := NextTransceiver(old(transceiver), op))
      ensures ok <==> op.Init? || transceiver != old(transceiver)
    {
      match op
      case Init(_) =>
        transceiver := Standby;
        ok := true;
      case Start(_) =>
        if transceiver != Standby { return false; }
        transceiver := Active;
        ok := true;
      case Stop(_) =>
        if transceiver != Active { return false; }
        transceiver := Standby;
        ok := true;
    }

    /** One round of `resetAllDevices`. */
    method Reset()
      requires Valid()
      modifies this
      ensures Valid() && Abstract() == Device(Undefined, [])
    {
      transceiver, rxPos, rxCnt := Undefined, 0, 0;
    }
  }

  /** The delegate table, one column a device. */
  class CanSystem {
    const devices: nat
    const counts: array<nat>
    const table: array2<Delegate>

    ghost predicate Valid()
      reads this, counts, table
    {
      counts.Length == devices && table.Length0 == MAX_CAN_DELEGATES && table.Length1 == devices &&
      forall d :: 0 <= d < devices ==> counts[d] <= MAX_CAN_DELEGATES
    }

    ghost function Registered(d: nat): (ds: seq<Delegate>)
      reads this, counts, table
      requires Valid() && d < devices
    {
      seq(counts[d], i requires 0 <= i < counts[d] reads this, counts, table requires Valid() => table[i, d])
    }

    constructor (n: nat)
      ensures Valid() && fresh(counts) && fresh(table) && devices == n
      ensures forall d :: 0 <= d < n ==> Registered(d) == []
    {
      devices := n;
      counts := new nat[n](_ => 0);
      table := new Delegate[MAX_CAN_DELEGATES, n]((_, _) => MAIN);
    }

    /** `addCanReceiveDelegate`. */
    method Add(d: nat, delegate: Delegate) returns (ok: bool)
      requires Valid() && d < devices
      modifies counts, table
      ensures Valid() && ok == (|old(Registered(d))| < MAX_CAN_DELEGATES)
      ensures Registered(d) == NextDelegates(old(Registered(d)), Op.Add(d, delegate))
      ensures forall e :: 0 <= e < devices && e != d ==> Registered(e) == old(Registered(e))
    {
      if counts[d] < MAX_CAN_DELEGATES {
        table[counts[d], d] := delegate;
        counts[d] := counts[d] + 1;
        ok := true;
      } else {
        ok := false;
      }
    }

    /** `removeCanReceiveDelegate`: the first one that is equal goes, the ones behind it move up. */
    method Remove(d: nat, delegate: Delegate) returns (ok: bool)
      requires Valid() && d < devices
      modifies counts, table
      ensures Valid() && ok == (delegate in old(Registered(d)))
      ensures Registered(d) == NextDelegates(old(Registered(d)), Op.Remove(d, delegate))
      ensures forall e :: 0 <= e < devices && e != d ==> Registered(e) == old(Registered(e))
    {
      ghost var was := Registered(d);
      var i := 0;
      while i < counts[d]
        invariant 0 <= i <= counts[d] && delegate !in was[..i]
      {
        if table[i, d] == delegate {
          FirstGoes(was, i, delegate);
          CloseGap(d, i);
          return true;
        }
        i := i + 1;
      }
      NoneGoes(was, delegate);
      ok := false;
    }

    /** The inner loop of `removeCanReceiveDelegate`. */
    method CloseGap(d: nat, i: nat)
      requires Valid() && d < devices && i < counts[d]
      modifies counts, table
      ensures Valid() && Registered(d) == old(Registered(d))[..i] + old(Registered(d))[i + 1..]
      ensures forall e :: 0 <= e < devices && e != d ==> Registered(e) == old(Registered(e))
    {
      var j := i + 1;
      while j < counts[d]
        invariant i < j <= counts[d]
        invariant counts[..] == old(counts[..])
        invariant forall a, e :: 0 <= a < MAX_CAN_DELEGATES && 0 <= e < devices && e != d ==> table[a, e] == old(table[a, e])
        invariant forall a :: 0 <= a < i || j <= a < MAX_CAN_DELEGATES ==> table[a, d] == old(table[a, d])
        invariant forall a :: i <= a < j - 1 ==> table[a, d] == old(table[a + 1, d])
      {
        table[j - 1, d] := table[j, d];
        j := j + 1;
      }
      counts[d] := counts[d] - 1;
    }
  }

  /** The devices, the table, MainSystem's receive buffers and, for the record, every call of a delegate. */
  class Ecu {
    const devices: seq<CanDevice>
    const canSystem: CanSystem
    const elementSize: nat
    var current: nat
    var calls: seq<Call>
    var buffers: map<nat, seq<Byte>>

    ghost predicate Apart()
    {
      elementSize > 0 && 0 < |devices| <= INVALID_CAN_DEVICE && canSystem.devices == |devices| &&
      (forall i, j :: 0 <= i < j < |devices| ==> devices[i] != devices[j]) &&
      (forall i, j :: 0 <= i < j < |devices| ==> devices[i].rxMessages != devices[j].rxMessages)
    }

    ghost function Rings(): set<object>
    {
      set i | 0 <= i < |devices| :: devices[i].rxMessages
    }

    ghost predicate Valid()
      reads canSystem, canSystem.counts, canSystem.table, devices, Rings()
    {
      Apart() && canSystem.Valid() &&
      forall i :: 0 <= i < |devices| ==> devices[i].Valid()
    }

    ghost function Abstract(): State
      reads this`calls, this`buffers, canSystem, canSystem.counts, canSystem.table, devices, Rings()
      requires Valid()
    {
      State(seq(|devices|, i requires 0 <= i < |devices| && devices[i].Valid() reads devices, Rings() => devices[i].Abstract()),
            seq(|devices|, d requires 0 <= d < |devices| && canSystem.Valid() && canSystem.devices == |devices|
                             reads canSystem, canSystem.counts, canSystem.table => canSystem.Registered(d)),
            calls, buffers)
    }

    constructor (count: nat, size: nat, known: map<nat, seq<Byte>>)
      requires size > 0 && 0 < count <= INVALID_CAN_DEVICE
      ensures Valid() && current == INVALID_CAN_DEVICE && elementSize == size
      ensures Abstract() == State(seq(count, _ => Device(Undefined, [])), seq(count, _ => []), [], known)
    {
      var ds: seq<CanDevice> := [];
      while |ds| < count
        invariant |ds| <= count
        invariant forall i :: 0 <= i < |ds| ==> fresh(ds[i]) && fresh(ds[i].rxMessages)
        invariant forall i :: 0 <= i < |ds| ==> ds[i].Valid() && ds[i].Abstract() == Device(Undefined, [])
        invariant forall i, j :: 0 <= i < j < |ds| ==> ds[i] != ds[j] && ds[i].rxMessages != ds[j].rxMessages
      {
        var d := new CanDevice();
        ds := ds + [d];
      }
      var table := new CanSystem(count);
      devices, canSystem, elementSize := ds, table, size;
      current, calls, buffers := INVALID_CAN_DEVICE, [], known;
    }

    /** Calling one delegate: MainSystem's own copies the payload, the others only see the message. */
    method Invoke(delegate: Delegate, m: CanMessage)
      requires Sized(m)
      modifies this`calls, this`buffers
      ensures calls == old(calls) + [Call(delegate, AsFrame(m))]
      ensures buffers == if delegate == MAIN then Process(old(buffers), AsFrame(m)) else old(buffers)
    {
      calls := calls + [Call(delegate, AsFrame(m))];
      if delegate == MAIN { ProcessCanMessage(m); }
    }

    /** `processCanMessage_can01`. */
    method ProcessCanMessage(m: CanMessage)
      requires Sized(m)
      modifies this`buffers
      ensures buffers == Process(old(buffers), AsFrame(m))
    {
      if m.id in buffers && |buffers[m.id]| == m.dlc {
        buffers := buffers[m.id := m.payload[..m.dlc]];
      }
    }

    /** `dispatchCanMessage`. */
    method DispatchCanMessage(d: nat, m: CanMessage)
      requires Valid() && d < |devices| && Sized(m)
      modifies this`calls, this`buffers
      ensures Valid() && Abstract() == Dispatch(old(Abstract()), d, AsFrame(m))
    {
      ghost var ds, f := canSystem.Registered(d), AsFrame(m);
      var i := 0;
      while i < canSystem.counts[d]
        invariant 0 <= i <= |ds| && Valid()
        invariant calls == old(calls) + CallsTo(ds[..i], f)
        invariant buffers == if MAIN in ds[..i] then Process(old(buffers), f) else old(buffers)
      {
        Invoke(canSystem.table[i, d], m);
        assert CallsTo(ds[..i + 1], f) == CallsTo(ds[..i], f) + [Call(ds[i], f)];
        assert ds[..i + 1] == ds[..i] + [ds[i]];
        i := i + 1;
      }
      assert ds[..i] == ds;
    }

    /** The receive interrupt, for the device that is current. */
    method CanMsgRecv()
      requires Valid()
      modifies this`calls, this`buffers, devices
      ensures Valid() && Abstract() == Interrupt(old(Abstract()), old(current))
    {
      var d := current;
      if d >= |devices| { return; }
      var m := devices[d].Front();
      if m.Some? {
        DispatchCanMessage(d, m.value);
        ghost var s := Abstract();
        var ok := devices[d].DeleteFront();
        DeviceChanged(s, d, devices[d].Abstract());
      }
    }

    /** The state after one device alone has changed. */
    lemma DeviceChanged(s: State, k: nat, device: Device)
      requires Valid() && k < |devices| && |s.devices| == |devices| && device == devices[k].Abstract()
      requires forall i :: 0 <= i < |devices| && i != k ==> devices[i].Abstract() == s.devices[i]
      requires s.delegates == Abstract().delegates && s.calls == calls && s.buffers == buffers
      ensures Abstract() == s.(devices := s.devices[k := device])
    {
    }

    /** `insertRxMessage` up to the interrupt, seen from the whole system. */
    method StoreOn(k: nat, id: nat, dlc: nat, payload: Option<seq<Byte>>) returns (ok: bool)
      requires Valid() && Legal(Arrive(k, id, dlc, payload), |devices|)
      modifies devices[k], devices[k].rxMessages
      ensures Valid() && ok == Accepts(old(Abstract()).devices[k], dlc, payload)
      ensures !ok ==> Abstract() == old(Abstract())
      ensures ok ==> Abstract() == Enqueue(old(Abstract()), k, Frame(id, payload.value[..dlc]))
    {
      ghost var s := Abstract();
      ok := devices[k].Store(id, dlc, payload);
      DeviceChanged(s, k, devices[k].Abstract());
    }

    /** `insertRxMessage`. */
    method InsertRxMessage(k: nat, id: nat, dlc: nat, payload: Option<seq<Byte>>) returns (ok: bool)
      requires Valid() && Legal(Arrive(k, id, dlc, payload), |devices|) && current == INVALID_CAN_DEVICE
      modifies this, devices, Rings()
      ensures Valid() && Abstract() == Step(old(Abstract()), Arrive(k, id, dlc, payload), elementSize)
      ensures ok == Accepts(old(Abstract()).devices[k], dlc, payload) && current == INVALID_CAN_DEVICE
    {
      ok := StoreOn(k, id, dlc, payload);
      if ok {
        RaiseInterrupt(DeviceId(k, elementSize, |devices|));
      }
    }

    method RaiseInterrupt(d: nat)
      requires Valid()
      modifies this`current, this`calls, this`buffers, devices
      ensures Valid() && Abstract() == Interrupt(old(Abstract()), d) && current == INVALID_CAN_DEVICE
    {
      ghost var s := Abstract();
      current := d;
      assert Abstract() == s;
      CanMsgRecv();
      ghost var t := Abstract();
      current := INVALID_CAN_DEVICE;
      assert Abstract() == t;
    }

    /** The transceiver calls. */
    method Switch(op: Op) returns (ok: bool)
      requires Valid() && (op.Init? || op.Start? || op.Stop?) && Legal(op, |devices|)
      modifies devices[op.k]
      ensures Valid() && Abstract() == Step(old(Abstract()), op, elementSize)
    {
      ghost var s := Abstract();
      ok := devices[op.k].Switch(op);
      DeviceChanged(s, op.k, devices[op.k].Abstract());
    }

    /** `resetAllDevices`. */
    method ResetAllDevices()
      requires Valid()
      modifies devices
      ensures Valid() && Abstract() == Step(old(Abstract()), Op.Reset, elementSize)
    {
      ghost var s := Abstract();
      for i := 0 to |devices|
        invariant Valid() && Abstract().delegates == s.delegates && calls == s.calls && buffers == s.buffers
        invariant forall j :: 0 <= j < i ==> devices[j].Abstract() == Device(Undefined, [])
      {
        devices[i].Reset();
      }
    }

    /** Registering and removing a delegate. */
    method ChangeDelegates(op: Op) returns (ok: bool)
      requires Valid() && (op.Add? || op.Remove?) && Legal(op, |devices|)
      modifies canSystem.counts, canSystem.table
      ensures Valid() && Abstract() == Step(old(Abstract()), op, elementSize)
    {
      ghost var s := Abstract();
      if op.Add? { ok := canSystem.Add(op.k, op.delegate); } else { ok := canSystem.Remove(op.k, op.delegate); }
      assert Abstract().devices == s.devices;
    }

    /** A whole run of driver calls. */
    method Perform(ops: seq<Op>)
      requires Valid() && LegalRun(ops, |devices|) && current == INVALID_CAN_DEVICE
      modifies this, devices, Rings(), canSystem.counts, canSystem.table
      ensures Valid() && Abstract() == Run(old(Abstract()), ops, elementSize)
    {
      assert ops[..0] == [];
      for i := 0 to |ops|
        invariant Valid() && current == INVALID_CAN_DEVICE
        invariant LegalRun(ops[..i], |devices|) && Abstract() == Run(old(Abstract()), ops[..i], elementSize)
      {
        assert ops[..i + 1][..i] == ops[..i];
        PerformOne(ops[i]);
      }
      assert ops[..|ops|] == ops;
    }

    method PerformOne(op: Op)
      requires Valid() && Legal(op, |devices|) && current == INVALID_CAN_DEVICE
      modifies this, devices, Rings(), canSystem.counts, canSystem.table
      ensures Valid() && current == INVALID_CAN_DEVICE
      ensures Abstract() == Step(old(Abstract()), op, elementSize)
    {
      match op
      case Arrive(k, id, dlc, payload) => var ok := InsertRxMessage(k, id, dlc, payload);
      case Add(_, _) => var ok := ChangeDelegates(op);
      case Remove(_, _) => var ok := ChangeDelegates(op);
      case Reset => ResetAllDevices();
      case _ => var ok := Switch(op);
    }
  }

  lemma {:induction false} FirstGoes(ds: seq<Delegate>, i: nat, d: Delegate)
    requires i < |ds| && ds[i] == d && d !in ds[..i]
    ensures WithoutFirst(ds, d) == ds[..i] + ds[i + 1..]
  {
    if i > 0 {
      assert ds[..i][0] == ds[0];
      assert ds[1..][..i - 1] == ds[1..i];
      FirstGoes(ds[1..], i - 1, d);
    }
  }

  lemma {:induction false} NoneGoes(ds: seq<Delegate>, d: Delegate)
    requires d !in ds
    ensures WithoutFirst(ds, d) == ds
  {
    if ds != [] { NoneGoes(ds[1..], d); }
  }
}
