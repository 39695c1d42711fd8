/** The panel's car engine, in exact arithmetic: a speed (km/h), an engine speed (rev/min) and a gear. */
module CarEngine {

  const R_WHEEL := 0.34
  const MASS := 1500.0
  const MAX_F_BRAKE := 4.0 * 7350.0
  const C_DRAG := 0.5 * 0.30 * 2.2 * 1.29
  const C_RR := 0.5 * 0.30 * 2.2 * 1.29 * 30.0
  const X_D := 3.42
  const TR_EFF := 0.7
  const M_PI := 3.14159265358979323846

  datatype State = State(v: real, rpm: real, gear: int)

  const INITIAL := State(0.0, 0.0, 0)

  function Abs(x: real): real { if x < 0.0 then -x else x }

  function Pow(x: real, n: nat): real { if n == 0 then 1.0 else x * Pow(x, n - 1) }

  /** Pedals are pressed between not at all and fully. */
  function Clamp(pedal: real): (p: real)
    ensures 0.0 <= p <= 1.0
  {
    if pedal < 0.0 then 0.0 else if pedal > 1.0 then 1.0 else pedal
  }

  function Drag(v: real): real {
    var u := v * 1000.0 / 3600.0;
    C_DRAG * u * u
  }

  function Rolling(v: real): real {
    C_RR * (v * 1000.0 / 3600.0)
  }

  function GearCoefficient(gear: int): real {
    match gear
    case 1 => 2.66 * X_D
    case 2 => 1.78 * X_D
    case 3 => 1.30 * X_D
    case 4 => 1.0 * X_D
    case 5 => 0.74 * X_D
    case 6 => 0.50 * X_D
    case 7 => 2.90 * X_D
    case _ => 0.0
  }

  function MaxTorque(rpm: real): real {
    if rpm < 0.0 || rpm > 7000.0 then 0.0
    else -0.000000000002294544012 * Pow(rpm, 4) + 0.00000002628558309 * Pow(rpm, 3)
         - 0.0001045311629 * Pow(rpm, 2) + 0.1890208069 * rpm + 296.4565158
  }

  function MaxTraction(rpm: real, gear: int): real {
    MaxTorque(rpm) * GearCoefficient(gear) * TR_EFF / R_WHEEL
  }

  function AtLeastIdle(rpm: real): real { if rpm < 1000.0 then 1000.0 else rpm }

  /** The engine speed that goes with a speed in a gear; it idles at 1000. */
  function Rpm(v: real, gear: int): real {
    AtLeastIdle(v * 1000.0 / 3600.0 / R_WHEEL * GearCoefficient(gear) * 60.0 / (2.0 * M_PI))
  }

  /** The force on a car that moves at speed `v`, for pedals between 0 and 1. */
  function ForceOf(v: real, rpm: real, gear: int, acc: real, brk: real): real {
    acc * MaxTraction(rpm, gear) - Drag(v) - Rolling(v) - brk * MAX_F_BRAKE
  }

  function Force(v: real, rpm: real, gear: int, acc: real, brk: real): real {
    ForceOf(v, AtLeastIdle(rpm), gear, Clamp(acc), Clamp(brk))
  }

  /** A speed after `dt` seconds under a force; it does not change sign. */
  function Accelerated(v: real, force: real, dt: real): (r: real)
    ensures r >= 0.0
  {
    var r := v + force / MASS * dt * 3600.0 / 1000.0;
    if r < 0.0 then 0.0 else r
  }

  function NewSpeed(v: real, rpm: real, gear: int, dt: real, acc: real, brk: real): (r: real)
    ensures r >= 0.0
  {
    Accelerated(v, Force(v, rpm, gear, acc, brk), dt)
  }

  datatype Op = Update(acc: real, brk: real) | SetGear(wanted: int)

  function Step(s: State, op: Op, dt: real): State {
    match op
    case Update(acc, brk) =>
      var r := NewSpeed(Abs(s.v), s.rpm, s.gear, dt, acc, brk);
      State(if s.gear == 7 then -r else r, Rpm(r, s.gear), s.gear)
    case SetGear(wanted) =>
      if s.gear == wanted then s
      else
        var engaged := if (1 <= wanted <= 6 && s.v >= 0.0) || (wanted == 7 && s.v <= 0.0) then wanted else 0;
        State(s.v, Rpm(Abs(s.v), engaged), engaged)
  }

  class CarEngine {
    var v: real
    var rpm: real
    var gear: int

    function Abstract(): State
      reads this
    {
      State(v, rpm, gear)
    }

    constructor ()
      ensures Abstract() == INITIAL
    {
      v, rpm, gear := 0.0, 0.0, 0;
    }

    /** `update`. */
    method Update(dt: real, acc: real, brk: real)
      modifies this
      ensures Abstract() == Step(old(Abstract()), Op.Update(acc, brk), dt)
    {
      var accPedal := acc;
      if accPedal < 0.0 { accPedal := 0.0; }
      if accPedal > 1.0 { accPedal := 1.0; }
      var brkPedal := brk;
      if brkPedal < 0.0 { brkPedal := 0.0; }
      if brkPedal > 1.0 { brkPedal := 1.0; }
      var n := rpm;
      if n < 1000.0 { n := 1000.0; }
      var speed := Abs(v);
      var force := ForceOf(speed, n, gear, accPedal, brkPedal);
      ForcesAgree(speed, rpm, gear, acc, brk, n, accPedal, brkPedal);
      speed := Accelerate(speed, force, dt);
      rpm := Rpm(speed, gear);
      if gear == 7 { v := -speed; } else { v := speed; }
    }

    /** The new speed, which must not become negative. */
    method Accelerate(v: real, force: real, dt: real) returns (speed: real)
      ensures speed == Accelerated(v, force, dt)
    {
      var acceleration := force / MASS;
      speed := v + acceleration * dt * 3600.0 / 1000.0;
      if speed < 0.0 { speed := 0.0; }
    }

    /** `setGear`; it reports whether a gear was asked for, not whether one was engaged. */
    method SetGear(wanted: int) returns (ok: bool)
      modifies this
      ensures Abstract() == Step(old(Abstract()), Op.SetGear(wanted), 0.0) && ok == Reported(wanted)
    {
      if gear != wanted {
        if wanted < 0 || wanted > 7 {
          gear := 0;
        } else if v >= 0.0 && wanted <= 6 {
          gear := wanted;
        } else if v <= 0.0 && wanted == 7 {
          gear := wanted;
        } else {
          gear := 0;
        }
        rpm := Rpm(Abs(v), gear);
      }
      ok := wanted != 0;
    }
  }

  lemma ForcesAgree(v: real, rpm: real, gear: int, acc: real, brk: real, n: real, a: real, b: real)
    requires n == AtLeastIdle(rpm) && a == Clamp(acc) && b == Clamp(brk)
    ensures ForceOf(v, n, gear, a, b) == Force(v, rpm, gear, acc, brk)
  {
  }

  /** What every run keeps: forward gears never roll backwards, reverse never forwards, the engine turns with the wheels. */
  predicate Consistent(s: State) {
    0 <= s.gear <= 7 && (1 <= s.gear <= 6 ==> s.v >= 0.0) && (s.gear == 7 ==> s.v <= 0.0) &&
    (s.rpm == Rpm(Abs(s.v), s.gear) || s == INITIAL)
  }

  function Run(s: State, ops: seq<Op>, dt: real): State
    decreases |ops|
  {
    if ops == [] then s else Step(Run(s, ops[..|ops| - 1], dt), ops[|ops| - 1], dt)
  }

  lemma StepConsistent(s: State, op: Op, dt: real)
    requires Consistent(s)
    ensures Consistent(Step(s, op, dt))
    ensures op.Update? ==> Step(s, op, dt).rpm == Rpm(Abs(Step(s, op, dt).v), Step(s, op, dt).gear)
  {
  }

  lemma {:induction false} RunConsistent(s: State, ops: seq<Op>, dt: real)
    requires Consistent(s)
    ensures Consistent(Run(s, ops, dt))
    decreases |ops|
  {
    if ops != [] {
      RunConsistent(s, ops[..|ops| - 1], dt);
      StepConsistent(Run(s, ops[..|ops| - 1], dt), ops[|ops| - 1], dt);
    }
  }

  // Bounds ---------------------------------------------------------------------------------------

  /** The torque curve stays below 486 Nm; its largest value is some 485.3, at 4640 rev/min. */
  lemma TorqueBound(rpm: real)
    ensures MaxTorque(rpm) <= 486.0
  {
    if 0.0 <= rpm <= 7000.0 {
      var x := rpm / 1000.0;
      var x2 := x * x;
      var x3 := x2 * x;
      Powers(x, rpm, x2, x3);
      Curve(x, x2, x3, x3 * x);
    }
  }

  lemma Powers(x: real, rpm: real, x2: real, x3: real)
    requires rpm == 1000.0 * x && x2 == x * x && x3 == x2 * x
    ensures Pow(rpm, 2) == 1000000.0 * x2 && Pow(rpm, 3) == 1000000000.0 * x3
    ensures Pow(rpm, 4) == 1000000000000.0 * (x3 * x)
  {
    assert Pow(rpm, 1) == rpm * 1.0;
    assert Pow(rpm, 2) == rpm * Pow(rpm, 1);
    assert Pow(rpm, 3) == rpm * Pow(rpm, 2);
    assert Pow(rpm, 4) == rpm * Pow(rpm, 3);
  }

  lemma Curve(x: real, x2: real, x3: real, x4: real)
    requires x >= 0.0 && x2 == x * x && x3 == x2 * x && x4 == x3 * x
    ensures -2.294544012 * x4 + 26.28558309 * x3 - 104.5311629 * x2 + 189.0208069 * x + 296.4565158 <= 486.0
  {
    var a := x2 - 5.7279 * x + 5.035;
    var b := x - 4.6122;
    SquareOfThree(x, x2, x3, x4);
    Square(a);
    Square(b);
    SquareOfTwo(x, x2);
    Square(x);
    Product(x2, x);
    CurveFrom(x, x2, x3, x4);
  }

  lemma SquareOfTwo(x: real, x2: real)
    requires x2 == x * x
    ensures (x - 4.6122) * (x - 4.6122) == x2 - 9.2244 * x + 21.27238884
  {
  }

  lemma SquareOfThree(x: real, x2: real, x3: real, x4: real)
    requires x2 == x * x && x3 == x2 * x && x4 == x3 * x
    ensures var a := x2 - 5.7279 * x + 5.035;
            a * a == x4 - 11.4558 * x3 + 42.87883841 * x2 - 57.679953 * x + 25.351225
  {
    assert x2 * x2 == x4;
    var a := x2 - 5.7279 * x + 5.035;
    assert a * a == a * x2 - 5.7279 * (a * x) + 5.035 * a;
    assert a * x2 == x2 * x2 - 5.7279 * x3 + 5.035 * x2;
    assert a * x == x3 - 5.7279 * x2 + 5.035 * x;
  }

  lemma Square(a: real)
    ensures a * a >= 0.0
  {
  }

  lemma Product(a: real, b: real)
    requires a >= 0.0 && b >= 0.0
    ensures a * b >= 0.0
  {
  }

  /** The bound as a sum of squares. */
  lemma CurveFrom(x: real, x2: real, x3: real, x4: real)
    requires x >= 0.0 && x3 >= 0.0
    requires x4 - 11.4558 * x3 + 42.87883841 * x2 - 57.679953 * x + 25.351225 >= 0.0
    requires x2 - 9.2244 * x + 21.27238884 >= 0.0
    ensures -2.294544012 * x4 + 26.28558309 * x3 - 104.5311629 * x2 + 189.0208069 * x + 296.4565158 <= 486.0
  {
  }

  /** Traction in any gear, from torque alone; in the two long gears it is far less. */
  lemma TractionOf(t: real, gear: int)
    requires t <= 486.0
    ensures t * GearCoefficient(gear) * TR_EFF / R_WHEEL <= 9924.0
    ensures gear == 5 || gear == 6 ==> t * GearCoefficient(gear) * TR_EFF / R_WHEEL <= 2533.0
    ensures !(1 <= gear <= 7) ==> t * GearCoefficient(gear) * TR_EFF / R_WHEEL == 0.0
  {
    match gear
    case 1 => assert GearCoefficient(gear) == 9.0972;
    case 2 => assert GearCoefficient(gear) == 6.0876;
    case 3 => assert GearCoefficient(gear) == 4.446;
    case 4 => assert GearCoefficient(gear) == 3.42;
    case 5 => assert GearCoefficient(gear) == 2.5308;
    case 6 => assert GearCoefficient(gear) == 1.71;
    case 7 => assert GearCoefficient(gear) == 9.918;
    case _ => assert GearCoefficient(gear) == 0.0;
  }

  lemma TractionBound(rpm: real, gear: int)
    ensures MaxTraction(rpm, gear) <= 9924.0
    ensures gear == 5 || gear == 6 ==> MaxTraction(rpm, gear) <= 2533.0
    ensures !(1 <= gear <= 7) || rpm > 7000.0 ==> MaxTraction(rpm, gear) == 0.0
  {
    TorqueBound(rpm);
    TractionOf(MaxTorque(rpm), gear);
    if rpm > 7000.0 { NoTorque(GearCoefficient(gear)); }
  }

  lemma NoTorque(c: real)
    ensures 0.0 * c * TR_EFF / R_WHEEL == 0.0
  {
  }

  /** Above 265 km/h the engine turns faster than 7000 rev/min in every gear but the two long ones. */
  lemma OverRevs(v: real, gear: int)
    requires v >= 265.0 && (1 <= gear <= 4 || gear == 7)
    ensures Rpm(v, gear) > 7000.0
  {
    var w := v * 1000.0 / 3600.0 / R_WHEEL;
    assert w >= 216.0;
    var c := GearCoefficient(gear);
    assert c >= 3.42;
    Larger(w, c);
    assert w * c * 60.0 / (2.0 * M_PI) > 7000.0;
  }

  lemma Larger(w: real, c: real)
    requires w >= 216.0 && c >= 3.42
    ensures w * c >= 738.72
  {
    Product(w - 216.0, c - 3.42);
    assert (w - 216.0) * (c - 3.42) == w * c - 3.42 * w - 216.0 * c + 738.72;
  }

  lemma Resistance(v: real)
    requires v >= 0.0
    ensures Drag(v) >= 0.0 && Rolling(v) >= 0.0
    ensures v >= 265.0 ==> Drag(v) + Rolling(v) >= 2533.0
  {
    var u := v * 1000.0 / 3600.0;
    Square(u);
    Square(u - 73.0);
    assert (u - 73.0) * (u - 73.0) == u * u - 146.0 * u + 5329.0;
    assert Drag(v) == 0.4257 * (u * u);
    assert Rolling(v) == 12.771 * u;
  }

  lemma Scaled(a: real, t: real, most: real)
    requires 0.0 <= a <= 1.0 && t <= most && most >= 0.0
    ensures a * t <= most
  {
    if t >= 0.0 {
      Product(1.0 - a, t);
      assert (1.0 - a) * t == t - a * t;
    } else {
      Product(a, -t);
      assert a * -t == -(a * t);
    }
  }

  /** No force ever exceeds 9924 N; a car that is faster than 265 km/h is never pushed. */
  lemma ForceBound(v: real, rpm: real, gear: int, acc: real, brk: real)
    requires v >= 0.0
    ensures Force(v, rpm, gear, acc, brk) <= 9924.0
    ensures v >= 265.0 && rpm == Rpm(v, gear) ==> Force(v, rpm, gear, acc, brk) <= 0.0
  {
    var n, a := AtLeastIdle(rpm), Clamp(acc);
    var traction := MaxTraction(n, gear);
    TractionBound(n, gear);
    Resistance(v);
    Scaled(a, traction, 9924.0);
    if v >= 265.0 && rpm == Rpm(v, gear) {
      if 1 <= gear <= 4 || gear == 7 { OverRevs(v, gear); }
      assert traction <= 2533.0;
      Scaled(a, traction, 2533.0);
    }
    ForceSplit(v, rpm, gear, acc, brk, a * traction);
  }

  lemma ForceSplit(v: real, rpm: real, gear: int, acc: real, brk: real, push: real)
    requires push == Clamp(acc) * MaxTraction(AtLeastIdle(rpm), gear)
    ensures Force(v, rpm, gear, acc, brk) == push - Drag(v) - Rolling(v) - Clamp(brk) * 29400.0
  {
  }

  lemma AcceleratedBound(v: real, force: real, dt: real, most: real)
    requires v >= 0.0 && dt > 0.0 && force <= most
    ensures var r := v + most * 0.0024 * dt; Accelerated(v, force, dt) <= if r < 0.0 then 0.0 else r
  {
    var change := force / MASS * dt * 3600.0 / 1000.0;
    assert change == 0.0024 * (force * dt);
    Product(most - force, dt);
    assert (most - force) * dt == most * dt - force * dt;
    assert most * 0.0024 * dt == 0.0024 * (most * dt);
  }

  function Top(dt: real): real { 265.0 + 24.0 * dt }

  lemma StepBelowTop(s: State, op: Op, dt: real)
    requires Consistent(s) && dt > 0.0 && Abs(s.v) <= Top(dt)
    ensures Abs(Step(s, op, dt).v) <= Top(dt)
  {
    if op.Update? {
      var v := Abs(s.v);
      var force := Force(v, s.rpm, s.gear, op.acc, op.brk);
      ForceBound(v, s.rpm, s.gear, op.acc, op.brk);
      if v >= 265.0 {
        AcceleratedBound(v, force, dt, 0.0);
      } else {
        AcceleratedBound(v, force, dt, 9924.0);
      }
    }
  }

  /** Whatever the pedals and the gear stick do, speed stays below 265 km/h and what one step can add. */
  lemma {:induction false} SpeedStaysBounded(ops: seq<Op>, dt: real)
    requires dt > 0.0
    ensures Abs(Run(INITIAL, ops, dt).v) <= Top(dt)
    ensures Consistent(Run(INITIAL, ops, dt))
    decreases |ops|
  {
    if ops != [] {
      var before := ops[..|ops| - 1];
      SpeedStaysBounded(before, dt);
      StepBelowTop(Run(INITIAL, before, dt), ops[|ops| - 1], dt);
      StepConsistent(Run(INITIAL, before, dt), ops[|ops| - 1], dt);
    }
  }

  // Braking --------------------------------------------------------------------------------------

  predicate Brakes(op: Op) { op.Update? ==> op.acc <= 0.0 && op.brk >= 1.0 }

  function Updates(ops: seq<Op>): nat
    decreases |ops|
  {
    if ops == [] then 0 else Updates(ops[..|ops| - 1]) + if ops[|ops| - 1].Update? then 1 else 0
  }

  function NotBelowZero(v: real): real { if v < 0.0 then 0.0 else v }

  /** Full braking takes at least 70.56 km/h a second off the speed in every gear, until the car stands. */
  lemma BrakeStep(s: State, op: Op, dt: real)
    requires dt > 0.0 && Brakes(op)
    ensures Abs(Step(s, op, dt).v) <= if op.Update? then NotBelowZero(Abs(s.v) - 70.56 * dt) else Abs(s.v)
  {
    if op.Update? {
      var v := Abs(s.v);
      Resistance(v);
      var force := Force(v, s.rpm, s.gear, op.acc, op.brk);
      ForceSplit(v, s.rpm, s.gear, op.acc, op.brk, 0.0 * MaxTraction(AtLeastIdle(s.rpm), s.gear));
      AcceleratedBound(v, force, dt, -29400.0);
    }
  }

  /** What `n` updates of full braking take off. */
  function Lost(dt: real, n: nat): real { if n == 0 then 0.0 else Lost(dt, n - 1) + 70.56 * dt }

  lemma {:induction false} LostIs(dt: real, n: nat)
    ensures Lost(dt, n) == 70.56 * dt * n as real
  {
    if n > 0 {
      LostIs(dt, n - 1);
      var d, m := 70.56 * dt, (n - 1) as real;
      assert n as real == m + 1.0 && d * (m + 1.0) == d * m + d;
    }
  }

  lemma {:induction false} BrakingStops(s: State, ops: seq<Op>, dt: real)
    requires dt > 0.0 && forall i :: 0 <= i < |ops| ==> Brakes(ops[i])
    ensures Abs(Run(s, ops, dt).v) <= NotBelowZero(Abs(s.v) - Lost(dt, Updates(ops)))
    decreases |ops|
  {
    if ops != [] {
      var before, op := ops[..|ops| - 1], ops[|ops| - 1];
      BrakingStops(s, before, dt);
      BrakeStep(Run(s, before, dt), op, dt);
    }
  }

  // The gear stick -------------------------------------------------------------------------------

  /** What `setGear` returns: a gear was asked for. */
  predicate Reported(wanted: int) { wanted != 0 }

  /** A gear is reported as set and neutral engaged instead exactly when it does not exist or the car rolls the other way. */
  lemma RefusedButReportedExactly(s: State, wanted: int, dt: real)
    requires Consistent(s)
    ensures Reported(wanted) && Step(s, SetGear(wanted), dt).gear != wanted <==>
            wanted < 0 || wanted > 7 || (1 <= wanted <= 6 && s.v < 0.0) || (wanted == 7 && s.v > 0.0)
    ensures Step(s, SetGear(wanted), dt).gear != wanted ==> Step(s, SetGear(wanted), dt).gear == 0
  {
  }

  /** What slows a car down that nothing drives. */
  function Drawback(v: real, brk: real): real { Drag(v) + Rolling(v) + 29400.0 * Clamp(brk) }

  lemma NeutralForce(v: real, rpm: real, acc: real, brk: real)
    ensures Force(v, rpm, 0, acc, brk) == -Drawback(v, brk)
  {
    TractionBound(AtLeastIdle(rpm), 0);
    ForceSplit(v, rpm, 0, acc, brk, 0.0);
  }

  lemma StaysPositiveIff(v: real, back: real, dt: real)
    ensures Accelerated(v, -back, dt) > 0.0 <==> v > 0.0024 * dt * back
  {
    var p := back * dt;
    assert -back / MASS == -(back / MASS);
    assert -back / MASS * dt * 3600.0 / 1000.0 == -(0.0024 * p);
    assert 0.0024 * dt * back == 0.0024 * p;
  }

  /**
   A car rolling backwards turns forwards in one update iff it is in neutral and its speed is above what
   drag, rolling resistance and brake take off in the step; the accelerator plays no part.
   */
  lemma TurnsForwardExactly(s: State, acc: real, brk: real, dt: real)
    requires Consistent(s) && s.v < 0.0
    ensures Step(s, Update(acc, brk), dt).v > 0.0 <==> s.gear == 0 && -s.v > 0.0024 * dt * Drawback(-s.v, brk)
  {
    if s.gear == 0 {
      NeutralForce(-s.v, s.rpm, acc, brk);
      StaysPositiveIff(-s.v, Drawback(-s.v, brk), dt);
    }
  }
}
