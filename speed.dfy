/** Tick-interval arithmetic shared by the two richer revisions: C++ integer
    division and the speed ramp applied each time food is eaten. The
    interval is in milliseconds; a smaller interval is a faster snake, and
    MAX_SPEED is the smallest interval the ramp aims for. */
module Speed {

  function Abs(x: int): nat {
    if x < 0 then -x else x
  }

  /** C++ `/` on `int`: the quotient truncated toward zero (Dafny's `/` is
      Euclidean and differs for negative operands). */
  function TruncDiv(a: int, b: int): (q: int)
    requires b != 0
    ensures Abs(q) == Abs(a) / Abs(b)
    ensures (a < 0) == (b < 0) ==> q >= 0
    ensures (a < 0) != (b < 0) ==> q <= 0
  {
    var m := Abs(a) / Abs(b);
    DivOfNatIsNat(Abs(a), Abs(b));
    if (a < 0) == (b < 0) then m else -m
  }

  lemma DivOfNatIsNat(x: nat, y: nat)
    requires y > 0
    ensures x / y >= 0
  {
  }

  /** For a non-negative dividend and a positive divisor, C++ and Dafny
      division agree. */
  lemma TruncDivNonNegative(a: int, b: int)
    requires a >= 0 && b > 0
    ensures TruncDiv(a, b) == a / b
  {
  }

  lemma MulBetween(y: int, d: int)
    requires y > 0 && -y < y * d < y
    ensures d == 0
  {
  }

  lemma DivAddDivisor(a: nat, y: nat)
    requires y > 0
    ensures (a + y) / y == a / y + 1
  {
    var q, r := a / y, a % y;
    var q1, r1 := (a + y) / y, (a + y) % y;
    assert a == y * q + r;
    assert a + y == y * q1 + r1;
    assert y * (q1 - q - 1) == r - r1;
    MulBetween(y, q1 - q - 1);
  }

  lemma {:induction false} MulDivCancel(x: nat, y: nat)
    requires y > 0
    ensures (x * y) / y == x
  {
    if x > 0 {
      MulDivCancel(x - 1, y);
      assert x * y == (x - 1) * y + y;
      DivAddDivisor((x - 1) * y, y);
    }
  }

  /** Multiplying by a non-zero factor and dividing by it again is the
      identity under truncating division. */
  lemma TruncDivOfMultiple(a: int, b: int)
    requires b != 0
    ensures TruncDiv(a * b, b) == a
  {
    assert Abs(a * b) == Abs(a) * Abs(b) by {
      if a < 0 && b < 0 { assert a * b == (-a) * (-b); }
      else if a < 0 { assert -(a * b) == (-a) * b; }
      else if b < 0 { assert -(a * b) == a * (-b); }
    }
    MulDivCancel(Abs(a), Abs(b));
    if a != 0 {
      assert (a * b < 0) == ((a < 0) != (b < 0)) by {
        if a > 0 && b > 0 { assert a * b > 0; }
        else if a > 0 { assert a * (-b) > 0; }
        else if b > 0 { assert (-a) * b > 0; }
        else { assert (-a) * (-b) > 0; }
      }
    }
  }

  /** The interval after eating food: an interval already at or below
      `maxSpeed` is set to `maxSpeed`; a slower one is scaled by `mult`
      percent, truncated. */
  function RampedInterval(speed: int, mult: int, maxSpeed: int): (r: int)
    ensures speed <= maxSpeed ==> r == maxSpeed
    ensures speed > maxSpeed && speed >= 0 && 0 <= mult <= 100 ==> 0 <= r <= speed
    ensures speed > 0 && 0 <= mult < 100 ==> r < speed || r == maxSpeed
  {
    if speed > maxSpeed then
      if speed >= 0 && mult >= 0 then
        TruncDivNonNegative(speed * mult, 100);
        TruncDiv(speed * mult, 100)
      else TruncDiv(speed * mult, 100)
    else maxSpeed
  }

  /** `n` food events in a row. */
  function Ramps(speed: int, mult: int, maxSpeed: int, n: nat): int
    decreases n
  {
    if n == 0 then speed else Ramps(RampedInterval(speed, mult, maxSpeed), mult, maxSpeed, n - 1)
  }

  /** How many food events suffice to bring `speed` to exactly `maxSpeed`. */
  function StepsToFloor(speed: int, maxSpeed: int): nat {
    if speed > maxSpeed then speed - maxSpeed + 1 else 1
  }

  /** An interval can drop below `maxSpeed` only for one food event: the
      next one sets it back to `maxSpeed`. */
  lemma DipLastsOneEvent(speed: int, mult: int, maxSpeed: int)
    ensures RampedInterval(speed, mult, maxSpeed) < maxSpeed ==>
              RampedInterval(RampedInterval(speed, mult, maxSpeed), mult, maxSpeed) == maxSpeed
  {
  }

  lemma {:induction false} FloorIsStable(mult: int, maxSpeed: int, n: nat)
    ensures Ramps(maxSpeed, mult, maxSpeed, n) == maxSpeed
  {
    if n > 0 {
      FloorIsStable(mult, maxSpeed, n - 1);
    }
  }

  /** With a speed-up of less than 100 percent, the interval reaches
      `maxSpeed` after finitely many food events and stays there. */
  lemma {:induction false} RampReachesFloor(speed: int, mult: int, maxSpeed: int, n: nat)
    requires 0 <= mult < 100 && 0 <= maxSpeed && 0 <= speed
    requires n >= StepsToFloor(speed, maxSpeed)
    ensures Ramps(speed, mult, maxSpeed, n) == maxSpeed
  {
    var r := RampedInterval(speed, mult, maxSpeed);
    if speed <= maxSpeed {
      FloorIsStable(mult, maxSpeed, n - 1);
    } else {
      assert speed * mult <= speed * 99;
      assert r < speed;
      RampReachesFloor(r, mult, maxSpeed, n - 1);
    }
  }

  /** From a 100 ms interval with an 85 percent speed-up and a 50 ms floor:
      85 after one food event, a dip to 43 after five, 50 after the sixth. */
  lemma RampScenario()
    ensures Ramps(100, 85, 50, 1) == 85
    ensures Ramps(100, 85, 50, 5) == 43
    ensures Ramps(100, 85, 50, 6) == 50
  {
  }
}
