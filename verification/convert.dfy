/** Human units to the board's units: degrees to a pulse width in
    microseconds (0.09 degrees per microsecond above 500), degrees per second
    to speed steps of 9 degrees per second. */
module Convert {

  /** The smallest angle the board is driven to: angles below 7 degrees are
      raised to 7 because the servo is inaccurate near 0. */
  const MinAngle := 7

  /** `int(angle / 0.09) + 500` after the 7-degree clamp. For integer angles
      in [7, 180] the truncated float quotient equals the integer quotient
      angle * 100 / 9, so the model uses that. */
  function PulseWidth(angle: int): (pulse: nat)
    requires 0 <= angle <= 180
    ensures 577 <= pulse <= 2500
    ensures angle <= MinAngle ==> pulse == 577
    ensures var a := if angle < MinAngle then MinAngle else angle;
            9 * (pulse - 500) <= 100 * a < 9 * (pulse - 500) + 9
  {
    var a := if angle < MinAngle then MinAngle else angle;
    a * 100 / 9 + 500
  }

  /** `int(speed / 9)`: whole 9-degree-per-second steps. */
  function SpeedUnits(speed: int): (units: nat)
    requires 9 <= speed <= 180
    ensures 1 <= units <= 20
    ensures 9 * units <= speed < 9 * units + 9
  {
    speed / 9
  }

  /** A larger angle never gives a shorter pulse. */
  lemma PulseWidthMonotone(a: int, b: int)
    requires 0 <= a <= b <= 180
    ensures PulseWidth(a) <= PulseWidth(b)
  {
    var x := if a < MinAngle then MinAngle else a;
    var y := if b < MinAngle then MinAngle else b;
    assert x <= y;
    DivNineMonotone(x * 100, y * 100);
  }

  lemma DivNineMonotone(x: nat, y: nat)
    requires x <= y
    ensures x / 9 <= y / 9
  {
  }

  /** A larger speed never gives fewer steps. */
  lemma SpeedUnitsMonotone(a: int, b: int)
    requires 9 <= a <= b <= 180
    ensures SpeedUnits(a) <= SpeedUnits(b)
  {
    DivNineMonotone(a, b);
  }
}
