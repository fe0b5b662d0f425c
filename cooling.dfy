/** The cooling schedule of the annealing loop: `temp *= 1 - cooling_rate`
    once per pass, while `temp > 1`. Temperatures are exact reals. */
module Cooling {

  /** Temperature after k passes, by repeated multiplication. */
  function Temperature(t0: real, c: real, k: nat): real {
    if k == 0 then t0 else Temperature(t0, c, k - 1) * (1.0 - c)
  }

  function Pow(x: real, k: nat): real {
    if k == 0 then 1.0 else x * Pow(x, k - 1)
  }

  /** Closed form of the schedule: t0 * (1 - c)^k. */
  lemma {:induction false} TemperatureClosedForm(t0: real, c: real, k: nat)
    ensures Temperature(t0, c, k) == t0 * Pow(1.0 - c, k)
  {
    if k > 0 {
      TemperatureClosedForm(t0, c, k - 1);
      assert t0 * Pow(1.0 - c, k) == (t0 * Pow(1.0 - c, k - 1)) * (1.0 - c);
    }
  }

  /** For a rate in (0, 1) the schedule stays positive and strictly decreases. */
  lemma {:induction false} TemperatureDecreases(t0: real, c: real, k: nat)
    requires t0 > 0.0 && 0.0 < c < 1.0
    ensures 0.0 < Temperature(t0, c, k + 1)
    ensures Temperature(t0, c, k + 1) < Temperature(t0, c, k)
  {
    if k > 0 {
      TemperatureDecreases(t0, c, k - 1);
    }
    var t, d := Temperature(t0, c, k), 1.0 - c;
    assert Temperature(t0, c, k + 1) == t * d;
    PositiveProduct(t, d);
    PositiveProduct(t, c);
    assert t * d == t - t * c;
  }

  lemma PositiveProduct(x: real, y: real)
    requires x > 0.0 && y > 0.0
    ensures x * y > 0.0
  {
  }

  /** Starting the schedule one pass later is starting it from the cooled value. */
  lemma {:induction false} TemperatureShift(t0: real, c: real, k: nat)
    ensures Temperature(t0, c, k + 1) == Temperature(t0 * (1.0 - c), c, k)
  {
    if k > 0 {
      TemperatureShift(t0, c, k - 1);
    }
  }

  /** Termination measure of the loop: while temp > 1, one pass lowers temp
      by at least the rate, so temp / rate loses at least 1. */
  function Budget(t: real, c: real): int
    requires c > 0.0
  {
    (t / c).Floor
  }

  lemma CoolingStepShrinksBudget(t: real, c: real)
    requires t > 1.0 && c > 0.0
    ensures 0 <= Budget(t, c)
    ensures Budget(t * (1.0 - c), c) < Budget(t, c)
  {
    assert t * (1.0 - c) / c == t / c - t;
    assert t / c > 0.0;
  }

  /** Over exact reals the loop `while temp > 1` ends: either it does not
      start, or the rate is positive. For a rate of at most 0 and temp > 1 it
      runs forever (and so does the double-precision loop once 1 - rate
      rounds to 1.0). */
  predicate Ends(t: real, c: real) {
    c > 0.0 || t <= 1.0
  }

  /** Number of passes the loop makes from t: the first k with
      Temperature(t, c, k) <= 1. */
  function Passes(t: real, c: real): nat
    requires Ends(t, c)
    decreases if c > 0.0 then Budget(t, c) else 0
  {
    if t <= 1.0 then 0
    else
      CoolingStepShrinksBudget(t, c);
      1 + Passes(t * (1.0 - c), c)
  }

  /** Passes(t0, c) is exactly the exit point of `while temp > 1`: the
      temperature is above 1 before every pass and at most 1 after the last. */
  lemma {:induction false} PassesIsExit(t0: real, c: real)
    requires Ends(t0, c)
    ensures Temperature(t0, c, Passes(t0, c)) <= 1.0
    ensures forall k :: 0 <= k < Passes(t0, c) ==> Temperature(t0, c, k) > 1.0
    decreases if c > 0.0 then Budget(t0, c) else 0
  {
    if t0 > 1.0 {
      var t1 := t0 * (1.0 - c);
      CoolingStepShrinksBudget(t0, c);
      PassesIsExit(t1, c);
      var n := Passes(t0, c);
      assert n == 1 + Passes(t1, c);
      TemperatureShift(t0, c, n - 1);
      forall k | 0 <= k < n ensures Temperature(t0, c, k) > 1.0 {
        if k > 0 {
          TemperatureShift(t0, c, k - 1);
        }
      }
    }
  }

  /** The exit point is unique: a k past which the loop would stop, with
      every earlier temperature above 1, is Passes(t0, c). */
  lemma PassesUnique(t0: real, c: real, k: nat)
    requires Ends(t0, c)
    requires Temperature(t0, c, k) <= 1.0
    requires forall m :: 0 <= m < k ==> Temperature(t0, c, m) > 1.0
    ensures k == Passes(t0, c)
  {
    PassesIsExit(t0, c);
  }

  /** A loop that starts at temp <= 1 makes no pass, whatever the rate,
      including a rate of at most 0. */
  lemma ColdStartMakesNoPass(t0: real, c: real)
    requires t0 <= 1.0
    ensures Ends(t0, c) && Passes(t0, c) == 0
  {
  }
}
