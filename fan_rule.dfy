/** The decision CoolerFan.check (pi-cooler.py:276-286) makes on each measurement: a
    forced run inside the daily window, otherwise a hysteresis band between the stop
    and the start temperature, and off when no temperature could be read. */
module FanRule {
  import opened Wrappers
  import opened RealArith

  /** What check() does to the fan: ioPin.on(), ioPin.off(), or nothing. */
  datatype Action = TurnOn | TurnOff | Keep

  /** Python's float % int for a positive divisor: x - floor(x / c) * c, always in
      [0, c). */
  function FloatMod(x: real, c: nat): (r: real)
    requires c > 0
    ensures 0.0 <= r < c as real
  {
    var d := c as real;
    var f := (x / d).Floor as real;
    BelowQuotient(x, d, f);
    AboveQuotient(x, d, f + 1.0);
    x - f * d
  }

  /** The remainder repeats every cycle. */
  lemma {:induction false} FloatModPeriodic(x: real, c: nat)
    requires c > 0
    ensures FloatMod(x + c as real, c) == FloatMod(x, c)
  {
    var d := c as real;
    var q := x / d;
    assert (x + d) / d == q + 1.0 by {
      assert q * d == x;
      assert (q + 1.0) * d == q * d + d;
      DivOf(x + d, d, q + 1.0);
    }
    FloorShift(q);
    ShiftMul(x, d, q.Floor as real);
  }

  /** The forced-run test of check(), corrected: a zero cycle means no forced runs,
      as a zero run time already does. */
  function InForcedWindow(now: real, runTime: nat, runCycle: nat): (b: bool)
    ensures b ==> runTime > 0 && runCycle > 0
  {
    runCycle > 0 && runTime > 0 && FloatMod(now, runCycle) <= runTime as real
  }

  /** The forced window comes back every cycle. */
  lemma ForcedWindowRepeats(now: real, runTime: nat, runCycle: nat)
    ensures InForcedWindow(now + runCycle as real, runTime, runCycle) == InForcedWindow(now, runTime, runCycle)
  {
    if runCycle > 0 {
      FloatModPeriodic(now, runCycle);
    }
  }

  /** The decision chain of check(), in the source's order: a forced run, no reading,
      below the stop temperature, at or above the start temperature. */
  function Decide(forced: bool, reading: Option<real>, stop: real, start: real): (a: Action)
    ensures a == TurnOn <==> forced || (reading.Some? && stop <= reading.value && start <= reading.value)
    ensures a == TurnOff <==> !forced && (reading.None? || reading.value < stop)
    ensures a == Keep <==> !forced && reading.Some? && stop <= reading.value < start
  {
    if forced then TurnOn
    else if reading.None? then TurnOff
    else if reading.value < stop then TurnOff
    else if reading.value >= start then TurnOn
    else Keep
  }

  /** check() as written: time.time() % runCycle is taken first, so a zero cycle raises
      ZeroDivisionError on every call. */
  function CheckAsWritten(now: real, runTime: nat, runCycle: nat, reading: Option<real>,
                          stop: real, start: real): (r: Result<Action, Error>)
    ensures r.Failure? <==> runCycle == 0
  {
    if runCycle == 0 then Failure(DivisionByZero)
    else Success(Decide(runTime > 0 && FloatMod(now, runCycle) <= runTime as real, reading, stop, start))
  }

  /** The corrected forced-run test agrees with the source for every non-zero cycle. */
  lemma CheckAgrees(now: real, runTime: nat, runCycle: nat, reading: Option<real>, stop: real, start: real)
    requires runCycle > 0
    ensures CheckAsWritten(now, runTime, runCycle, reading, stop, start)
         == Success(Decide(InForcedWindow(now, runTime, runCycle), reading, stop, start))
  {
  }

  /** The fan level after an action. */
  function Apply(running: bool, a: Action): (r: bool)
    ensures a != Keep ==> r == (a == TurnOn)
    ensures r != running ==> a == (if r then TurnOn else TurnOff)
  {
    match a
    case TurnOn => true
    case TurnOff => false
    case Keep => running
  }

  /** The fan runs after a check exactly when it is forced, or a reading at or above the
      stop temperature is also at or above the start temperature or finds it running. */
  lemma NextLevel(running: bool, forced: bool, reading: Option<real>, stop: real, start: real)
    ensures Apply(running, Decide(forced, reading, stop, start)) <==>
      forced || (reading.Some? && reading.value >= stop && (reading.value >= start || running))
  {
  }

  /** A second check with the same inputs changes nothing. */
  lemma CheckIdempotent(running: bool, forced: bool, reading: Option<real>, stop: real, start: real)
    ensures var once := Apply(running, Decide(forced, reading, stop, start));
      Apply(once, Decide(forced, reading, stop, start)) == once
  {
  }

  /** Hysteresis: outside a forced run, a stopped fan starts only at the start
      temperature, and a running fan stops only below the stop temperature or when
      the temperature cannot be read. */
  lemma Hysteresis(forced: bool, reading: Option<real>, stop: real, start: real)
    requires !forced
    ensures Apply(false, Decide(forced, reading, stop, start)) ==>
      reading.Some? && reading.value >= start && reading.value >= stop
    ensures !Apply(true, Decide(forced, reading, stop, start)) ==>
      reading.None? || reading.value < stop
  {
  }

  /** One measurement: whether the forced window is on, and the temperature read. */
  datatype Sample = Sample(forced: bool, reading: Option<real>)

  /** The fan level after a run of checks (the loop of CoolerFan.run). The level ends
      up changed only if some check switched it that way. */
  function RunChecks(running: bool, samples: seq<Sample>, stop: real, start: real): (r: bool)
    ensures r != running ==> exists k :: 0 <= k < |samples| &&
                                          Decide(samples[k].forced, samples[k].reading, stop, start) == (if r then TurnOn else TurnOff)
    decreases |samples|
  {
    if samples == [] then running
    else
      var next := Apply(running, Decide(samples[0].forced, samples[0].reading, stop, start));
      var r := RunChecks(next, samples[1..], stop, start);
      assert r != next ==> exists k :: 0 <= k < |samples| &&
                                         Decide(samples[k].forced, samples[k].reading, stop, start) == (if r then TurnOn else TurnOff) by {
        if r != next {
          var k :| 0 <= k < |samples[1..]| &&
            Decide(samples[1..][k].forced, samples[1..][k].reading, stop, start) == (if r then TurnOn else TurnOff);
          assert samples[1..][k] == samples[k + 1];
        }
      }
      r
  }

  /** Inside the band: readings in [stop, start) outside a forced run leave the fan as
      it was, however many checks run. */
  lemma {:induction false} BandKeepsLevel(running: bool, samples: seq<Sample>, stop: real, start: real)
    requires forall k :: 0 <= k < |samples| ==>
      !samples[k].forced && samples[k].reading.Some? &&
      stop <= samples[k].reading.value < start
    ensures RunChecks(running, samples, stop, start) == running
    decreases |samples|
  {
    if samples != [] {
      assert Decide(samples[0].forced, samples[0].reading, stop, start) == Keep;
      BandKeepsLevel(running, samples[1..], stop, start);
    }
  }

  /** The last check that acts decides the level: after a check that turns the fan on
      or off, checks that keep it leave it so. */
  lemma {:induction false} LastActionDecides(running: bool, samples: seq<Sample>, k: nat, stop: real, start: real)
    requires k < |samples|
    requires Decide(samples[k].forced, samples[k].reading, stop, start) != Keep
    requires forall j :: k < j < |samples| ==>
      Decide(samples[j].forced, samples[j].reading, stop, start) == Keep
    ensures RunChecks(running, samples, stop, start) ==
      (Decide(samples[k].forced, samples[k].reading, stop, start) == TurnOn)
    decreases k
  {
    var next := Apply(running, Decide(samples[0].forced, samples[0].reading, stop, start));
    if k == 0 {
      assert RunChecks(next, samples[1..], stop, start) == next by {
        KeepsLevel(next, samples[1..], stop, start);
      }
    } else {
      LastActionDecides(next, samples[1..], k - 1, stop, start);
    }
  }

  /** Checks that all keep the fan leave it as it was. */
  lemma {:induction false} KeepsLevel(running: bool, samples: seq<Sample>, stop: real, start: real)
    requires forall j :: 0 <= j < |samples| ==>
      Decide(samples[j].forced, samples[j].reading, stop, start) == Keep
    ensures RunChecks(running, samples, stop, start) == running
    decreases |samples|
  {
    if samples != [] {
      KeepsLevel(running, samples[1..], stop, start);
    }
  }
}
