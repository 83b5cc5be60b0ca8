/** CoolerFan (pi-cooler.py:178-291): the fan, its temperature band and its forced-run
    schedule. The gpiozero output device is modelled by `running`; the temperature
    measurement (a shell command and a regular expression over its output) and the
    clock are passed to Check as the reading and the time. */
module Cooler {
  import opened Wrappers
  import opened Text
  import opened Hardware
  import opened TimeSpan
  import opened Temperature
  import opened FanRule

  /** DEFAULT_COOLER_TEMP: stop below 60 degrees, start at 70. */
  const DEFAULT_COOLER_TEMP: string := "60.0/70.0"
  /** DEFAULT_COOLER_TIMESPAN: a forced run of five minutes every day. */
  const DEFAULT_COOLER_TIMESPAN: string := "5m/24h"
  /** DEFAULT_TEMPERATURE_MEASURE_CMD. */
  const DEFAULT_TEMPERATURE_MEASURE_CMD: string := "vcgencmd measure_temp"
  /** DEFAULT_TEMPERATURE_MEASURE_REGEX, kept as text. */
  const DEFAULT_TEMPERATURE_MEASURE_REGEX: string := @"^\s*temp\s*=\s*([+-]?[0-9]+(?:\.[0-9]+)?)\s*'\s*C\s*$"

  class CoolerFan {
    const hw: Pin
    var stopTemperature: real
    var startTemperature: real
    /** Seconds of forced run in each cycle. */
    var runTime: nat
    /** Seconds in a cycle. */
    var runCycle: nat
    var measureCmd: string
    var measureRegex: string
    /** The value of the output device: true while the fan runs. */
    var running: bool

    constructor (hw: Pin, stop: real, start: real, runTime: nat, runCycle: nat)
      ensures this.hw == hw && stopTemperature == stop && startTemperature == start
      ensures this.runTime == runTime && this.runCycle == runCycle
      ensures measureCmd == DEFAULT_TEMPERATURE_MEASURE_CMD
      ensures measureRegex == DEFAULT_TEMPERATURE_MEASURE_REGEX
      ensures !running
    {
      this.hw := hw;
      stopTemperature := stop;
      startTemperature := start;
      this.runTime := runTime;
      this.runCycle := runCycle;
      measureCmd := DEFAULT_TEMPERATURE_MEASURE_CMD;
      measureRegex := DEFAULT_TEMPERATURE_MEASURE_REGEX;
      running := false;
    }

    /** The settings that the source's loadConfig lets through: a band whose stop
        temperature is not above its start, and a run no longer than its cycle. */
    predicate Configured()
      reads this
    {
      stopTemperature <= startTemperature && runTime <= runCycle
    }

    /** CoolerFan(pin, reversed): the defaults come from parsing DEFAULT_COOLER_TEMP and
        DEFAULT_COOLER_TIMESPAN. */
    static method Create(pin: string, reversed: bool, registry: Registry) returns (r: Result<CoolerFan, Error>)
      requires registry.Valid()
      ensures r.Failure? <==> Strip(pin) == []
      ensures r.Failure? ==> r.error == EmptyPin
      ensures r.Success? ==> fresh(r.value) && fresh(r.value.hw) && r.value.hw.Valid()
      ensures r.Success? ==> !r.value.hw.initialized && r.value.hw.registry == registry
      ensures r.Success? ==> r.value.hw.name == Strip(pin) && r.value.hw.reversed == reversed
      ensures r.Success? ==>
        ParseTemp(DEFAULT_COOLER_TEMP) == Success((r.value.stopTemperature, r.value.startTemperature))
      ensures r.Success? ==>
        ParseTimeSpan(DEFAULT_COOLER_TIMESPAN) == Success((r.value.runTime, r.value.runCycle))
      ensures r.Success? ==> r.value.Configured() && !r.value.running
      ensures r.Success? ==> r.value.measureCmd == DEFAULT_TEMPERATURE_MEASURE_CMD
      ensures r.Success? ==> r.value.measureRegex == DEFAULT_TEMPERATURE_MEASURE_REGEX
    {
      var p := Pin.Create(pin, reversed, registry);
      if p.Failure? {
        return Failure(p.error);
      }
      DefaultTemperatures();
      DefaultTimeSpan();
      var temps := ParseTemp(DEFAULT_COOLER_TEMP);
      var span := ParseTimeSpan(DEFAULT_COOLER_TIMESPAN);
      var f := new CoolerFan(p.value, temps.value.0, temps.value.1, span.value.0, span.value.1);
      return Success(f);
    }

    /** CoolerFan.initialize: claims the pin; the output device starts off. Does nothing
        when already initialized. */
    method Initialize() returns (r: Outcome<Error>)
      requires hw.Valid()
      modifies this, hw, hw.registry
      ensures hw.Valid() && hw.reversed == old(hw.reversed)
      ensures stopTemperature == old(stopTemperature) && startTemperature == old(startTemperature)
      ensures runTime == old(runTime) && runCycle == old(runCycle)
      ensures measureCmd == old(measureCmd) && measureRegex == old(measureRegex)
      ensures r.Pass? <==> hw.initialized
      ensures old(hw.initialized) ==> r.Pass? && running == old(running) && hw.registry.inUse == old(hw.registry.inUse)
      ensures !old(hw.initialized) && Key(hw.name) in old(hw.registry.inUse) ==>
        r == Fail(PinInUse(hw.name)) && running == old(running) && hw.registry.inUse == old(hw.registry.inUse)
      ensures !old(hw.initialized) && Key(hw.name) !in old(hw.registry.inUse) ==>
        r.Pass? && !running && hw.registry.inUse == old(hw.registry.inUse) + {Key(hw.name)}
      ensures forall q: Pin :: q != hw && q.registry == hw.registry && old(allocated(q) && q.Valid()) ==> q.Valid()
    {
      if hw.initialized {
        return Pass;
      }
      r := hw.Initialize();
      if r.Fail? {
        return;
      }
      running := false;
    }

    /** CoolerFan.setTemperatures: ignored once initialized; a string that does not
        parse changes nothing. The band is not checked here (loadConfig checks it). */
    method SetTemperatures(temp: string) returns (r: Outcome<Error>)
      modifies this
      ensures runTime == old(runTime) && runCycle == old(runCycle) && running == old(running)
      ensures measureCmd == old(measureCmd) && measureRegex == old(measureRegex)
      ensures hw.initialized || ParseTemp(temp).Failure? ==>
        stopTemperature == old(stopTemperature) && startTemperature == old(startTemperature)
      ensures hw.initialized ==> r.Pass?
      ensures !hw.initialized && ParseTemp(temp).Failure? ==> r == Fail(BadTemperature)
      ensures !hw.initialized && ParseTemp(temp).Success? ==>
        r.Pass? && (stopTemperature, startTemperature) == ParseTemp(temp).value
      ensures old(Configured()) && (hw.initialized || TempValid(temp)) ==> Configured()
    {
      if hw.initialized {
        return Pass;
      }
      var parsed := ParseTemp(temp);
      if parsed.Failure? {
        return Fail(parsed.error);
      }
      stopTemperature, startTemperature := parsed.value.0, parsed.value.1;
      return Pass;
    }

    /** CoolerFan.setTimeSpan: ignored once initialized; a string that does not parse
        changes nothing. The span is not checked here (loadConfig checks it). */
    method SetTimeSpan(timeSpan: string) returns (r: Outcome<Error>)
      modifies this
      ensures stopTemperature == old(stopTemperature) && startTemperature == old(startTemperature)
      ensures running == old(running) && measureCmd == old(measureCmd) && measureRegex == old(measureRegex)
      ensures hw.initialized || ParseTimeSpan(timeSpan).Failure? ==>
        runTime == old(runTime) && runCycle == old(runCycle)
      ensures hw.initialized ==> r.Pass?
      ensures !hw.initialized && ParseTimeSpan(timeSpan).Failure? ==> r == Fail(BadTimeSpan)
      ensures !hw.initialized && ParseTimeSpan(timeSpan).Success? ==>
        r.Pass? && (runTime, runCycle) == ParseTimeSpan(timeSpan).value
      ensures old(Configured()) && (hw.initialized || TimeSpanValid(timeSpan)) ==> Configured()
    {
      if hw.initialized {
        return Pass;
      }
      var parsed := ParseTimeSpan(timeSpan);
      if parsed.Failure? {
        return Fail(parsed.error);
      }
      runTime, runCycle := parsed.value.0, parsed.value.1;
      return Pass;
    }

    /** CoolerFan.setCmd: ignored once initialized. */
    method SetCmd(cmd: string)
      modifies this
      ensures stopTemperature == old(stopTemperature) && startTemperature == old(startTemperature)
      ensures runTime == old(runTime) && runCycle == old(runCycle) && running == old(running)
      ensures measureRegex == old(measureRegex)
      ensures measureCmd == if hw.initialized then old(measureCmd) else cmd
    {
      if hw.initialized {
        return;
      }
      measureCmd := cmd;
    }

    /** CoolerFan.setRegex: ignored once initialized. */
    method SetRegex(regex: string)
      modifies this
      ensures stopTemperature == old(stopTemperature) && startTemperature == old(startTemperature)
      ensures runTime == old(runTime) && runCycle == old(runCycle) && running == old(running)
      ensures measureCmd == old(measureCmd)
      ensures measureRegex == if hw.initialized then old(measureRegex) else regex
    {
      if hw.initialized {
        return;
      }
      measureRegex := regex;
    }

    /** CoolerFan.check at time now with the temperature read (None when the command
        or the regular expression found none), with the corrected forced-run test.
        Switching the fan before initialize() fails, as ioPin is still None. */
    method Check(now: real, reading: Option<real>) returns (r: Outcome<Error>)
      modifies this
      ensures stopTemperature == old(stopTemperature) && startTemperature == old(startTemperature)
      ensures runTime == old(runTime) && runCycle == old(runCycle)
      ensures measureCmd == old(measureCmd) && measureRegex == old(measureRegex)
      ensures var a := Decide(InForcedWindow(now, runTime, runCycle), reading, stopTemperature, startTemperature);
        if a == Keep then r.Pass? && running == old(running)
        else if !hw.initialized then r == Fail(NoDevice) && running == old(running)
        else r.Pass? && running == Apply(old(running), a)
    {
      var forced := InForcedWindow(now, runTime, runCycle);
      var a := Decide(forced, reading, stopTemperature, startTemperature);
      if a == Keep {
        return Pass;
      }
      if !hw.initialized {
        return Fail(NoDevice);
      }
      running := a == TurnOn;
      return Pass;
    }
  }

  /** A schedule of "0/0" passes _timeSpanValid, so loadConfig installs it, yet every
      check() then divides by zero. The corrected check never forces a run for it. */
  lemma ZeroCycleAccepted(now: real, reading: Option<real>, stop: real, start: real)
    ensures TimeSpanValid("0/0") && ParseTimeSpan("0/0") == Success((0, 0))
    ensures CheckAsWritten(now, 0, 0, reading, stop, start) == Failure(DivisionByZero)
    ensures !InForcedWindow(now, 0, 0)
  {
    ZeroTimeSpan();
  }
}
