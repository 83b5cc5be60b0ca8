/** PowerLED (pi-cooler.py:81-109): the LED that shows which power-button command a
    long press has reached. The gpiozero LED is modelled by the list of commands sent
    to it: off, on, or blink with a period (on_time and off_time are each half of it)
    and a number of blinks. */
module PowerLed {
  import opened Wrappers
  import opened Text
  import opened Hardware
  import opened RealArith

  /** BUTTON_PRESS_TIMEOUT: seconds the button waits before moving to the next command. */
  const BUTTON_PRESS_TIMEOUT: real := 3.0
  /** LED_BLINK_MIN_TIME = BUTTON_PRESS_TIMEOUT/12, the fastest blink period. */
  const LED_BLINK_MIN_TIME: real := BUTTON_PRESS_TIMEOUT / 12.0
  /** LED_BLINK_MAX_TIME = BUTTON_PRESS_TIMEOUT/4, the slowest blink period. */
  const LED_BLINK_MAX_TIME: real := BUTTON_PRESS_TIMEOUT / 4.0

  /** A command sent to the LED. */
  datatype LedState = LedOff | LedOn | Blinking(period: real, count: int)

  /** A fraction of a non-negative number by a larger one lies in [0, 1]. */
  lemma UnitRatio(a: real, b: real)
    requires 0.0 <= a <= b && b > 0.0
    ensures 0.0 <= a / b <= 1.0
  {
    QuotientAtLeast(a, b, 0.0);
    QuotientAtMost(a, b, 1.0);
  }

  /** start/end as blink() computes it: Python true division, which raises
      ZeroDivisionError when end is 0. */
  function BlinkRatioAsWritten(start: int, end: int): (r: Result<real, Error>)
    ensures r.Failure? <==> end == 0
    ensures r.Success? ==> r.value * (end as real) == start as real
    ensures r.Success? && 0 <= start <= end ==> 0.0 <= r.value <= 1.0
  {
    if end == 0 then Failure(DivisionByZero)
    else
      var ratio := start as real / end as real;
      assert 0 <= start <= end ==> 0.0 <= ratio <= 1.0 by {
        if 0 <= start <= end {
          UnitRatio(start as real, end as real);
        }
      }
      Success(ratio)
  }

  /** Where command start sits among commands 0..end, as a fraction: 0 for the first,
      1 for the last. A single command (end 0) is the last one. */
  function BlinkRatio(start: int, end: int): (r: real)
    requires 0 <= start <= end
    ensures 0.0 <= r <= 1.0
    ensures start == end ==> r == 1.0
    ensures end > 0 ==> r * (end as real) == start as real
  {
    if start == end then 1.0
    else
      UnitRatio(start as real, end as real);
      start as real / end as real
  }

  /** The blink period for command start of 0..end: from the fastest period for the
      first command to the slowest for the last. */
  function BlinkPeriod(start: int, end: int): (p: real)
    requires 0 <= start <= end
    ensures LED_BLINK_MIN_TIME <= p <= LED_BLINK_MAX_TIME
    ensures start == end ==> p == LED_BLINK_MAX_TIME
    ensures start == 0 < end ==> p == LED_BLINK_MIN_TIME
  {
    LED_BLINK_MIN_TIME + BlinkRatio(start, end) * (LED_BLINK_MAX_TIME - LED_BLINK_MIN_TIME)
  }

  /** n = int(BUTTON_PRESS_TIMEOUT/time) + 2: int() truncates toward zero, which for a
      positive quotient is its floor. */
  function BlinkCount(p: real): (n: int)
    requires LED_BLINK_MIN_TIME <= p <= LED_BLINK_MAX_TIME
    ensures 6 <= n <= 14
  {
    var q := BUTTON_PRESS_TIMEOUT / p;
    QuotientAtLeast(BUTTON_PRESS_TIMEOUT, p, 4.0);
    QuotientAtMost(BUTTON_PRESS_TIMEOUT, p, 12.0);
    q.Floor + 2
  }

  /** What blink(start, end) sends to the LED, with the ratio corrected for end 0. */
  function BlinkAction(start: int, end: int): (r: LedState)
    ensures start < 0 ==> r == LedOff
    ensures end < start && 0 <= start ==> r == LedOn
    ensures r.Blinking? <==> 0 <= start <= end
    ensures r.Blinking? ==> LED_BLINK_MIN_TIME <= r.period <= LED_BLINK_MAX_TIME && 6 <= r.count <= 14
    ensures r.Blinking? ==> r.count as real * r.period > BUTTON_PRESS_TIMEOUT + r.period
  {
    if start < 0 then LedOff
    else if start <= end then
      var p := BlinkPeriod(start, end);
      BlinkOutlastsWait(p);
      Blinking(p, BlinkCount(p))
    else LedOn
  }

  /** blink(start, end) as written: blink(0, 0) divides by zero. */
  function BlinkActionAsWritten(start: int, end: int): (r: Result<LedState, Error>)
    ensures r.Failure? <==> start == end == 0
  {
    if start < 0 then Success(LedOff)
    else if start <= end then
      match BlinkRatioAsWritten(start, end)
      case Failure(e) => Failure(e)
      case Success(ratio) =>
        var p := LED_BLINK_MIN_TIME + ratio * (LED_BLINK_MAX_TIME - LED_BLINK_MIN_TIME);
        Success(Blinking(p, BlinkCount(p)))
    else Success(LedOn)
  }

  /** The corrected blink agrees with the source wherever the source does not raise. */
  lemma BlinkActionAgrees(start: int, end: int)
    requires !(start == end == 0)
    ensures BlinkActionAsWritten(start, end) == Success(BlinkAction(start, end))
  {
    if 0 <= start <= end {
      assert end > 0;
      var ratio := start as real / end as real;
      assert BlinkRatioAsWritten(start, end) == Success(ratio);
      assert BlinkRatio(start, end) == ratio by {
        if start == end {
          assert ratio == (end as real) / (end as real);
        }
      }
    }
  }

  /** blink(0, 0), which a button with a single command sends, raises ZeroDivisionError. */
  lemma SingleCommandBlinkRaises()
    ensures BlinkActionAsWritten(0, 0) == Failure(DivisionByZero)
    ensures BlinkAction(0, 0) == Blinking(LED_BLINK_MAX_TIME, 6)
  {
    assert BUTTON_PRESS_TIMEOUT / LED_BLINK_MAX_TIME == 4.0;
  }

  /** Later commands blink more slowly. */
  lemma {:induction false} BlinkPeriodMonotone(i: int, j: int, end: int)
    requires 0 <= i <= j <= end
    ensures BlinkPeriod(i, end) <= BlinkPeriod(j, end)
  {
    if j < end {
      assert BlinkRatio(i, end) * (end as real) <= BlinkRatio(j, end) * (end as real);
    }
  }

  /** The blinks last longer than one wait for the button: n blinks of period p take
      more than BUTTON_PRESS_TIMEOUT seconds, so the LED is still blinking when the
      button moves on. */
  lemma {:induction false} BlinkOutlastsWait(p: real)
    requires LED_BLINK_MIN_TIME <= p <= LED_BLINK_MAX_TIME
    ensures BlinkCount(p) as real * p > BUTTON_PRESS_TIMEOUT + p
  {
    var q := BUTTON_PRESS_TIMEOUT / p;
    assert q * p == BUTTON_PRESS_TIMEOUT;
    var n := BlinkCount(p);
    assert n == q.Floor + 2;
    assert n as real > q + 1.0;
    MulLt(q + 1.0, n as real, p);
    assert (q + 1.0) * p == q * p + p;
  }

  class PowerLED {
    const hw: Pin
    /** The commands sent to the gpiozero LED, oldest first. */
    var sent: seq<LedState>

    constructor (hw: Pin)
      ensures this.hw == hw && sent == []
    {
      this.hw := hw;
      sent := [];
    }

    /** PowerLED(pin, reversed): HwController.__init__, nothing sent. */
    static method Create(pin: string, reversed: bool, registry: Registry) returns (r: Result<PowerLED, Error>)
      requires registry.Valid()
      ensures r.Failure? <==> Strip(pin) == []
      ensures r.Failure? ==> r.error == EmptyPin
      ensures r.Success? ==> fresh(r.value) && fresh(r.value.hw) && r.value.sent == []
      ensures r.Success? ==> r.value.hw.Valid() && !r.value.hw.initialized && r.value.hw.registry == registry
      ensures r.Success? ==> r.value.hw.name == Strip(pin) && r.value.hw.reversed == reversed
    {
      var p := Pin.Create(pin, reversed, registry);
      if p.Failure? {
        return Failure(p.error);
      }
      var led := new PowerLED(p.value);
      return Success(led);
    }

    /** The state of the LED: the last command sent, off before any. */
    function State(): LedState
      reads this
    {
      if sent == [] then LedOff else sent[|sent| - 1]
    }

    /** PowerLED.initialize: claims the pin and switches the LED off; does nothing when
        already initialized, and sends nothing when the pin is in use. */
    method Initialize() returns (r: Outcome<Error>)
      requires hw.Valid()
      modifies this, hw, hw.registry
      ensures hw.Valid() && hw.reversed == old(hw.reversed)
      ensures r.Pass? <==> hw.initialized
      ensures old(hw.initialized) ==> r.Pass? && sent == old(sent) && hw.registry.inUse == old(hw.registry.inUse)
      ensures !old(hw.initialized) && Key(hw.name) in old(hw.registry.inUse) ==>
        r == Fail(PinInUse(hw.name)) && sent == old(sent) && hw.registry.inUse == old(hw.registry.inUse)
      ensures !old(hw.initialized) && Key(hw.name) !in old(hw.registry.inUse) ==>
        r.Pass? && sent == old(sent) + [LedOff] && hw.registry.inUse == old(hw.registry.inUse) + {Key(hw.name)}
      ensures forall q: Pin :: q != hw && q.registry == hw.registry && old(allocated(q) && q.Valid()) ==> q.Valid()
    {
      if hw.initialized {
        return Pass;
      }
      r := hw.Initialize();
      if r.Fail? {
        return;
      }
      sent := sent + [LedOff];
    }

    /** PowerLED.blink: a command of the long-press sequence, ignored before initialize(). */
    method Blink(start: int, end: int)
      modifies this
      ensures sent == old(sent) + if hw.initialized then [BlinkAction(start, end)] else []
    {
      if !hw.initialized {
        return;
      }
      sent := sent + [BlinkAction(start, end)];
    }

    /** PowerLED.on, ignored before initialize(). */
    method On()
      modifies this
      ensures sent == old(sent) + if hw.initialized then [LedOn] else []
      ensures hw.initialized ==> State() == LedOn
    {
      if !hw.initialized {
        return;
      }
      sent := sent + [LedOn];
    }

    /** PowerLED.off, ignored before initialize(). */
    method Off()
      modifies this
      ensures sent == old(sent) + if hw.initialized then [LedOff] else []
      ensures State() == if hw.initialized then LedOff else old(State())
    {
      if !hw.initialized {
        return;
      }
      sent := sent + [LedOff];
    }
  }
}
