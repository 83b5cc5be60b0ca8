/** PowerButton (pi-cooler.py:111-176): a button that runs one of a list of shell
    commands. A short press does nothing; holding the button steps through the
    commands, one every BUTTON_PRESS_TIMEOUT seconds, while the power LED blinks more
    slowly for each later command; releasing it runs the command reached.

    The gpiozero button is modelled by the answers its waits give, in the order they
    are asked: answer 0 is wait_for_press, answer 1 the first wait_for_release, answer
    2+i the release wait while command i is shown, and answer 2+n the last
    wait_for_release after all n commands. A missing answer is a timeout. os.system is
    modelled by the list of commands executed. */
module Button {
  import opened Wrappers
  import opened Text
  import opened Hardware
  import opened PowerLed

  /** DEFAULT_BUTTON_CMDS: reboot, then power off. */
  const DEFAULT_BUTTON_CMDS: seq<string> := ["shutdown -r now", "shutdown now"]

  /** An element of a command list as it comes from JSON: a string or anything else. */
  datatype Item = Str(text: string) | NotStr

  predicate AllStrings(items: seq<Item>)
  {
    forall i :: 0 <= i < |items| ==> items[i].Str?
  }

  /** The strings of a list whose elements are all strings. */
  function Texts(items: seq<Item>): (r: seq<string>)
    requires AllStrings(items)
    ensures |r| == |items|
    ensures forall i :: 0 <= i < |items| ==> items[i] == Str(r[i])
  {
    if items == [] then [] else [items[0].text] + Texts(items[1..])
  }

  /** The for loop over cmds in __init__ and setCmds: fails on the first item that is
      not a string. */
  method CheckItems(items: seq<Item>) returns (r: Result<seq<string>, Error>)
    ensures r.Success? <==> AllStrings(items)
    ensures r.Success? ==> r.value == Texts(items)
    ensures r.Failure? ==> r.error == CommandNotString
  {
    for i := 0 to |items|
      invariant forall j :: 0 <= j < i ==> items[j].Str?
    {
      if !items[i].Str? {
        return Failure(CommandNotString);
      }
    }
    return Success(Texts(items));
  }

  /** The k-th answer of the button: true when it came before its timeout. */
  function Answer(answers: seq<bool>, k: nat): bool
  {
    k < |answers| && answers[k]
  }

  /** The answer of the release wait while command i is shown. */
  function Release(answers: seq<bool>, i: nat): bool
  {
    Answer(answers, 2 + i)
  }

  /** The first command, from i on, during whose wait the button is released. */
  function FirstRelease(answers: seq<bool>, n: nat, i: nat): (r: Option<nat>)
    decreases n - i
    ensures r.Some? ==> i <= r.value < n && Release(answers, r.value)
    ensures r.Some? ==> forall j :: i <= j < r.value ==> !Release(answers, j)
    ensures r.None? ==> forall j :: i <= j < n ==> !Release(answers, j)
  {
    if i >= n then None
    else if Release(answers, i) then Some(i)
    else FirstRelease(answers, n, i + 1)
  }

  /** The blinks shown for commands 0..m-1 of n. */
  function Blinks(n: nat, m: nat): (r: seq<LedState>)
    ensures |r| == m
    ensures forall i :: 0 <= i < m ==> r[i] == BlinkAction(i, n - 1)
  {
    if m == 0 then [] else Blinks(n, m - 1) + [BlinkAction(m - 1, n - 1)]
  }

  /** What one wait() does: whether it reports a press, the index of the command it
      runs, and what it sends to the power LED. */
  datatype WaitRun = WaitRun(pressed: bool, run: Option<nat>, signals: seq<LedState>)

  /** The part of wait() after the button is held past a short press, on a button
      with n commands. */
  function HoldSpec(n: nat, answers: seq<bool>): (w: WaitRun)
    ensures w.run.Some? ==> w.pressed && w.run.value < n
  {
    match FirstRelease(answers, n, 0)
    case Some(i) => WaitRun(true, Some(i), Blinks(n, i + 1) + [LedOff])
    case None => WaitRun(Release(answers, n), None, Blinks(n, n) + [LedOff])
  }

  /** wait() on a button with n commands, given the answers of the button. */
  function WaitSpec(initialized: bool, n: nat, answers: seq<bool>): (w: WaitRun)
    ensures w.pressed ==> initialized && Answer(answers, 0)
    ensures w.run.Some? ==> w.pressed && w.run.value < n
  {
    if !initialized || !Answer(answers, 0) then WaitRun(false, None, [])
    else if Answer(answers, 1) then WaitRun(true, None, [LedOn, LedOff])
    else
      var h := HoldSpec(n, answers);
      WaitRun(h.pressed, h.run, [LedOn] + h.signals)
  }

  /** A release before the first timeout is a short press: nothing runs. */
  lemma ShortPressRunsNothing(n: nat, answers: seq<bool>)
    requires Answer(answers, 0) && Answer(answers, 1)
    ensures WaitSpec(true, n, answers) == WaitRun(true, None, [LedOn, LedOff])
  {
  }

  /** Releasing the button during the wait of command i, after holding it through the
      waits of commands 0..i-1, runs command i. */
  lemma ReleaseRunsCommand(n: nat, answers: seq<bool>, i: nat)
    requires Answer(answers, 0) && !Answer(answers, 1)
    requires i < n && Release(answers, i)
    requires forall j :: 0 <= j < i ==> !Release(answers, j)
    ensures WaitSpec(true, n, answers).run == Some(i)
  {
  }

  /** Holding the button through every command runs none of them; after a long
      press, wait() then reports whether the button was released within the final
      wait. */
  lemma HoldingThroughRunsNothing(n: nat, answers: seq<bool>)
    requires forall j :: 0 <= j < n ==> !Release(answers, j)
    ensures WaitSpec(true, n, answers).run == None
    ensures Answer(answers, 0) && !Answer(answers, 1) ==>
      WaitSpec(true, n, answers).pressed == Release(answers, n)
  {
  }

  /** Once the button is pressed, the LED goes on first and is off at the end. */
  lemma LedOnThenOff(n: nat, answers: seq<bool>)
    requires Answer(answers, 0)
    ensures var s := WaitSpec(true, n, answers).signals;
      |s| >= 2 && s[0] == LedOn && s[|s| - 1] == LedOff
  {
  }

  /** The last blink before the release is the one of the command that runs. */
  lemma LastBlinkShowsCommand(n: nat, answers: seq<bool>)
    requires WaitSpec(true, n, answers).run.Some?
    ensures var w := WaitSpec(true, n, answers);
      |w.signals| >= 3 && w.signals[|w.signals| - 2] == BlinkAction(w.run.value, n - 1)
  {
  }

  /** Each later command blinks at least as slowly as the one before. */
  lemma {:induction false} BlinksSlowDown(n: nat, m: nat, i: nat, j: nat)
    requires m <= n && i <= j < m
    ensures Blinks(n, m)[i].Blinking? && Blinks(n, m)[j].Blinking?
    ensures Blinks(n, m)[i].period <= Blinks(n, m)[j].period
  {
    BlinkPeriodMonotone(i, j, n - 1);
  }

  /** With a single command, holding the button past a short press makes wait() call
      blink(0, 0), which raises ZeroDivisionError as written. */
  lemma SingleCommandWaitRaises(answers: seq<bool>)
    requires Answer(answers, 0) && !Answer(answers, 1)
    ensures var s := WaitSpec(true, 1, answers).signals;
      |s| == 3 && s[1] == BlinkAction(0, 0) && BlinkActionAsWritten(0, 0).Failure?
  {
    assert FirstRelease(answers, 1, 0).Some? || FirstRelease(answers, 1, 0).None?;
  }

  class PowerButton {
    const hw: Pin
    var cmds: seq<string>
    var led: PowerLED?
    /** The commands passed to os.system, oldest first. */
    var executed: seq<string>

    constructor (hw: Pin, cmds: seq<string>, led: PowerLED?)
      ensures this.hw == hw && this.cmds == cmds && this.led == led && executed == []
    {
      this.hw := hw;
      this.cmds := cmds;
      this.led := led;
      executed := [];
    }

    /** PowerButton(pin, cmds, powerLED): an empty list means the default commands; a
        list with a non-string element is rejected. The pin is never reversed. */
    static method Create(pin: string, items: seq<Item>, led: PowerLED?, registry: Registry)
      returns (r: Result<PowerButton, Error>)
      requires registry.Valid()
      ensures Strip(pin) == [] ==> r == Failure(EmptyPin)
      ensures Strip(pin) != [] && !AllStrings(items) ==> r == Failure(CommandNotString)
      ensures r.Success? <==> Strip(pin) != [] && AllStrings(items)
      ensures r.Success? ==> fresh(r.value) && fresh(r.value.hw) && r.value.hw.Valid()
      ensures r.Success? ==> !r.value.hw.initialized && !r.value.hw.reversed
      ensures r.Success? ==> r.value.hw.name == Strip(pin) && r.value.hw.registry == registry
      ensures r.Success? ==> r.value.cmds == (if items == [] then DEFAULT_BUTTON_CMDS else Texts(items))
      ensures r.Success? ==> r.value.cmds != [] && r.value.led == led && r.value.executed == []
    {
      var p := Pin.Create(pin, false, registry);
      if p.Failure? {
        return Failure(p.error);
      }
      var cmds := DEFAULT_BUTTON_CMDS;
      if items != [] {
        var checked := CheckItems(items);
        if checked.Failure? {
          return Failure(checked.error);
        }
        cmds := checked.value;
      }
      var b := new PowerButton(p.value, cmds, led);
      return Success(b);
    }

    /** PowerButton.setCmds: ignored once initialized; rejects an empty list and a list
        with a non-string element, changing nothing. */
    method SetCmds(items: seq<Item>) returns (r: Outcome<Error>)
      modifies this
      ensures led == old(led) && executed == old(executed)
      ensures hw.initialized ==> r.Pass? && cmds == old(cmds)
      ensures !hw.initialized && items == [] ==> r == Fail(EmptyCommands) && cmds == old(cmds)
      ensures !hw.initialized && items != [] && !AllStrings(items) ==>
        r == Fail(CommandNotString) && cmds == old(cmds)
      ensures !hw.initialized && items != [] && AllStrings(items) ==> r.Pass? && cmds == Texts(items)
      ensures old(cmds) != [] ==> cmds != []
    {
      if hw.initialized {
        return Pass;
      }
      if items == [] {
        return Fail(EmptyCommands);
      }
      var checked := CheckItems(items);
      if checked.Failure? {
        return Fail(checked.error);
      }
      cmds := checked.value;
      return Pass;
    }

    /** PowerButton.setPowerLED: ignored once initialized. */
    method SetPowerLED(led: PowerLED?)
      modifies this
      ensures cmds == old(cmds) && executed == old(executed)
      ensures this.led == if hw.initialized then old(this.led) else led
    {
      if hw.initialized {
        return;
      }
      this.led := led;
    }

    /** PowerButton.initialize: claims the pin and switches the power LED off; does
        nothing when already initialized. */
    method Initialize() returns (r: Outcome<Error>)
      requires hw.Valid()
      modifies this, hw, hw.registry, led
      ensures hw.Valid() && hw.reversed == old(hw.reversed)
      ensures cmds == old(cmds) && led == old(led) && executed == old(executed)
      ensures r.Pass? <==> hw.initialized
      ensures old(hw.initialized) ==> r.Pass? && hw.registry.inUse == old(hw.registry.inUse)
      ensures !old(hw.initialized) && Key(hw.name) in old(hw.registry.inUse) ==>
        r == Fail(PinInUse(hw.name)) && hw.registry.inUse == old(hw.registry.inUse)
      ensures !old(hw.initialized) && Key(hw.name) !in old(hw.registry.inUse) ==>
        r.Pass? && hw.registry.inUse == old(hw.registry.inUse) + {Key(hw.name)}
      ensures led != null ==>
        led.sent == old(led.sent) + if !old(hw.initialized) && r.Pass? && led.hw.initialized then [LedOff] else []
      ensures forall q: Pin :: q != hw && q.registry == hw.registry && old(allocated(q) && q.Valid()) ==> q.Valid()
    {
      if hw.initialized {
        return Pass;
      }
      r := hw.Initialize();
      if r.Fail? {
        return;
      }
      if led != null {
        led.Off();
      }
    }

    /** PowerButton.wait, given the answers of the button: proved against WaitSpec. */
    method Wait(answers: seq<bool>) returns (pressed: bool)
      modifies this, led
      ensures cmds == old(cmds) && led == old(led)
      ensures var w := WaitSpec(hw.initialized, |cmds|, answers);
        pressed == w.pressed &&
        executed == old(executed) + (if w.run.Some? then [cmds[w.run.value]] else [])
      ensures led != null ==> led.sent == old(led.sent) +
                                 if led.hw.initialized then WaitSpec(hw.initialized, |cmds|, answers).signals else []
    {
      if !hw.initialized || !Answer(answers, 0) {
        return false;
      }
      if led != null {
        led.On();
      }
      if Answer(answers, 1) {
        if led != null {
          led.Off();
        }
        return true;
      }
      pressed := Hold(answers);
    }

    /** The loop of wait() over the commands while the button is held, and the last
        wait for the release: proved against HoldSpec. */
    method Hold(answers: seq<bool>) returns (pressed: bool)
      modifies this, led
      ensures cmds == old(cmds) && led == old(led)
      ensures var h := HoldSpec(|cmds|, answers);
        pressed == h.pressed &&
        executed == old(executed) + (if h.run.Some? then [cmds[h.run.value]] else [])
      ensures led != null ==> led.sent == old(led.sent) +
                                 if led.hw.initialized then HoldSpec(|cmds|, answers).signals else []
    {
      var n := |cmds|;
      for i := 0 to n
        invariant forall j :: 0 <= j < i ==> !Release(answers, j)
        invariant cmds == old(cmds) && led == old(led) && executed == old(executed)
        invariant led != null ==>
          led.sent == old(led.sent) + if led.hw.initialized then Blinks(n, i) else []
      {
        assert Blinks(n, i + 1) == Blinks(n, i) + [BlinkAction(i, n - 1)];
        if led != null {
          led.Blink(i, n - 1);
        }
        if Release(answers, i) {
          assert FirstRelease(answers, n, 0) == Some(i);
          executed := executed + [cmds[i]];
          if led != null {
            led.Off();
          }
          return true;
        }
      }
      assert FirstRelease(answers, n, 0) == None;
      if led != null {
        led.Off();
      }
      return Release(answers, n);
    }
  }
}
