# pi-cooler in Dafny

pi-cooler is a Raspberry Pi daemon that drives three GPIO peripherals:
- a cooler fan, switched on and off by temperature and by a configurable forced-run schedule (five minutes a day by default);
- a power button, whose long press steps through a list of shell commands (reboot, power off) and runs the one reached when it is released;
- a power LED, which blinks ever more slowly as the press reaches later commands.

Each peripheral claims its pin in a process-wide table, so that no pin is driven twice. This project models the core of `pi-cooler.py`:
- the pin table (`HwController`);
- the three peripherals (`PowerLED`, `PowerButton`, `CoolerFan`), their setters, and the decision each of them makes;
- the two configuration parsers, `_parseTimeSpan` (`"5m/24h"`) and `_parseTemp` (`"60.0/70.0"`), with their validity tests.

The modules are:
- `Wrappers`: Option, Result and Outcome, and the exceptions the core raises.
- `Text`: `str.strip()`, `str.lower()`, the regex classes `\s` and `[0-9]`, and `int()` on digits.
- `TimeSpan` and `Temperature`: the two regular expressions, written as matchers that return the matched text's parts. Each matcher is proved to recognise exactly its grammar. The parsers and validity tests are then stated against that grammar.
- `FanRule`: the decision `check()` makes, Python's float `%`, and the hysteresis band.
- `Hardware`: `HwController`, split into a `Registry` class and a `Pin` class. `Registry` replaces the class attribute `allPins` and is handed to every controller; `Pin` is one controller.
- `PowerLed`, `Button` and `Cooler`: the peripheral classes. Each holds a `Pin` instead of inheriting from `HwController`.

The hardware and the clock are parameters or recorded effects:
- the LED is the list of commands sent to it;
- the button is the sequence of answers its waits return;
- `os.system` is the list of commands executed;
- the fan is a boolean output;
- the time and the measured temperature are arguments of `Check`.

## Model

| member | source | states |
|---|---|---|
| Text.Lower | pi-cooler.py:188 | `str.lower()`: the result has the input's length and each character lower-cased (ASCII letters only) |
| Text.Strip | pi-cooler.py:41 | the result is a slice of the input with only white space (Python's `isspace` set) cut from both ends, and it neither starts nor ends with white space |
| Text.StripAround | pi-cooler.py:41 | stripping white space added around a string that has none at its ends gives that string back |
| Text.StripLower | pi-cooler.py:188 | stripping and lower-casing commute |
| Text.DigitsValue | pi-cooler.py:210-211 | `int()` of n decimal digits is below 10 to the power n |
| Text.DigitsRoundTrip | pi-cooler.py:209-210 | `int()` of the decimal digits of n is n |
| TimeSpan.UnitRoundTrip | pi-cooler.py:28 | each unit letter `s`, `m`, `h`, `d` is recognised as its own unit |
| TimeSpan.MatchAmountSound | pi-cooler.py:28 | a matched amount (digits, white space, an optional unit letter, white space) is well formed, and its text followed by the rest is the input |
| TimeSpan.MatchAmountOf | pi-cooler.py:28 | any well-formed amount followed by the end or a slash is matched as exactly that amount |
| TimeSpan.MatchSpan | pi-cooler.py:28 | a match of `TIME_SPAN_REGEX` is well formed and spells the whole input |
| TimeSpan.MatchSpanComplete | pi-cooler.py:28 | every well-formed time-span text is matched, with the same parts |
| TimeSpan.MatchSpanExact | pi-cooler.py:28 | the matcher succeeds exactly on the strings of the grammar |
| TimeSpan.ParseTimeSpan | pi-cooler.py:205-224 | `_parseTimeSpan` succeeds exactly when the stripped, lower-cased input matches `TIME_SPAN_REGEX`, and otherwise fails with the ValueError; its values are stated by ParseTimeSpanMeaning |
| TimeSpan.TimeSpanValid | pi-cooler.py:227-234 | a valid time span matches the grammar, parses, and has a run no longer than its cycle; the converse is TimeSpanValidMeaning |
| TimeSpan.ParseTimeSpanMeaning | pi-cooler.py:205-224 | `_parseTimeSpan` succeeds exactly when the stripped, lower-cased input matches, and then returns each number times its unit's factor (none or s: 1, m: 60, h: 3600, d: 86400) |
| TimeSpan.TimeSpanValidMeaning | pi-cooler.py:227-234 | `_timeSpanValid` holds exactly when the input matches and the run is at most the cycle; malformed input gives false, not an error |
| TimeSpan.ParseFormatted | pi-cooler.py:205-224 | formatting any two numbers with any units and parsing the text gives back the numbers times their factors |
| TimeSpan.ParseIgnoresCase | pi-cooler.py:206 | lower-casing the input first changes neither the parse nor the validity |
| TimeSpan.UpperCaseUnits | pi-cooler.py:206 | `"5M/24H"` parses to (300, 86400) |
| TimeSpan.DefaultTimeSpan | pi-cooler.py:17 | the default `"5m/24h"` parses to (300, 86400) and is valid |
| TimeSpan.ParseRunLongerThanCycle | pi-cooler.py:205-224 | `"25h/24h"` parses to 90000 seconds of run in an 86400-second cycle |
| TimeSpan.RunLongerThanCycle | pi-cooler.py:227-234 | `"25h/24h"` is not valid, because its run is longer than its cycle |
| TimeSpan.ZeroTimeSpan | pi-cooler.py:227-234 | `"0/0"` parses to (0, 0) and is valid |
| Temperature.MatchSign | pi-cooler.py:29 | the optional sign taken off, followed by the rest, is the input |
| Temperature.MatchNumberSound | pi-cooler.py:29 | a matched `[+-]?[0-9]+(?:\.[0-9]+)?` is well formed, and its text followed by the rest is the input |
| Temperature.MatchNumberOf | pi-cooler.py:29 | any well-formed number followed by neither a digit nor a point is matched as exactly that number |
| Temperature.MatchTemp | pi-cooler.py:29 | a match of `TEMPERATURE_REGEX` is well formed and spells the whole input |
| Temperature.MatchTempComplete | pi-cooler.py:29 | every well-formed temperature text is matched, with the same parts |
| Temperature.MatchTempExact | pi-cooler.py:29 | the matcher succeeds exactly on the strings of the grammar |
| Temperature.ParseTemp | pi-cooler.py:187-192 | `_parseTemp` succeeds exactly when the stripped, lower-cased input matches `TEMPERATURE_REGEX`, and otherwise fails with the ValueError; its values are stated by ParseTempMeaning |
| Temperature.TempValid | pi-cooler.py:195-202 | a valid pair matches the grammar, parses, and has a stop temperature not above its start temperature; the converse is TempValidMeaning |
| Temperature.ParseTempMeaning | pi-cooler.py:187-192 | `_parseTemp` succeeds exactly when the stripped, lower-cased input matches, and then returns the decimal values of the two numbers |
| Temperature.TempValidMeaning | pi-cooler.py:195-202 | `_tempValid` holds exactly when the input matches and the stop temperature is not above the start temperature |
| Temperature.ParseIgnoresCase | pi-cooler.py:188 | lower-casing the input first changes neither the parse nor the validity |
| Temperature.DefaultTemperatures | pi-cooler.py:16 | the default `"60.0/70.0"` parses to (60, 70) and is valid |
| Temperature.StopAboveStart | pi-cooler.py:195-202 | `"70/60"` parses but is not valid |
| FanRule.FloatMod | pi-cooler.py:277 | Python's `time.time() % runCycle` for a positive cycle lies in [0, runCycle) |
| FanRule.FloatModPeriodic | pi-cooler.py:277 | the remainder is the same one cycle later |
| FanRule.InForcedWindow | pi-cooler.py:277-279 | a forced run needs a positive run time and a positive cycle |
| FanRule.ForcedWindowRepeats | pi-cooler.py:277-279 | the forced-run window comes back every cycle |
| FanRule.Decide | pi-cooler.py:279-286 | the fan is turned on exactly when forced or when a reading is at or above both the stop and the start temperature; turned off exactly when not forced and the reading is missing or below the stop temperature; left alone exactly when not forced and the reading lies in [stop, start) |
| FanRule.Apply | pi-cooler.py:279-286 | turning on or off sets the level; the level changes only through the action in that direction |
| FanRule.CheckAsWritten | pi-cooler.py:276-286 | `check()` as written fails with ZeroDivisionError exactly when the cycle is zero |
| FanRule.CheckAgrees | pi-cooler.py:276-286 | for every positive cycle, the corrected decision is the source's |
| FanRule.NextLevel | pi-cooler.py:278-286 | after a check the fan runs exactly when it is forced, or when a reading at or above the stop temperature is also at or above the start temperature or finds the fan running |
| FanRule.CheckIdempotent | pi-cooler.py:278-286 | a second check with the same inputs changes nothing |
| FanRule.Hysteresis | pi-cooler.py:281-286 | outside a forced run, a stopped fan starts only at or above the start temperature; a running fan stops only below the stop temperature or with no reading |
| FanRule.RunChecks | pi-cooler.py:288-291 | after a run of checks the level differs from the start only if some check switched the fan in that direction |
| FanRule.BandKeepsLevel | pi-cooler.py:283-286 | any number of checks with readings in [stop, start), outside a forced run, leave the fan as it was |
| FanRule.LastActionDecides | pi-cooler.py:278-286 | after a run of checks the fan is on exactly when the last check that acted turned it on |
| FanRule.KeepsLevel | pi-cooler.py:278-286 | checks that all leave the fan alone leave its level unchanged |
| Hardware.Key | pi-cooler.py:52 | the key of a pin is its name lower-cased: same length, and lower-casing it again changes nothing |
| Hardware.Registry.constructor | pi-cooler.py:38 | the table of pins in use starts empty |
| Hardware.Pin.Create | pi-cooler.py:40-47 | the name is stripped; an empty or white-space-only name fails with the setup error, and otherwise the controller is not initialized |
| Hardware.Pin.Initialize | pi-cooler.py:49-56 | does nothing when initialized; fails without change when the lower-cased name is in use; otherwise adds exactly that key and sets initialized. Other controllers of the table stay consistent |
| Hardware.Pin.SetReversed | pi-cooler.py:58-61 | changes the reversed flag only before initialization |
| Hardware.Pin.Close | pi-cooler.py:63-70 | does nothing when not initialized; otherwise removes exactly its key and clears initialized |
| Hardware.OneOwnerPerPin | pi-cooler.py:49-56 | two initialized controllers whose names agree case-insensitively are the same controller |
| Hardware.InUseOwned | pi-cooler.py:49-70 | every key in use belongs to an initialized controller of that name |
| PowerLed.BlinkRatioAsWritten | pi-cooler.py:95 | `start/end` raises ZeroDivisionError exactly when end is 0 |
| PowerLed.BlinkRatio | pi-cooler.py:95 | the corrected ratio lies in [0, 1], is 1 for the last command, and is start/end whenever end is positive |
| PowerLed.BlinkPeriod | pi-cooler.py:95 | the period lies between LED_BLINK_MIN_TIME and LED_BLINK_MAX_TIME; the first of several commands gets the minimum and the last the maximum |
| PowerLed.BlinkCount | pi-cooler.py:96 | `int(BUTTON_PRESS_TIMEOUT/time) + 2` lies between 6 and 14 |
| PowerLed.BlinkOutlastsWait | pi-cooler.py:95-97 | the blinks last longer than one button wait plus one period |
| PowerLed.BlinkPeriodMonotone | pi-cooler.py:95 | later commands blink at least as slowly |
| PowerLed.BlinkAction | pi-cooler.py:92-99 | a negative start switches the LED off; a start past the end switches it on; otherwise it blinks, with a period in [LED_BLINK_MIN_TIME, LED_BLINK_MAX_TIME], 6 to 14 times, for longer than one button wait plus one period |
| PowerLed.BlinkActionAsWritten | pi-cooler.py:89-99 | `blink()` as written fails exactly for blink(0, 0) |
| PowerLed.BlinkActionAgrees | pi-cooler.py:89-99 | the corrected blink equals the source's wherever the source does not raise |
| PowerLed.SingleCommandBlinkRaises | pi-cooler.py:95 | blink(0, 0) raises as written; corrected, it blinks at the slowest period, 6 times |
| PowerLed.PowerLED.Create | pi-cooler.py:40-47 | the pin checks of `HwController.__init__`; nothing is sent to the LED |
| PowerLed.PowerLED.Initialize | pi-cooler.py:82-87 | does nothing when initialized; when the pin is in use it fails and sends nothing; otherwise it claims the pin and switches the LED off |
| PowerLed.PowerLED.Blink | pi-cooler.py:89-99 | sends the corrected blink action, only when initialized |
| PowerLed.PowerLED.On | pi-cooler.py:101-104 | switches the LED on, only when initialized |
| PowerLed.PowerLED.Off | pi-cooler.py:106-109 | switches the LED off, only when initialized |
| Button.CheckItems | pi-cooler.py:127-130 | succeeds exactly when every item is a string, and returns them in order; otherwise it fails with the list-of-strings error |
| Button.FirstRelease | pi-cooler.py:161-166 | finds the first command during whose wait the button is released: that wait succeeded and none before it did; none is found only if no wait succeeded |
| Button.Blinks | pi-cooler.py:161-162 | the i-th blink is blink(i, n-1) |
| Button.HoldSpec | pi-cooler.py:160-170 | after a long press a command runs only when a press is reported, and its index is below the number of commands |
| Button.WaitSpec | pi-cooler.py:149-170 | a press is reported only for an initialized button whose press wait succeeded, and a command runs only when a press is reported, with an index below n |
| Button.ShortPressRunsNothing | pi-cooler.py:156-159 | a release within the first wait reports a press, runs nothing, and switches the LED on then off |
| Button.ReleaseRunsCommand | pi-cooler.py:161-166 | held through the waits of commands 0..i-1 and released during the wait of command i, the button runs command i |
| Button.HoldingThroughRunsNothing | pi-cooler.py:161-170 | held through every command's wait, the button runs nothing; after a long press, wait() returns the answer of the final release wait |
| Button.LedOnThenOff | pi-cooler.py:156-167 | once pressed, the LED is switched on first and off last |
| Button.LastBlinkShowsCommand | pi-cooler.py:161-166 | the last blink before the release is the one for the command that runs |
| Button.BlinksSlowDown | pi-cooler.py:161-162 | each later command blinks at least as slowly as the one before |
| Button.SingleCommandWaitRaises | pi-cooler.py:161-162 | with one command and an initialized power LED, holding past a short press calls blink(0, 0), which raises as written (without a LED, or with one not initialized, nothing is divided) |
| Button.PowerButton.Create | pi-cooler.py:112-121 | fails on an empty pin, then on a non-string item; an empty list gives DEFAULT_BUTTON_CMDS; the pin is never reversed; the list is never empty |
| Button.PowerButton.SetCmds | pi-cooler.py:123-131 | ignored once initialized; an empty list or a non-string item fails and changes nothing; otherwise it installs the strings; a non-empty list stays non-empty |
| Button.PowerButton.SetPowerLED | pi-cooler.py:133-136 | changes the LED only before initialization |
| Button.PowerButton.Initialize | pi-cooler.py:138-143 | claims the pin as Pin.Initialize does, and then switches the power LED off |
| Button.PowerButton.Wait | pi-cooler.py:149-170 | returns WaitSpec's answer, runs its command (if any) exactly once, and sends its signals to the LED when the LED is initialized |
| Button.PowerButton.Hold | pi-cooler.py:160-170 | the loop over the commands and the last release wait, proved against HoldSpec |
| Cooler.CoolerFan.Create | pi-cooler.py:179-184 | the settings are what parsing DEFAULT_COOLER_TEMP and DEFAULT_COOLER_TIMESPAN gives, within the valid ranges, with the default measurement command and regular expression |
| Cooler.CoolerFan.Initialize | pi-cooler.py:250-254 | claims the pin as Pin.Initialize does; the new output device is off; the settings do not change |
| Cooler.CoolerFan.SetTemperatures | pi-cooler.py:256-259 | ignored once initialized; unparsable input fails and changes nothing; otherwise it installs the parsed pair; valid input keeps the settings valid |
| Cooler.CoolerFan.SetTimeSpan | pi-cooler.py:261-264 | ignored once initialized; unparsable input fails and changes nothing; otherwise it installs the parsed pair; valid input keeps the settings valid |
| Cooler.CoolerFan.SetCmd | pi-cooler.py:266-269 | changes the measurement command only before initialization |
| Cooler.CoolerFan.SetRegex | pi-cooler.py:271-274 | changes the measurement expression only before initialization |
| Cooler.CoolerFan.Check | pi-cooler.py:276-286 | applies the decision of FanRule to the fan; switching before initialize() fails because the device does not exist, and leaving the fan alone never fails |
| Cooler.ZeroCycleAccepted | pi-cooler.py:227-234 | `"0/0"` is valid, yet as written every check then divides by zero; corrected, it never forces a run |

## Left out

- StatusLED (pi-cooler.py:75-79), `setup()`, `loadConfig()`, the JSON file and the main block are not part of this model. They are I/O and wiring. The wiring facts the model relies on are stated where used.
- `HwController.__del__`: closing on garbage collection has no counterpart; `Pin.Close` is the explicit close. A peripheral is closed through its `hw` pin.
- The gpiozero devices are not modelled: their timing, `on_time`/`off_time`, and the background blink thread. The LED is the list of commands sent to it. The button is the sequence of its waits' answers, and a missing answer is a timeout.
- `_measureTemp` (shell command, ASCII decoding, user regular expression) is not modelled. Its result is the `reading` argument of `Check`. The measurement command and expression are kept only as text.
- Cooler.CoolerFan.SetRegex: compiling the expression, and the `re.error` a bad one raises, are not modelled. The expression is stored as text, and the setter's default argument is not modelled.
- `PowerButton._exec`: `os.system` is recorded, not run.
- `PowerButton.run` and `CoolerFan.run`: the endless loops with `sleep` are not modelled. `FanRule.RunChecks` stands for a run of checks.
- Default arguments are not modelled: `blink`'s `end = 5` (line 89) and the `reversed = False` of `HwController.__init__`, `setReversed` and `CoolerFan.__init__` (lines 40, 58 and 179). Every caller in the model passes both values.
- `PowerButton.wait`: the `timeout` argument and its type check (TypeError) are left out. Only the answers of the waits matter.
- Button.PowerButton.Wait: line 162 blinks the module-level `powerLED`, not `self.powerLED`. `loadConfig` always makes the two the same object (pi-cooler.py:409-410), so the model blinks the button's own LED.
- Text.Lower: only ASCII letters are lower-cased. Other Unicode case mappings are not modelled.
- Hardware.Key: the key is the ASCII lower-casing of Text.Lower, so it keeps the name's length. Python's `str.lower()` can lengthen a string (`"İ"` becomes two characters), which is not modelled.
- Temperature.ParseTempMeaning: numbers are exact decimals. The rounding of Python's `float()` is not modelled.
- Temperature.TempValid: the stop and start temperatures are compared as exact decimals. Where `float()` rounds two different decimals to the same value, the source can accept a pair the model rejects (`"1.00000000000000001/1.0"`).
- Temperature.TempValidMeaning: validity is stated on exact decimals, with the same gap as Temperature.TempValid.
- PowerLed.BlinkRatio: `start/end` (line 95) is an exact real; the rounding of Python's float division is not modelled.
- PowerLed.BlinkPeriod: the period of line 95 is an exact real; its floating-point rounding is not modelled.
- PowerLed.BlinkCount: `BUTTON_PRESS_TIMEOUT/time` (line 96) is an exact real before `int()` takes its floor; floating-point rounding is not modelled.
- FanRule.Decide: the reading is a real number or missing. A `float()` reading of `nan`, which a custom expression set through `setRegex` can capture, fails both comparisons of lines 283-285, so the source leaves the fan as it was. That case is not modelled, and neither are the infinities.
- FanRule.NextLevel: stated only for finite readings. With a `nan` reading the source keeps a running fan running, which this iff does not cover.
- Cooler.CoolerFan.Check: receives only finite readings or none; the `nan` case of FanRule.Decide is not modelled.
- FanRule.FloatMod: `time.time()` is an exact real, so floating-point rounding of the remainder is not modelled.
- Text.DigitsValue: `int()` of a digit string has no length limit here. CPython 3.11 and later raise ValueError for more than 4300 digits by default, a limit that depends on the interpreter and its settings.
- Text.DigitsRoundTrip: holds for every natural number here; under CPython's 4300-digit default `int()` raises instead for longer numbers.
- TimeSpan.ParseTimeSpan: succeeds on every matching input. Beyond `int()`'s 4300-digit limit (CPython 3.11 and later, default settings) lines 210-211 raise ValueError instead.
- TimeSpan.TimeSpanValid: a matching span with a digit run longer than 4300 characters can be valid here, where `_timeSpanValid` returns False under CPython's default limit.
- TimeSpan.ParseTimeSpanMeaning: "succeeds exactly when the input matches" leaves out `int()`'s digit limit, as TimeSpan.ParseTimeSpan does.
- TimeSpan.TimeSpanValidMeaning: the iff leaves out `int()`'s digit limit, as TimeSpan.TimeSpanValid does.
- TimeSpan.ParseFormatted: the round trip is stated for every natural number, including those beyond `int()`'s digit limit.
- Cooler.CoolerFan.SetTimeSpan: installs spans whose digit runs exceed `int()`'s limit, where line 263 would raise.
- Cooler.CoolerFan.SetTemperatures and Cooler.CoolerFan.SetTimeSpan: like the source, the setters do not check the band. The validity tests run in `loadConfig`, which is left out. Configured() is kept only for input that passes those tests.

## Findings

| source | as written | input that shows it | evidently intended | confidence | as-written member | corrected member |
|---|---|---|---|---|---|---|
| pi-cooler.py:95, pi-cooler.py:162 | `start/end` with `end = cmdLen - 1` | a button with a single command and an initialized power LED, held past the first wait: blink(0, 0) raises ZeroDivisionError in the loop (line 162 skips the call without a LED, and lines 90-91 return before the division when the LED is not initialized) | the single command is the last one and blinks at the slowest period | not executed | PowerLed.BlinkActionAsWritten, Button.SingleCommandWaitRaises | PowerLed.BlinkAction, PowerLed.BlinkPeriod |
| pi-cooler.py:277, pi-cooler.py:227-234 | `time.time() % self.runCycle` before any test | run time span `"0/0"`, which `_timeSpanValid` accepts: every check() raises ZeroDivisionError and the fan is never switched | a zero cycle, like a zero run time, means no forced run | not executed | FanRule.CheckAsWritten, Cooler.ZeroCycleAccepted | FanRule.InForcedWindow, Cooler.CoolerFan.Check |
