/** CoolerFan._parseTimeSpan and CoolerFan._timeSpanValid (pi-cooler.py:204-234): the
    "run/cycle" forced-run schedule, each number an integer with an optional unit
    suffix. The regular expression TIME_SPAN_REGEX (pi-cooler.py:28),

        ^ \s* ([0-9]+) \s* (s|m|h|d)? \s* / \s* ([0-9]+) \s* (s|m|h|d)? \s* $

    is written out as a datatype of its matches (SpanText, whose Text() is the matched
    string) and a hand-written matcher, MatchSpan, proved sound and complete for it.
    Each step of the matcher consumes a piece at the front of what is left, greedily,
    as the regex engine does. */
module TimeSpan {
  import opened Wrappers
  import opened Text

  /** The unit suffixes s, m, h and d. */
  datatype Unit = Second | Minute | Hour | Day

  function UnitChar(u: Unit): char
  {
    match u
    case Second => 's'
    case Minute => 'm'
    case Hour => 'h'
    case Day => 'd'
  }

  /** The unit a character names, if any. */
  function UnitOf(c: char): (u: Option<Unit>)
    ensures u.Some? ==> UnitChar(u.value) == c
  {
    if c == 's' then Some(Second)
    else if c == 'm' then Some(Minute)
    else if c == 'h' then Some(Hour)
    else if c == 'd' then Some(Day)
    else None
  }

  /** Every unit letter names its unit. */
  lemma UnitRoundTrip(u: Unit)
    ensures UnitOf(UnitChar(u)) == Some(u)
  {
  }

  /** The text of an optional unit group: one letter, or nothing. */
  function UnitText(u: Option<Unit>): string
  {
    if u.Some? then [UnitChar(u.value)] else []
  }

  /** The factor _parseTimeSpan multiplies a number by: none and s leave it as
      seconds, m is 60, h is 60*60, d is 60*60*24. */
  function Factor(u: Option<Unit>): nat
  {
    match u
    case None => 1
    case Some(Second) => 1
    case Some(Minute) => 60
    case Some(Hour) => 60 * 60
    case Some(Day) => 60 * 60 * 24
  }

  /** One side of the slash, "([0-9]+) \s* (s|m|h|d)? \s*": the digits, the white space
      after them, the optional unit and the white space after the unit. When there is
      no unit, all the white space is counted in `gap`. */
  datatype Amount = Amount(digits: string, gap: string, unit: Option<Unit>, trail: string)
  {
    predicate WellFormed()
    {
      digits != [] && AllDigits(digits) && AllSpace(gap) && AllSpace(trail) &&
      (unit.None? ==> trail == [])
    }

    function Text(): string
    {
      digits + (gap + (UnitText(unit) + trail))
    }

    /** The number of seconds _parseTimeSpan computes for this side. */
    function Seconds(): nat
      requires WellFormed()
    {
      DigitsValue(digits) * Factor(unit)
    }
  }

  /** A whole match: leading white space, the run amount, the slash, the white space
      after the slash, and the cycle amount (whose `trail` reaches the end). */
  datatype SpanText = SpanText(lead: string, run: Amount, mid: string, cycle: Amount)
  {
    predicate WellFormed()
    {
      AllSpace(lead) && run.WellFormed() && AllSpace(mid) && cycle.WellFormed()
    }

    function Text(): string
    {
      lead + (run.Text() + ("/" + (mid + cycle.Text())))
    }
  }

  /** "([0-9]+) \s* (s|m|h|d)? \s*" at the front of s: the amount, and what follows it. */
  function MatchAmount(s: string): Option<(Amount, string)>
  {
    var (digits, afterDigits) := Digits(s);
    if digits == [] then None
    else
      var (gap, atUnit) := Spaces(afterDigits);
      if atUnit != [] && UnitOf(atUnit[0]).Some? then
        var (trail, rest) := Spaces(atUnit[1..]);
        Some((Amount(digits, gap, UnitOf(atUnit[0]), trail), rest))
      else
        Some((Amount(digits, gap, None, []), atUnit))
  }

  /** What MatchAmount returns is a well-formed amount followed by the rest of s. */
  lemma MatchAmountSound(s: string)
    requires MatchAmount(s).Some?
    ensures MatchAmount(s).value.0.WellFormed()
    ensures MatchAmount(s).value.0.Text() + MatchAmount(s).value.1 == s
  {
    var (digits, afterDigits) := Digits(s);
    DigitsSound(s);
    var (gap, atUnit) := Spaces(afterDigits);
    SpacesSound(afterDigits);
    if atUnit != [] && UnitOf(atUnit[0]).Some? {
      var u := UnitOf(atUnit[0]);
      var (trail, rest) := Spaces(atUnit[1..]);
      SpacesSound(atUnit[1..]);
      assert digits + (gap + (UnitText(u) + trail)) + rest == s by {
        assert UnitText(u) + (trail + rest) == atUnit by {
          assert atUnit == [atUnit[0]] + atUnit[1..];
        }
        Assoc(UnitText(u), trail, rest);
        Assoc(gap, UnitText(u) + trail, rest);
        Assoc(digits, gap + (UnitText(u) + trail), rest);
      }
    } else {
      assert digits + (gap + (UnitText(None) + [])) + atUnit == s by {
        assert gap + (UnitText(None) + []) == gap;
        Assoc(digits, gap, atUnit);
      }
    }
  }

  /** MatchAmount finds every well-formed amount that is followed by a slash or by
      nothing. */
  lemma MatchAmountOf(a: Amount, rest: string)
    requires a.WellFormed() && (rest == [] || rest[0] == '/')
    ensures MatchAmount(a.Text() + rest) == Some((a, rest))
  {
    var atUnit := UnitText(a.unit) + (a.trail + rest);
    var afterDigits := a.gap + atUnit;
    assert a.Text() + rest == a.digits + afterDigits by {
      Assoc(UnitText(a.unit), a.trail, rest);
      Assoc(a.gap, UnitText(a.unit) + a.trail, rest);
      Assoc(a.digits, a.gap + (UnitText(a.unit) + a.trail), rest);
    }
    assert Digits(a.digits + afterDigits) == (a.digits, afterDigits) by {
      if a.gap != [] {
        assert IsSpace(a.gap[0]);
        VisibleNotSpace(a.gap[0]);
      }
      DigitsOf(a.digits, afterDigits);
    }
    assert Spaces(afterDigits) == (a.gap, atUnit) by {
      if a.unit.Some? {
        assert atUnit[0] == UnitChar(a.unit.value);
      }
      SpacesOf(a.gap, atUnit);
    }
    if a.unit.Some? {
      assert UnitOf(atUnit[0]) == a.unit by {
        UnitRoundTrip(a.unit.value);
      }
      assert Spaces(atUnit[1..]) == (a.trail, rest) by {
        assert atUnit[1..] == a.trail + rest;
        if rest != [] {
          VisibleNotSpace(rest[0]);
        }
        SpacesOf(a.trail, rest);
      }
    } else {
      assert atUnit == rest;
    }
  }

  /** TIME_SPAN_REGEX.findall on a whole string: its match, if there is one. Whatever
      it returns is a well-formed match of exactly s. */
  function MatchSpan(s: string): (r: Option<SpanText>)
    ensures r.Some? ==> r.value.WellFormed() && r.value.Text() == s
  {
    var (lead, afterLead) := Spaces(s);
    SpacesSound(s);
    match MatchAmount(afterLead)
    case None => None
    case Some((run, atSlash)) =>
      MatchAmountSound(afterLead);
      if atSlash != [] && atSlash[0] == '/' then
        var (mid, atCycle) := Spaces(atSlash[1..]);
        SpacesSound(atSlash[1..]);
        match MatchAmount(atCycle)
        case None => None
        case Some((cycle, end)) =>
          MatchAmountSound(atCycle);
          if end == [] then
            assert atSlash == "/" + atSlash[1..] by {
              assert atSlash == [atSlash[0]] + atSlash[1..];
            }
            assert cycle.Text() + end == cycle.Text();
            Some(SpanText(lead, run, mid, cycle))
          else None
      else None
  }

  /** The text of an amount starts with a digit, never white space. */
  lemma AmountStart(a: Amount)
    requires a.WellFormed()
    ensures a.Text() != [] && !IsSpace(a.Text()[0])
  {
    assert a.Text()[0] == a.digits[0] && IsDigit(a.digits[0]);
    VisibleNotSpace(a.digits[0]);
  }

  /** MatchSpan finds every well-formed match. */
  lemma MatchSpanComplete(t: SpanText)
    requires t.WellFormed()
    ensures MatchSpan(t.Text()) == Some(t)
  {
    var atCycle := t.cycle.Text();
    var atSlash := "/" + (t.mid + atCycle);
    var afterLead := t.run.Text() + atSlash;
    assert Spaces(t.Text()) == (t.lead, afterLead) by {
      AmountStart(t.run);
      SpacesOf(t.lead, afterLead);
    }
    assert MatchAmount(afterLead) == Some((t.run, atSlash)) by {
      MatchAmountOf(t.run, atSlash);
    }
    assert Spaces(atSlash[1..]) == (t.mid, atCycle) by {
      assert atSlash[1..] == t.mid + atCycle;
      AmountStart(t.cycle);
      SpacesOf(t.mid, atCycle);
    }
    assert MatchAmount(atCycle) == Some((t.cycle, [])) by {
      assert atCycle == t.cycle.Text() + [];
      MatchAmountOf(t.cycle, []);
    }
  }

  /** The matcher accepts exactly the strings TIME_SPAN_REGEX matches. */
  lemma MatchSpanExact(s: string)
    ensures MatchSpan(s).Some? <==> exists t: SpanText :: t.WellFormed() && t.Text() == s
  {
    if t: SpanText :| t.WellFormed() && t.Text() == s {
      MatchSpanComplete(t);
    }
  }

  /** CoolerFan._parseTimeSpan: strip, lower-case, match, then scale each number by
      its own unit. A string that does not match raises ValueError. */
  function ParseTimeSpan(timeSpan: string): (r: Result<(nat, nat), Error>)
    ensures r.Success? <==> MatchSpan(Lower(Strip(timeSpan))).Some?
    ensures r.Failure? ==> r.error == BadTimeSpan
  {
    match MatchSpan(Lower(Strip(timeSpan)))
    case None => Failure(BadTimeSpan)
    case Some(t) =>
      Success((t.run.Seconds(), t.cycle.Seconds()))
  }

  /** CoolerFan._timeSpanValid: the schedule parses and run <= cycle; false, never an
      exception, otherwise. */
  function TimeSpanValid(timeSpan: string): (b: bool)
    ensures b ==> MatchSpan(Lower(Strip(timeSpan))).Some?
    ensures b ==> ParseTimeSpan(timeSpan).Success? && ParseTimeSpan(timeSpan).value.0 <= ParseTimeSpan(timeSpan).value.1
  {
    match ParseTimeSpan(timeSpan)
    case Success((run, cycle)) => run <= cycle
    case Failure(_) => false
  }

  /** What ParseTimeSpan computes, stated against the grammar: it succeeds exactly when
      the stripped, lower-cased string is a match, and then returns each side's digits
      times that side's unit factor. */
  lemma ParseTimeSpanMeaning(timeSpan: string)
    ensures ParseTimeSpan(timeSpan).Success? <==>
      exists t: SpanText :: t.WellFormed() && t.Text() == Lower(Strip(timeSpan))
    ensures forall t: SpanText :: t.WellFormed() && t.Text() == Lower(Strip(timeSpan)) ==>
      ParseTimeSpan(timeSpan) == Success((DigitsValue(t.run.digits) * Factor(t.run.unit),
                                          DigitsValue(t.cycle.digits) * Factor(t.cycle.unit)))
  {
    MatchSpanExact(Lower(Strip(timeSpan)));
    forall t: SpanText | t.WellFormed() && t.Text() == Lower(Strip(timeSpan)) {
      MatchSpanComplete(t);
    }
  }

  /** TimeSpanValid holds exactly when the string is a match whose run is at most its
      cycle, in seconds. */
  lemma TimeSpanValidMeaning(timeSpan: string)
    ensures TimeSpanValid(timeSpan) <==>
      exists t: SpanText :: t.WellFormed() && t.Text() == Lower(Strip(timeSpan)) &&
        t.run.Seconds() <= t.cycle.Seconds()
  {
    ParseTimeSpanMeaning(timeSpan);
  }

  /** ParseTimeSpan returns the seconds of any match of the stripped, lower-cased
      string. */
  lemma ParseOfMatch(timeSpan: string, t: SpanText)
    requires t.WellFormed() && t.Text() == Lower(Strip(timeSpan))
    ensures ParseTimeSpan(timeSpan) == Success((t.run.Seconds(), t.cycle.Seconds()))
  {
    MatchSpanComplete(t);
  }

  /** A string without white space at either end and without upper-case letters is
      what ParseTimeSpan matches. */
  lemma ParseOfPlain(timeSpan: string, t: SpanText)
    requires t.WellFormed() && t.Text() == timeSpan
    requires timeSpan == [] || (!IsSpace(timeSpan[0]) && !IsSpace(timeSpan[|timeSpan| - 1]))
    requires forall k :: 0 <= k < |timeSpan| ==> !('A' <= timeSpan[k] <= 'Z')
    ensures ParseTimeSpan(timeSpan) == Success((t.run.Seconds(), t.cycle.Seconds()))
  {
    StripNoop(timeSpan);
    LowerNoop(timeSpan);
    ParseOfMatch(timeSpan, t);
  }

  /** The schedule "<run><unit>/<cycle><unit>" as a match. */
  function Formatted(run: nat, runUnit: Option<Unit>, cycle: nat, cycleUnit: Option<Unit>): SpanText
  {
    SpanText([], Amount(NatToDigits(run), [], runUnit, []), [], Amount(NatToDigits(cycle), [], cycleUnit, []))
  }

  lemma FormattedWellFormed(run: nat, runUnit: Option<Unit>, cycle: nat, cycleUnit: Option<Unit>)
    ensures Formatted(run, runUnit, cycle, cycleUnit).WellFormed()
    ensures Formatted(run, runUnit, cycle, cycleUnit).run.Seconds() == run * Factor(runUnit)
    ensures Formatted(run, runUnit, cycle, cycleUnit).cycle.Seconds() == cycle * Factor(cycleUnit)
  {
    DigitsRoundTrip(run);
    DigitsRoundTrip(cycle);
  }

  /** A string without upper-case ASCII letters. */
  predicate NoUpper(x: string)
  {
    forall k :: 0 <= k < |x| ==> !('A' <= x[k] <= 'Z')
  }

  lemma NoUpperConcat(x: string, y: string)
    requires NoUpper(x) && NoUpper(y)
    ensures NoUpper(x + y)
  {
    forall k | 0 <= k < |x + y|
      ensures !('A' <= (x + y)[k] <= 'Z')
    {
      if k < |x| {
        assert (x + y)[k] == x[k];
      } else {
        assert (x + y)[k] == y[k - |x|];
      }
    }
  }

  /** The text of an amount with no white space: its digits and its unit letter, so
      it starts with a digit, ends with a digit or a unit letter, and has no upper-case
      letter. */
  lemma CompactAmount(a: Amount)
    requires a.gap == [] && a.trail == [] && a.digits != [] && AllDigits(a.digits)
    ensures Plain(a.Text())
  {
    var x := a.Text();
    assert x == a.digits + UnitText(a.unit) by {
      assert UnitText(a.unit) + [] == UnitText(a.unit);
    }
    assert x[0] == a.digits[0];
    VisibleNotSpace(x[0]);
    if a.unit.Some? {
      LastOfConcat(a.digits, UnitText(a.unit));
    } else {
      assert x == a.digits;
    }
    VisibleNotSpace(x[|x| - 1]);
    NoUpperConcat(a.digits, UnitText(a.unit));
  }

  lemma LastOfConcat(x: string, y: string)
    requires y != []
    ensures (x + y)[|x + y| - 1] == y[|y| - 1]
  {
  }

  /** A non-empty string with no white space at either end and no upper-case letter:
      what strip() and lower() leave unchanged. */
  predicate Plain(s: string)
  {
    s != [] && !IsSpace(s[0]) && !IsSpace(s[|s| - 1]) && NoUpper(s)
  }

  /** Joining two pieces around a slash keeps their outer ends and adds no upper-case
      letter. */
  lemma JoinPlain(x: string, y: string)
    requires Plain(x) && Plain(y)
    ensures Plain(x + ("/" + y))
  {
    var tail := "/" + y;
    assert (x + tail)[0] == x[0];
    LastOfConcat("/", y);
    LastOfConcat(x, tail);
    NoUpperConcat("/", y);
    NoUpperConcat(x, tail);
  }

  /** A match written without any white space has none at either end, and no
      upper-case letter. */
  lemma CompactSpan(t: SpanText)
    requires t.lead == [] && t.mid == []
    requires t.run.gap == [] && t.run.trail == [] && t.run.digits != [] && AllDigits(t.run.digits)
    requires t.cycle.gap == [] && t.cycle.trail == [] && t.cycle.digits != [] && AllDigits(t.cycle.digits)
    ensures Plain(t.Text())
  {
    CompactText(t);
    CompactAmount(t.run);
    CompactAmount(t.cycle);
    JoinPlain(t.run.Text(), t.cycle.Text());
  }

  lemma CompactText(t: SpanText)
    requires t.lead == [] && t.mid == []
    ensures t.Text() == t.run.Text() + ("/" + t.cycle.Text())
  {
    var x, y := t.run.Text(), t.cycle.Text();
    assert t.mid + y == y;
    assert t.lead + (x + ("/" + y)) == x + ("/" + y);
  }

  /** The formatted text has no white space at either end and no upper-case letter. */
  lemma FormattedPlain(run: nat, runUnit: Option<Unit>, cycle: nat, cycleUnit: Option<Unit>)
    ensures var s := Formatted(run, runUnit, cycle, cycleUnit).Text();
      s != [] && !IsSpace(s[0]) && !IsSpace(s[|s| - 1]) &&
      forall k :: 0 <= k < |s| ==> !('A' <= s[k] <= 'Z')
  {
    CompactSpan(Formatted(run, runUnit, cycle, cycleUnit));
  }

  /** Formatting a schedule as "<run><unit>/<cycle><unit>" and parsing it back gives
      each number times its unit factor. */
  lemma ParseFormatted(run: nat, runUnit: Option<Unit>, cycle: nat, cycleUnit: Option<Unit>)
    ensures ParseTimeSpan(Formatted(run, runUnit, cycle, cycleUnit).Text())
         == Success((run * Factor(runUnit), cycle * Factor(cycleUnit)))
  {
    var t := Formatted(run, runUnit, cycle, cycleUnit);
    FormattedWellFormed(run, runUnit, cycle, cycleUnit);
    FormattedPlain(run, runUnit, cycle, cycleUnit);
    ParseOfPlain(t.Text(), t);
  }

  /** The default schedule DEFAULT_COOLER_TIMESPAN, "5m/24h", is five minutes every
      twenty-four hours. */
  lemma DefaultTimeSpan()
    ensures ParseTimeSpan("5m/24h") == Success((300, 86400))
    ensures TimeSpanValid("5m/24h")
  {
    var t := SpanText("", Amount("5", "", Some(Minute), ""), "", Amount("24", "", Some(Hour), ""));
    assert t.WellFormed() && t.Text() == "5m/24h";
    assert t.run.Seconds() == 300 by {
      assert "5"[..0] == "";
    }
    assert t.cycle.Seconds() == 86400 by {
      assert "24"[..1] == "2" && "2"[..0] == "";
    }
    ParseOfPlain("5m/24h", t);
  }

  /** "25h/24h" parses: 25 hours of run in a 24-hour cycle. */
  lemma ParseRunLongerThanCycle()
    ensures ParseTimeSpan("25h/24h") == Success((90000, 86400))
  {
    var t := SpanText("", Amount("25", "", Some(Hour), ""), "", Amount("24", "", Some(Hour), ""));
    assert t.WellFormed() && t.Text() == "25h/24h";
    assert t.run.Seconds() == 90000 by {
      assert "25"[..1] == "2" && "2"[..0] == "";
    }
    assert t.cycle.Seconds() == 86400 by {
      assert "24"[..1] == "2" && "2"[..0] == "";
    }
    ParseOfPlain("25h/24h", t);
  }

  /** A run longer than its cycle is rejected: "25h/24h" parses but is not valid. */
  lemma RunLongerThanCycle()
    ensures !TimeSpanValid("25h/24h")
  {
    ParseRunLongerThanCycle();
    LongerRunInvalid("25h/24h");
  }

  /** A string that parses to a run longer than its cycle fails the validity test. */
  lemma LongerRunInvalid(timeSpan: string)
    requires ParseTimeSpan(timeSpan).Success?
    requires ParseTimeSpan(timeSpan).value.1 < ParseTimeSpan(timeSpan).value.0
    ensures !TimeSpanValid(timeSpan)
  {
  }

  /** "0/0", no run in a zero cycle, passes the validity test. */
  lemma ZeroTimeSpan()
    ensures ParseTimeSpan("0/0") == Success((0, 0))
    ensures TimeSpanValid("0/0")
  {
    var t := SpanText("", Amount("0", "", None, ""), "", Amount("0", "", None, ""));
    assert t.Text() == "0/0";
    assert t.run.Seconds() == 0 && t.cycle.Seconds() == 0 by {
      assert "0"[..0] == "";
    }
    ParseOfPlain("0/0", t);
  }

  /** The input is lower-cased before matching, so units may be written in either
      case. */
  lemma ParseIgnoresCase(timeSpan: string)
    ensures ParseTimeSpan(Lower(timeSpan)) == ParseTimeSpan(timeSpan)
    ensures TimeSpanValid(Lower(timeSpan)) == TimeSpanValid(timeSpan)
  {
    StripLowerOfLower(timeSpan);
  }

  /** "5M/24H" means the same as the default "5m/24h". */
  lemma UpperCaseUnits()
    ensures ParseTimeSpan("5M/24H") == Success((300, 86400))
  {
    var upper, lower := "5M/24H", "5m/24h";
    assert Lower(upper) == lower by {
      forall k | 0 <= k < |upper|
        ensures Lower(upper)[k] == lower[k]
      {
      }
    }
    ParseIgnoresCase(upper);
    DefaultTimeSpan();
  }
}
