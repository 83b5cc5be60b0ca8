/** CoolerFan._parseTemp and CoolerFan._tempValid (pi-cooler.py:186-202): the
    "stop/start" temperature pair, each a decimal number. The regular expression
    TEMPERATURE_REGEX (pi-cooler.py:29),

        ^ \s* ([+-]?[0-9]+(?:\.[0-9]+)?) \s* / \s* ([+-]?[0-9]+(?:\.[0-9]+)?) \s* $

    is written out as a datatype of its matches (TempText, whose Text() is the matched
    string) and a hand-written matcher, MatchTemp, proved sound and complete for it.
    Each step of the matcher consumes a piece at the front of what is left, greedily,
    as the regex engine does. */
module Temperature {
  import opened Wrappers
  import opened Text

  /** The optional sign [+-]? in front of a number. */
  datatype Sign = NoSign | Plus | Minus

  function SignText(g: Sign): string
  {
    match g
    case NoSign => ""
    case Plus => "+"
    case Minus => "-"
  }

  /** The text of the optional fraction group (?:\.[0-9]+)?. */
  function FracText(frac: Option<string>): string
  {
    if frac.Some? then "." + frac.value else ""
  }

  /** One number, "[+-]?[0-9]+(?:\.[0-9]+)?": its sign, its integer digits and its
      optional fraction digits. */
  datatype Number = Number(sign: Sign, whole: string, frac: Option<string>)
  {
    predicate WellFormed()
    {
      whole != [] && AllDigits(whole) && (frac.Some? ==> frac.value != [] && AllDigits(frac.value))
    }

    function Text(): string
    {
      SignText(sign) + (whole + FracText(frac))
    }

    /** The value Python's float() gives the text, taken exactly (as a decimal, not
        rounded to binary floating point). */
    function Value(): real
      requires WellFormed()
    {
      var magnitude := DigitsValue(whole) as real +
        (if frac.Some? then DigitsValue(frac.value) as real / Pow10(|frac.value|) as real else 0.0);
      if sign == Minus then -magnitude else magnitude
    }
  }

  /** A whole match: leading white space, the stop number, white space, the slash,
      white space, the start number and trailing white space. */
  datatype TempText = TempText(lead: string, stop: Number, gap: string, mid: string, start: Number, trail: string)
  {
    predicate WellFormed()
    {
      AllSpace(lead) && stop.WellFormed() && AllSpace(gap) && AllSpace(mid) &&
      start.WellFormed() && AllSpace(trail)
    }

    function Text(): string
    {
      lead + (stop.Text() + (gap + ("/" + (mid + (start.Text() + trail)))))
    }
  }

  /** [+-]? at the front of s: the sign, and what follows it. */
  function MatchSign(s: string): (r: (Sign, string))
    ensures SignText(r.0) + r.1 == s
  {
    if s != [] && s[0] == '+' then (Plus, s[1..])
    else if s != [] && s[0] == '-' then (Minus, s[1..])
    else (NoSign, s)
  }

  /** [+-]?[0-9]+(?:\.[0-9]+)? at the front of s: the number, and what follows it. The
      fraction is taken when a dot and a digit come next, as the greedy regex does. */
  function MatchNumber(s: string): Option<(Number, string)>
  {
    var (sign, afterSign) := MatchSign(s);
    var (whole, afterWhole) := Digits(afterSign);
    if whole == [] then None
    else if |afterWhole| >= 2 && afterWhole[0] == '.' && IsDigit(afterWhole[1]) then
      var (frac, rest) := Digits(afterWhole[1..]);
      Some((Number(sign, whole, Some(frac)), rest))
    else
      Some((Number(sign, whole, None), afterWhole))
  }

  /** What MatchNumber returns is a well-formed number followed by the rest of s. */
  lemma MatchNumberSound(s: string)
    requires MatchNumber(s).Some?
    ensures MatchNumber(s).value.0.WellFormed()
    ensures MatchNumber(s).value.0.Text() + MatchNumber(s).value.1 == s
  {
    var (sign, afterSign) := MatchSign(s);
    var (whole, afterWhole) := Digits(afterSign);
    DigitsSound(afterSign);
    if |afterWhole| >= 2 && afterWhole[0] == '.' && IsDigit(afterWhole[1]) {
      var (frac, rest) := Digits(afterWhole[1..]);
      DigitsSound(afterWhole[1..]);
      assert SignText(sign) + (whole + FracText(Some(frac))) + rest == s by {
        assert FracText(Some(frac)) + rest == afterWhole by {
          assert afterWhole == [afterWhole[0]] + afterWhole[1..];
          Assoc(".", frac, rest);
        }
        Assoc(whole, FracText(Some(frac)), rest);
        Assoc(SignText(sign), whole + FracText(Some(frac)), rest);
      }
    } else {
      assert SignText(sign) + (whole + FracText(None)) + afterWhole == s by {
        assert whole + FracText(None) == whole;
        Assoc(SignText(sign), whole, afterWhole);
      }
    }
  }

  /** A number's text starts with a sign or a digit, never white space, a slash or a
      dot. */
  lemma NumberStart(n: Number)
    requires n.WellFormed()
    ensures n.Text() != [] && !IsSpace(n.Text()[0]) && n.Text()[0] != '/'
  {
    assert IsDigit(n.whole[0]);
    assert n.Text()[0] == (if n.sign == NoSign then n.whole[0] else SignText(n.sign)[0]);
    VisibleNotSpace(n.Text()[0]);
  }

  /** MatchSign finds the sign in front of a digit. */
  lemma MatchSignOf(g: Sign, x: string)
    requires x != [] && IsDigit(x[0])
    ensures MatchSign(SignText(g) + x) == (g, x)
  {
    var s := SignText(g) + x;
    if g == NoSign {
      assert s == x;
    } else {
      assert s == [SignText(g)[0]] + x;
      assert s[1..] == x;
    }
  }

  /** MatchNumber finds every well-formed number that is followed by neither a digit
      nor a dot. */
  lemma MatchNumberOf(n: Number, rest: string)
    requires n.WellFormed() && (rest == [] || (!IsDigit(rest[0]) && rest[0] != '.'))
    ensures MatchNumber(n.Text() + rest) == Some((n, rest))
  {
    var afterWhole := FracText(n.frac) + rest;
    assert n.Text() + rest == SignText(n.sign) + (n.whole + afterWhole) by {
      Assoc(n.whole, FracText(n.frac), rest);
      Assoc(SignText(n.sign), n.whole + FracText(n.frac), rest);
    }
    assert IsDigit(n.whole[0]);
    MatchSignOf(n.sign, n.whole + afterWhole);
    if n.frac.Some? {
      var frac := n.frac.value;
      assert IsDigit(frac[0]);
      assert afterWhole == [afterWhole[0]] + (frac + rest);
      DigitsOf(n.whole, afterWhole);
      DigitsOf(frac, rest);
    } else {
      assert afterWhole == rest;
      DigitsOf(n.whole, afterWhole);
    }
  }

  /** TEMPERATURE_REGEX.findall on a whole string: its match, if there is one. Whatever
      it returns is a well-formed match of exactly s. */
  function MatchTemp(s: string): (r: Option<TempText>)
    ensures r.Some? ==> r.value.WellFormed() && r.value.Text() == s
  {
    var (lead, afterLead) := Spaces(s);
    SpacesSound(s);
    match MatchNumber(afterLead)
    case None => None
    case Some((stop, afterStop)) =>
      MatchNumberSound(afterLead);
      var (gap, atSlash) := Spaces(afterStop);
      SpacesSound(afterStop);
      if atSlash != [] && atSlash[0] == '/' then
        var (mid, atStart) := Spaces(atSlash[1..]);
        SpacesSound(atSlash[1..]);
        match MatchNumber(atStart)
        case None => None
        case Some((start, afterStart)) =>
          MatchNumberSound(atStart);
          var (trail, end) := Spaces(afterStart);
          SpacesSound(afterStart);
          if end == [] then
            assert atSlash == "/" + atSlash[1..] by {
              assert atSlash == [atSlash[0]] + atSlash[1..];
            }
            assert trail + end == trail;
            Some(TempText(lead, stop, gap, mid, start, trail))
          else None
      else None
  }

  /** MatchTemp finds every well-formed match. */
  lemma MatchTempComplete(t: TempText)
    requires t.WellFormed()
    ensures MatchTemp(t.Text()) == Some(t)
  {
    var afterStart := t.trail;
    var atStart := t.start.Text() + afterStart;
    var atSlash := "/" + (t.mid + atStart);
    var afterStop := t.gap + atSlash;
    var afterLead := t.stop.Text() + afterStop;
    assert Spaces(t.Text()) == (t.lead, afterLead) by {
      NumberStart(t.stop);
      SpacesOf(t.lead, afterLead);
    }
    assert MatchNumber(afterLead) == Some((t.stop, afterStop)) by {
      if t.gap != [] {
        assert IsSpace(t.gap[0]);
        VisibleNotSpace(t.gap[0]);
      }
      MatchNumberOf(t.stop, afterStop);
    }
    assert Spaces(afterStop) == (t.gap, atSlash) by {
      SpacesOf(t.gap, atSlash);
    }
    assert Spaces(atSlash[1..]) == (t.mid, atStart) by {
      assert atSlash[1..] == t.mid + atStart;
      NumberStart(t.start);
      SpacesOf(t.mid, atStart);
    }
    assert MatchNumber(atStart) == Some((t.start, afterStart)) by {
      if t.trail != [] {
        assert IsSpace(t.trail[0]);
        VisibleNotSpace(t.trail[0]);
      }
      MatchNumberOf(t.start, afterStart);
    }
    assert Spaces(afterStart) == (t.trail, []) by {
      assert afterStart == t.trail + [];
      SpacesOf(t.trail, []);
    }
  }

  /** The matcher accepts exactly the strings TEMPERATURE_REGEX matches. */
  lemma MatchTempExact(s: string)
    ensures MatchTemp(s).Some? <==> exists t: TempText :: t.WellFormed() && t.Text() == s
  {
    if t: TempText :| t.WellFormed() && t.Text() == s {
      MatchTempComplete(t);
    }
  }

  /** CoolerFan._parseTemp: strip, lower-case, match, then read both numbers. A string
      that does not match raises ValueError. */
  function ParseTemp(temp: string): (r: Result<(real, real), Error>)
    ensures r.Success? <==> MatchTemp(Lower(Strip(temp))).Some?
    ensures r.Failure? ==> r.error == BadTemperature
  {
    match MatchTemp(Lower(Strip(temp)))
    case None => Failure(BadTemperature)
    case Some(t) =>
      Success((t.stop.Value(), t.start.Value()))
  }

  /** CoolerFan._tempValid: the pair parses and stop <= start; false, never an
      exception, otherwise. */
  function TempValid(temp: string): (b: bool)
    ensures b ==> MatchTemp(Lower(Strip(temp))).Some?
    ensures b ==> ParseTemp(temp).Success? && ParseTemp(temp).value.0 <= ParseTemp(temp).value.1
  {
    match ParseTemp(temp)
    case Success((stop, start)) => !(stop > start)
    case Failure(_) => false
  }

  /** What ParseTemp computes, stated against the grammar: it succeeds exactly when the
      stripped, lower-cased string is a match, and then returns the values of its two
      numbers. */
  lemma ParseTempMeaning(temp: string)
    ensures ParseTemp(temp).Success? <==>
      exists t: TempText :: t.WellFormed() && t.Text() == Lower(Strip(temp))
    ensures forall t: TempText :: t.WellFormed() && t.Text() == Lower(Strip(temp)) ==>
      ParseTemp(temp) == Success((t.stop.Value(), t.start.Value()))
  {
    MatchTempExact(Lower(Strip(temp)));
    forall t: TempText | t.WellFormed() && t.Text() == Lower(Strip(temp)) {
      MatchTempComplete(t);
    }
  }

  /** TempValid holds exactly when the string is a match whose stop temperature is at
      most its start temperature. */
  lemma TempValidMeaning(temp: string)
    ensures TempValid(temp) <==>
      exists t: TempText :: t.WellFormed() && t.Text() == Lower(Strip(temp)) &&
        t.stop.Value() <= t.start.Value()
  {
    ParseTempMeaning(temp);
  }

  /** ParseTemp returns the values of a match of a string that needs neither
      stripping nor lower-casing. */
  lemma ParseOfPlain(temp: string, t: TempText)
    requires t.WellFormed() && t.Text() == temp
    requires temp == [] || (!IsSpace(temp[0]) && !IsSpace(temp[|temp| - 1]))
    requires forall k :: 0 <= k < |temp| ==> !('A' <= temp[k] <= 'Z')
    ensures ParseTemp(temp) == Success((t.stop.Value(), t.start.Value()))
  {
    StripNoop(temp);
    LowerNoop(temp);
    MatchTempComplete(t);
  }

  /** The default pair DEFAULT_COOLER_TEMP, "60.0/70.0": stop below 60 degrees, start
      at 70 degrees. */
  lemma DefaultTemperatures()
    ensures ParseTemp("60.0/70.0") == Success((60.0, 70.0))
    ensures TempValid("60.0/70.0")
  {
    var t := TempText("", Number(NoSign, "60", Some("0")), "", "", Number(NoSign, "70", Some("0")), "");
    assert t.Text() == "60.0/70.0";
    assert DigitsValue("60") == 60 by {
      assert "60"[..1] == "6";
    }
    assert DigitsValue("70") == 70 by {
      assert "70"[..1] == "7";
    }
    assert DigitsValue("0") == 0 by {
      assert "0"[..0] == "";
    }
    assert t.stop.Value() == 60.0 && t.start.Value() == 70.0;
    VisibleNotSpace("60.0/70.0"[0]);
    VisibleNotSpace("60.0/70.0"[8]);
    ParseOfPlain("60.0/70.0", t);
  }

  /** A stop temperature above the start temperature is rejected: "70/60". */
  lemma StopAboveStart()
    ensures ParseTemp("70/60") == Success((70.0, 60.0))
    ensures !TempValid("70/60")
  {
    var t := TempText("", Number(NoSign, "70", None), "", "", Number(NoSign, "60", None), "");
    assert t.Text() == "70/60";
    assert DigitsValue("60") == 60 by {
      assert "60"[..1] == "6";
    }
    assert DigitsValue("70") == 70 by {
      assert "70"[..1] == "7";
    }
    assert t.stop.Value() == 70.0 && t.start.Value() == 60.0;
    VisibleNotSpace("70/60"[0]);
    VisibleNotSpace("70/60"[4]);
    ParseOfPlain("70/60", t);
  }

  /** The input is lower-cased before matching; no letter can match, so case changes
      nothing. */
  lemma ParseIgnoresCase(temp: string)
    ensures ParseTemp(Lower(temp)) == ParseTemp(temp)
    ensures TempValid(Lower(temp)) == TempValid(temp)
  {
    StripLowerOfLower(temp);
  }
}
