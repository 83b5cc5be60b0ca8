/** The character classes and string helpers that pi-cooler.py takes from Python:
    str.strip(), str.lower(), the regex classes \s and [0-9], and int() on digits.
    Spaces and Digits consume a run at the front of a string, as \s* and [0-9]* do
    when a regex engine reaches that point; Strip scans positions from both ends. */
module Text {

  /** Python's str.isspace(): the characters str.strip() removes and \s matches. */
  const SPACES: set<char> := {
    ' ', '\t', '\n', '\U{0B}', '\U{0C}', '\r', '\U{1C}', '\U{1D}', '\U{1E}', '\U{1F}',
    '\U{85}', '\U{A0}', '\U{1680}', '\U{2000}', '\U{2001}', '\U{2002}', '\U{2003}', '\U{2004}',
    '\U{2005}', '\U{2006}', '\U{2007}', '\U{2008}', '\U{2009}', '\U{200A}', '\U{2028}',
    '\U{2029}', '\U{202F}', '\U{205F}', '\U{3000}'
  }

  predicate IsSpace(c: char)
  {
    c in SPACES
  }

  /** No visible ASCII character is white space. */
  lemma VisibleNotSpace(c: char)
    ensures '!' <= c <= '~' ==> !IsSpace(c)
  {
  }

  /** The regex class [0-9]. */
  predicate IsDigit(c: char)
  {
    '0' <= c <= '9'
  }

  predicate AllSpace(s: string)
  {
    forall k :: 0 <= k < |s| ==> IsSpace(s[k])
  }

  predicate AllDigits(s: string)
  {
    forall k :: 0 <= k < |s| ==> IsDigit(s[k])
  }

  /** Concatenation is associative. */
  lemma Assoc(a: string, b: string, c: string)
    ensures (a + b) + c == a + (b + c)
  {
  }

  /** \s* at the front of s: the longest white-space run there, and what follows it.
      The regular-expression matchers use this form; Strip uses SkipSpaces. */
  function Spaces(s: string): (string, string)
    decreases |s|
  {
    if s != [] && IsSpace(s[0]) then
      var (w, rest) := Spaces(s[1..]);
      ([s[0]] + w, rest)
    else ([], s)
  }

  /** Spaces splits s into a white-space run and a rest that does not start with
      white space. */
  lemma {:induction false} SpacesSound(s: string)
    ensures Spaces(s).0 + Spaces(s).1 == s && AllSpace(Spaces(s).0)
    ensures Spaces(s).1 == [] || !IsSpace(Spaces(s).1[0])
    decreases |s|
  {
    if s != [] && IsSpace(s[0]) {
      SpacesSound(s[1..]);
      assert s == [s[0]] + s[1..];
    }
  }

  /** Spaces finds every such split. */
  lemma {:induction false} SpacesOf(w: string, rest: string)
    requires AllSpace(w) && (rest == [] || !IsSpace(rest[0]))
    ensures Spaces(w + rest) == (w, rest)
    decreases |w|
  {
    if w == [] {
      assert w + rest == rest;
    } else {
      assert IsSpace(w[0]);
      assert (w + rest)[1..] == w[1..] + rest;
      SpacesOf(w[1..], rest);
      assert [w[0]] + w[1..] == w;
    }
  }

  /** [0-9]* at the front of s: the longest digit run there, and what follows it. */
  function Digits(s: string): (string, string)
    decreases |s|
  {
    if s != [] && IsDigit(s[0]) then
      var (ds, rest) := Digits(s[1..]);
      ([s[0]] + ds, rest)
    else ([], s)
  }

  /** Digits splits s into a digit run and a rest that does not start with a digit. */
  lemma {:induction false} DigitsSound(s: string)
    ensures Digits(s).0 + Digits(s).1 == s && AllDigits(Digits(s).0)
    ensures Digits(s).1 == [] || !IsDigit(Digits(s).1[0])
    decreases |s|
  {
    if s != [] && IsDigit(s[0]) {
      DigitsSound(s[1..]);
      assert s == [s[0]] + s[1..];
    }
  }

  /** Digits finds every such split. */
  lemma {:induction false} DigitsOf(ds: string, rest: string)
    requires AllDigits(ds) && (rest == [] || !IsDigit(rest[0]))
    ensures Digits(ds + rest) == (ds, rest)
    decreases |ds|
  {
    if ds == [] {
      assert ds + rest == rest;
    } else {
      assert IsDigit(ds[0]);
      assert (ds + rest)[1..] == ds[1..] + rest;
      DigitsOf(ds[1..], rest);
      assert [ds[0]] + ds[1..] == ds;
    }
  }

  /** Where \s* starting at position i of s stops: the end of the white-space run.
      This position-based form serves Strip; the matchers use Spaces, which splits off
      the run instead. */
  function SkipSpaces(s: string, i: nat): (j: nat)
    requires i <= |s|
    ensures i <= j <= |s|
    ensures j < |s| ==> !IsSpace(s[j])
    decreases |s| - i
  {
    if i < |s| && IsSpace(s[i]) then SkipSpaces(s, i + 1) else i
  }

  /** Everything SkipSpaces skips satisfies IsSpace. */
  lemma {:induction false} SkipSpacesRun(s: string, i: nat)
    requires i <= |s|
    ensures forall k :: i <= k < SkipSpaces(s, i) ==> IsSpace(s[k])
    decreases |s| - i
  {
    if i < |s| && IsSpace(s[i]) {
      SkipSpacesRun(s, i + 1);
    }
  }

  /** Where a white-space run ending at position j of s (and not reaching below lo)
      starts. */
  function SkipSpacesBack(s: string, lo: nat, j: nat): (i: nat)
    requires lo <= j <= |s|
    ensures lo <= i <= j
    ensures lo < i ==> !IsSpace(s[i - 1])
    decreases j
  {
    if lo < j && IsSpace(s[j - 1]) then SkipSpacesBack(s, lo, j - 1) else j
  }

  /** Everything SkipSpacesBack skips is white space. */
  lemma {:induction false} SkipSpacesBackRun(s: string, lo: nat, j: nat)
    requires lo <= j <= |s|
    ensures forall k :: SkipSpacesBack(s, lo, j) <= k < j ==> IsSpace(s[k])
    decreases j
  {
    if lo < j && IsSpace(s[j - 1]) {
      SkipSpacesBackRun(s, lo, j - 1);
    }
  }

  /** A white-space run from i to j that is not followed by white space is exactly what
      SkipSpaces(s, i) skips. */
  lemma SkipSpacesTo(s: string, i: nat, j: nat)
    requires i <= j <= |s|
    requires forall k :: i <= k < j ==> IsSpace(s[k])
    requires j < |s| ==> !IsSpace(s[j])
    ensures SkipSpaces(s, i) == j
    decreases j - i
  {
    if i < j {
      SkipSpacesTo(s, i + 1, j);
    }
  }

  /** A white-space run from i to j that is not preceded by white space (above lo) is
      exactly what SkipSpacesBack(s, lo, j) skips. */
  lemma {:induction false} SkipSpacesBackTo(s: string, lo: nat, i: nat, j: nat)
    requires lo <= i <= j <= |s|
    requires forall k :: i <= k < j ==> IsSpace(s[k])
    requires lo < i ==> !IsSpace(s[i - 1])
    ensures SkipSpacesBack(s, lo, j) == i
    decreases j - i
  {
    if i < j {
      SkipSpacesBackTo(s, lo, i, j - 1);
    }
  }

  /** Python's str.strip() with no argument: s without its leading and trailing white
      space. */
  function Strip(s: string): (r: string)
    ensures r == [] || (!IsSpace(r[0]) && !IsSpace(r[|r| - 1]))
    ensures exists i ::
      0 <= i <= |s| - |r| && r == s[i..i + |r|] && AllSpace(s[..i]) && AllSpace(s[i + |r|..])
  {
    var i := SkipSpaces(s, 0);
    var j := SkipSpacesBack(s, i, |s|);
    SkipSpacesRun(s, 0);
    SkipSpacesBackRun(s, i, |s|);
    assert j > i ==> !IsSpace(s[j - 1]);
    assert AllSpace(s[..i]) && AllSpace(s[j..]);
    s[i..j]
  }

  /** Strip leaves a string alone when it neither starts nor ends with white space. */
  lemma StripNoop(s: string)
    requires s == [] || (!IsSpace(s[0]) && !IsSpace(s[|s| - 1]))
    ensures Strip(s) == s
  {
    var i := SkipSpaces(s, 0);
    assert i == 0;
    var j := SkipSpacesBack(s, i, |s|);
    assert j == |s|;
  }

  /** Strip drops exactly the white space around a string that starts and ends
      without it. */
  lemma StripAround(before: string, s: string, after: string)
    requires AllSpace(before) && AllSpace(after)
    requires s == [] || (!IsSpace(s[0]) && !IsSpace(s[|s| - 1]))
    ensures Strip(before + s + after) == s
  {
    var w := before + s + after;
    var i := SkipSpaces(w, 0);
    var j := SkipSpacesBack(w, i, |w|);
    if s == [] {
      assert forall k :: 0 <= k < |w| ==> IsSpace(w[k]);
      SkipSpacesTo(w, 0, |w|);
    } else {
      assert w[|before|] == s[0];
      assert forall k :: 0 <= k < |before| ==> w[k] == before[k];
      SkipSpacesTo(w, 0, |before|);
      assert w[|before| + |s| - 1] == s[|s| - 1];
      assert forall k :: |before| + |s| <= k < |w| ==> w[k] == after[k - |before| - |s|];
      SkipSpacesBackTo(w, |before|, |before| + |s|, |w|);
      assert w[i..j] == s;
    }
  }

  /** Python's str.lower() on one character; only ASCII letters are mapped. */
  function LowerChar(c: char): char
  {
    if 'A' <= c <= 'Z' then (c as int - 'A' as int + 'a' as int) as char else c
  }

  /** Python's str.lower(), character by character. */
  function Lower(s: string): (r: string)
    ensures |r| == |s|
    ensures forall k :: 0 <= k < |s| ==> r[k] == LowerChar(s[k])
  {
    seq(|s|, k requires 0 <= k < |s| => LowerChar(s[k]))
  }

  /** Lower leaves a string without upper-case ASCII letters alone. */
  lemma LowerNoop(s: string)
    requires forall k :: 0 <= k < |s| ==> !('A' <= s[k] <= 'Z')
    ensures Lower(s) == s
  {
  }

  /** Lower-casing neither makes nor removes white space. */
  lemma LowerKeepsSpace(c: char)
    ensures IsSpace(LowerChar(c)) == IsSpace(c)
  {
    VisibleNotSpace(c);
    VisibleNotSpace(LowerChar(c));
  }

  /** Lower-casing twice is lower-casing once. */
  lemma LowerIdempotent(s: string)
    ensures Lower(Lower(s)) == Lower(s)
  {
  }

  /** \s* stops at the same place in s and in Lower(s). */
  lemma {:induction false} SkipSpacesLower(s: string, i: nat)
    requires i <= |s|
    ensures SkipSpaces(Lower(s), i) == SkipSpaces(s, i)
    decreases |s| - i
  {
    if i < |s| {
      LowerKeepsSpace(s[i]);
      if IsSpace(s[i]) {
        SkipSpacesLower(s, i + 1);
      }
    }
  }

  /** The backward scan only looks at which characters are white space. */
  lemma {:induction false} SkipSpacesBackSame(s: string, t: string, lo: nat, j: nat)
    requires lo <= j <= |s| == |t|
    requires forall k :: lo <= k < j ==> IsSpace(t[k]) == IsSpace(s[k])
    ensures SkipSpacesBack(t, lo, j) == SkipSpacesBack(s, lo, j)
    decreases j
  {
    if lo < j && IsSpace(s[j - 1]) {
      SkipSpacesBackSame(s, t, lo, j - 1);
    }
  }

  /** The backward scan stops at the same place in s and in Lower(s). */
  lemma SkipSpacesBackLower(s: string, lo: nat, j: nat)
    requires lo <= j <= |s|
    ensures SkipSpacesBack(Lower(s), lo, j) == SkipSpacesBack(s, lo, j)
  {
    forall k | lo <= k < j
      ensures IsSpace(Lower(s)[k]) == IsSpace(s[k])
    {
      LowerKeepsSpace(s[k]);
    }
    SkipSpacesBackSame(s, Lower(s), lo, j);
  }

  /** Lower-casing commutes with slicing. */
  lemma LowerSlice(s: string, i: nat, j: nat)
    requires i <= j <= |s|
    ensures Lower(s)[i..j] == Lower(s[i..j])
  {
  }

  /** Stripping and lower-casing commute. */
  lemma StripLower(s: string)
    ensures Strip(Lower(s)) == Lower(Strip(s))
  {
    var i := SkipSpaces(s, 0);
    var j := SkipSpacesBack(s, i, |s|);
    SkipSpacesLower(s, 0);
    SkipSpacesBackLower(s, i, |s|);
    assert Strip(s) == s[i..j];
    assert Strip(Lower(s)) == Lower(s)[i..j];
    LowerSlice(s, i, j);
  }

  /** What the parsers see, s.strip().lower(), does not change when s is lower-cased
      first. */
  lemma StripLowerOfLower(s: string)
    ensures Lower(Strip(Lower(s))) == Lower(Strip(s))
  {
    StripLower(s);
    LowerIdempotent(Strip(s));
  }

  /** 10 to the power n. */
  function Pow10(n: nat): (p: nat)
    ensures p >= 1
  {
    if n == 0 then 1 else 10 * Pow10(n - 1)
  }

  /** int() of a string of decimal digits: below 10 to the number of digits. */
  function DigitsValue(ds: string): (v: nat)
    requires AllDigits(ds)
    ensures v < Pow10(|ds|)
  {
    if ds == [] then 0
    else
      assert IsDigit(ds[|ds| - 1]);
      var high := DigitsValue(ds[..|ds| - 1]);
      assert high + 1 <= Pow10(|ds| - 1);
      10 * high + (ds[|ds| - 1] as int - '0' as int)
  }

  function DigitChar(d: nat): char
    requires d < 10
  {
    ('0' as int + d) as char
  }

  /** Python's str() of a non-negative integer. */
  function NatToDigits(n: nat): (ds: string)
    ensures ds != [] && AllDigits(ds)
  {
    if n < 10 then [DigitChar(n)] else NatToDigits(n / 10) + [DigitChar(n % 10)]
  }

  /** int(str(n)) == n. */
  lemma {:induction false} DigitsRoundTrip(n: nat)
    ensures DigitsValue(NatToDigits(n)) == n
  {
    var ds := NatToDigits(n);
    if n >= 10 {
      DigitsRoundTrip(n / 10);
      assert ds[..|ds| - 1] == NatToDigits(n / 10);
    }
  }
}
