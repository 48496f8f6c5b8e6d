/** `parseTime` of the browser runtime (both copies): a duration token such as
    `"300ms"`, `"2s"` or `"1.5s"` becomes a number of milliseconds; anything
    that does not match `^(\d+(?:\.\d+)?)(ms|s)?$` becomes 0.

    `parseFloat` is modelled exactly on `real`: the mantissa `i.f` is the value
    of the integer digits plus the fraction digits over a power of ten. */
module TimeSpec {
  import opened Wrappers
  import opened Text

  /** `\d+` */
  predicate IsDigits(s: string) {
    s != [] && AllDigits(s)
  }

  /** `\d+(?:\.\d+)?` */
  predicate IsDecimal(s: string) {
    if '.' in s then
      var k := IndexOf(s, '.');
      IsDigits(s[..k]) && IsDigits(s[k + 1..])
    else
      IsDigits(s)
  }

  /** `(ms|s)?` */
  predicate IsUnit(u: string) {
    u == "" || u == "ms" || u == "s"
  }

  /** The anchored pattern matches `t` with the number ending at position `k`. */
  predicate MatchesAt(t: string, k: int) {
    0 <= k <= |t| && IsDecimal(t[..k]) && IsUnit(t[k..])
  }

  datatype TimeMatch = TimeMatch(number: string, unit: string)

  /** `timeStr.match(/^(\d+(?:\.\d+)?)(ms|s)?$/)`: the number and unit groups,
      or no match at all. */
  function MatchTime(t: string): (m: Option<TimeMatch>)
    ensures m.Some? ==> MatchesAt(t, |m.value.number|) && t[..|m.value.number|] == m.value.number
                        && t[|m.value.number|..] == m.value.unit
    ensures m.None? ==> forall k :: !MatchesAt(t, k)
  {
    if |t| >= 2 && t[|t| - 2..] == "ms" && IsDecimal(t[..|t| - 2]) then Some(TimeMatch(t[..|t| - 2], "ms"))
    else if |t| >= 1 && t[|t| - 1..] == "s" && IsDecimal(t[..|t| - 1]) then Some(TimeMatch(t[..|t| - 1], "s"))
    else if IsDecimal(t) then
      assert t[..|t|] == t;
      Some(TimeMatch(t, ""))
    else
      assert forall k :: !MatchesAt(t, k) by {
        forall k | MatchesAt(t, k) ensures false {
          MatchShape(t, k);
        }
      }
      None
  }

  /** Where a match can split a token: before a trailing `ms`, before a
      trailing `s`, or at the very end. */
  lemma MatchShape(t: string, k: int)
    requires MatchesAt(t, k)
    ensures || (|t| >= 2 && k == |t| - 2 && t[|t| - 2..] == "ms" && IsDecimal(t[..|t| - 2]))
            || (|t| >= 1 && k == |t| - 1 && t[|t| - 1..] == "s" && IsDecimal(t[..|t| - 1]))
            || (k == |t| && IsDecimal(t))
  {
    assert |t[k..]| <= 2;
    if k == |t| {
      assert t[..|t|] == t;
    }
  }

  function Pow10(n: nat): (p: nat)
    ensures p >= 1
  {
    if n == 0 then 1 else 10 * Pow10(n - 1)
  }

  /** `parseFloat` of a string matching `\d+(?:\.\d+)?`. */
  function DecimalValue(s: string): (v: real)
    requires IsDecimal(s)
    ensures v >= 0.0
  {
    if '.' in s then
      var k := IndexOf(s, '.');
      var frac := s[k + 1..];
      (DigitsValue(s[..k]) as real) + (DigitsValue(frac) as real) / (Pow10(|frac|) as real)
    else
      DigitsValue(s) as real
  }

  /** The factor a unit group applies: seconds are multiplied by 1000, an
      absent unit means milliseconds. */
  function UnitFactor(unit: string): real {
    if unit == "s" then 1000.0 else 1.0
  }

  /** `parseTime(timeStr)`: `undefined` and `""` give 0, a non-matching token
      gives 0, and a matching one gives its number scaled by its unit. */
  function ParseTime(v: Option<string>): (ms: real)
    ensures ms >= 0.0
    ensures v.None? || v.value == [] ==> ms == 0.0
    ensures v.Some? && (forall k :: !MatchesAt(v.value, k)) ==> ms == 0.0
    ensures v.Some? ==> forall k :: MatchesAt(v.value, k) ==>
                          ms == DecimalValue(v.value[..k]) * UnitFactor(v.value[k..])
  {
    if v.None? || !Truthy(v.value) then 0.0
    else
      match MatchTime(v.value)
      case None => 0.0
      case Some(m) =>
        MatchedGroups(v.value, m);
        DecimalValue(m.number) * UnitFactor(m.unit)
  }

  /** A match's groups are the only split of the token the pattern allows. */
  lemma MatchedGroups(t: string, m: TimeMatch)
    requires MatchTime(t) == Some(m)
    ensures IsDecimal(m.number)
    ensures forall k :: MatchesAt(t, k) ==> t[..k] == m.number && t[k..] == m.unit
  {
    forall k | MatchesAt(t, k) ensures t[..k] == m.number && t[k..] == m.unit {
      MatchUnique(t, k, |m.number|);
    }
  }

  /** The pattern can match a token in at most one way: the unit letters are
      not digits or dots, so the number always ends at the same place. */
  lemma MatchUnique(t: string, k1: int, k2: int)
    requires MatchesAt(t, k1) && MatchesAt(t, k2)
    ensures k1 == k2
  {
    if k1 != k2 {
      var lo, hi := if k1 < k2 then k1 else k2, if k1 < k2 then k2 else k1;
      assert MatchesAt(t, lo) && MatchesAt(t, hi);
      // The unit that starts at `lo` would have to hold a digit or a dot.
      DecimalLastChar(t[..hi]);
    }
  }

  lemma DecimalLastChar(s: string)
    requires IsDecimal(s)
    ensures s != [] && IsDigit(s[|s| - 1])
  {
    if '.' in s {
      var k := IndexOf(s, '.');
      assert s[k + 1..][|s| - k - 2] == s[|s| - 1];
    }
  }

  lemma RenderedNatIsDecimal(n: nat)
    ensures IsDecimal(NatToString(n)) && DecimalValue(NatToString(n)) == n as real
  {
    NatToStringValue(n);
  }

  /** Round trip: rendering `n` milliseconds as `"<n>ms"` and parsing it back
      gives `n`. */
  lemma ParseMilliseconds(n: nat)
    ensures ParseTime(Some(NatToString(n) + "ms")) == n as real
  {
    var t := NatToString(n) + "ms";
    var k := |NatToString(n)|;
    RenderedNatIsDecimal(n);
    assert t[..k] == NatToString(n) && t[k..] == "ms";
    assert MatchesAt(t, k);
  }

  /** Round trip: `"<n>s"` parses to `n * 1000` milliseconds. */
  lemma ParseSeconds(n: nat)
    ensures ParseTime(Some(NatToString(n) + "s")) == (n * 1000) as real
  {
    var t := NatToString(n) + "s";
    var k := |NatToString(n)|;
    RenderedNatIsDecimal(n);
    assert t[..k] == NatToString(n) && t[k..] == "s";
    assert MatchesAt(t, k);
  }

  /** Round trip: a bare number is read as milliseconds. */
  lemma ParseBareNumber(n: nat)
    ensures ParseTime(Some(NatToString(n))) == n as real
  {
    var t := NatToString(n);
    RenderedNatIsDecimal(n);
    assert t[..|t|] == t && t[|t|..] == "";
    assert MatchesAt(t, |t|);
  }

  /** A fractional mantissa is kept: `"1.5s"` is 1500 milliseconds. */
  lemma ParseFractionalSeconds()
    ensures ParseTime(Some("1.5s")) == 1500.0
  {
    var t := "1.5s";
    assert t[..3] == "1.5" && t[3..] == "s";
    assert IndexOf("1.5", '.') == 1;
    assert "1.5"[..1] == "1" && "1.5"[2..] == "5";
    assert DigitsValue("1") == 1 && DigitsValue("5") == 5;
    assert DecimalValue("1.5") == 1.5;
    assert MatchesAt(t, 3);
  }

  /** A unit other than `ms`/`s`, or a token with a sign, degrades to 0. */
  lemma ParseRejectsOtherUnits()
    ensures ParseTime(Some("2m")) == 0.0
    ensures ParseTime(Some("-5ms")) == 0.0
  {
    forall k | MatchesAt("2m", k) ensures false {
      assert k <= 2;
      assert "2m"[k..] == "2m" || "2m"[k..] == "m" || "2m"[k..] == "";
      if k == 2 { assert "2m"[..2] == "2m"; DecimalLastChar("2m"); }
    }
  }
}
