/**
  The clock text the player shows: a number of seconds as "MM:SS", or as
  "HH:MM:SS" when the hours component of the time span is not zero.
 */
module Utils {
  import opened Wrappers
  import opened Strings

  /**
    The most whole seconds a .NET `TimeSpan` holds; `TimeSpan.FromSeconds`
    throws an `OverflowException` beyond it.
   */
  const MaxWholeSeconds: nat := 922337203685

  /** A time span of whole, non-negative seconds and its clock components. */
  datatype TimeSpan = TimeSpan(totalSeconds: nat) {
    /** Hours within the day, 0..23; whole days are not part of it. */
    function Hours(): nat { (totalSeconds / 3600) % 24 }
    function Minutes(): nat { (totalSeconds / 60) % 60 }
    function Seconds(): nat { totalSeconds % 60 }
  }

  /** `TimeSpan.FromSeconds`; `None` stands for the overflow exception. */
  function FromSeconds(seconds: nat): (r: Option<TimeSpan>)
    ensures r.Some? <==> seconds <= MaxWholeSeconds
    ensures r.Some? ==> r.value.totalSeconds == seconds
  {
    if seconds <= MaxWholeSeconds then Some(TimeSpan(seconds)) else None
  }

  /** `{0:D2}`: the decimal digits of `n`, padded with a leading zero to width two. */
  function D2(n: nat): (r: string)
    ensures n < 100 ==> |r| == 2 && IsDigits(r) && ParseDecimal(r) == n
    ensures n >= 10 ==> r == Decimal(n)
  {
    ParseDecimalOfDecimal(n);
    if n < 10 then
      assert ("0" + Decimal(n))[..1] == "0";
      "0" + Decimal(n)
    else Decimal(n)
  }

  /** The text of a time of `seconds`; `None` when `TimeSpan.FromSeconds` throws. */
  function GetFormatTimeStringFromSeconds(seconds: nat): (r: Option<string>)
    ensures r.Some? <==> seconds <= MaxWholeSeconds
    ensures r.Some? ==> (|r.value| == 5 <==> (seconds / 3600) % 24 == 0)
    ensures r.Some? ==> |r.value| == 5 || |r.value| == 8
  {
    match FromSeconds(seconds)
    case None => None
    case Some(timeSpan) =>
      if timeSpan.Hours() > 0 then
        Some(D2(timeSpan.Hours()) + ":" + D2(timeSpan.Minutes()) + ":" + D2(timeSpan.Seconds()))
      else
        Some(D2(timeSpan.Minutes()) + ":" + D2(timeSpan.Seconds()))
  }

  /**
    Reads a clock text back into (hours, minutes, seconds): "MM:SS" has no
    hours field, "HH:MM:SS" has one; anything else is not a clock text.
   */
  function ParseClock(t: string): Option<(nat, nat, nat)> {
    if |t| == 5 && t[2] == ':' && IsDigits(t[..2]) && IsDigits(t[3..]) then
      Some((0, DigitsValue(t[..2]), DigitsValue(t[3..])))
    else if |t| == 8 && t[2] == ':' && t[5] == ':'
         && IsDigits(t[..2]) && IsDigits(t[3..5]) && IsDigits(t[6..]) then
      Some((DigitsValue(t[..2]), DigitsValue(t[3..5]), DigitsValue(t[6..])))
    else None
  }

  function DigitsValue(s: string): nat
    requires IsDigits(s)
  {
    DigitsNonNegative(s);
    ParseDecimal(s)
  }

  lemma {:induction false} DigitsNonNegative(s: string)
    requires IsDigits(s)
    ensures ParseDecimal(s) >= 0
    decreases |s|
  {
    if s != [] {
      DigitsNonNegative(s[..|s| - 1]);
    }
  }

  /** The clock text reads back as exactly the time span's components. */
  lemma FormatTimeRoundTrip(seconds: nat)
    requires seconds <= MaxWholeSeconds
    ensures var ts := TimeSpan(seconds);
      ParseClock(GetFormatTimeStringFromSeconds(seconds).value)
        == Some((ts.Hours(), ts.Minutes(), ts.Seconds()))
  {
    var ts := TimeSpan(seconds);
    var m, s := D2(ts.Minutes()), D2(ts.Seconds());
    if ts.Hours() > 0 {
      var h := D2(ts.Hours());
      var t := h + ":" + m + ":" + s;
      assert t[..2] == h && t[3..5] == m && t[6..] == s;
    } else {
      var t := m + ":" + s;
      assert t[..2] == m && t[3..] == s;
    }
  }

  /**
    The components: hours within the day (the text has an hours field
    exactly when they are not zero), minutes and seconds below 60, and
    together they make up the seconds modulo a day.
   */
  lemma ComponentsOfTime(seconds: nat)
    ensures var ts := TimeSpan(seconds);
      && ts.Hours() < 24 && ts.Minutes() < 60 && ts.Seconds() < 60
      && 3600 * ts.Hours() + 60 * ts.Minutes() + ts.Seconds() == seconds % 86400
  {
    var ts := TimeSpan(seconds);
    var d, r := seconds / 86400, seconds % 86400;
    var rh, rm := r / 3600, r % 3600;
    var mm, ss := rm / 60, rm % 60;
    assert rh < 24 && mm < 60;
    DivMod3600(seconds, 24 * d + rh, rm);
    DivMod24(24 * d + rh, d, rh);
    assert ts.Hours() == rh;
    DivMod60(seconds, 1440 * d + 60 * rh + mm, ss);
    DivMod60(1440 * d + 60 * rh + mm, 24 * d + rh, mm);
    assert ts.Minutes() == mm;
  }

  /** Quotient and remainder by 3600, 60 and 24 are the only such pairs. */
  lemma DivMod3600(x: int, q: int, r: int)
    requires 0 <= r < 3600 && x == 3600 * q + r
    ensures x / 3600 == q && x % 3600 == r
  {
  }

  lemma DivMod60(x: int, q: int, r: int)
    requires 0 <= r < 60 && x == 60 * q + r
    ensures x / 60 == q && x % 60 == r
  {
  }

  lemma DivMod24(x: int, q: int, r: int)
    requires 0 <= r < 24 && x == 24 * q + r
    ensures x / 24 == q && x % 24 == r
  {
  }

  /**
    Within a day the text reads back as exactly the seconds (3600 * HH +
    60 * MM + SS, no hours field read as zero), and it is "MM:SS" exactly
    below an hour.
   */
  lemma FormatTimeWithinDay(seconds: nat)
    requires seconds < 86400
    ensures var c := ParseClock(GetFormatTimeStringFromSeconds(seconds).value);
      c.Some? && 3600 * c.value.0 + 60 * c.value.1 + c.value.2 == seconds
    ensures |GetFormatTimeStringFromSeconds(seconds).value| == 5 <==> seconds < 3600
  {
    var ts := TimeSpan(seconds);
    FormatTimeRoundTrip(seconds);
    ComponentsOfTime(seconds);
    assert seconds % 86400 == seconds;
    assert ts.Hours() == 0 <==> seconds < 3600;
  }

  /** Whole days are dropped: a day formats like zero seconds. */
  lemma WholeDayShowsZero()
    ensures GetFormatTimeStringFromSeconds(86400) == Some("00:00")
  {
    var ts := TimeSpan(86400);
    assert ts.Hours() == 0 && ts.Minutes() == 0 && ts.Seconds() == 0;
    assert Decimal(0) == [DigitChar(0)] == "0";
    assert D2(0) == "00";
    assert "00" + ":" + "00" == "00:00";
  }
}
