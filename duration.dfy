/** readable_duration: the human-readable length of the video that is stored
    in the artifact and in the generated header, modelled exactly as the code
    behaves, including its two slips:
      - `h += ', '` appends the comma to the number h, not to the string
        hours, so no comma is ever written after the hours;
      - that append turns h into the string "<h>, ", and the later test
        `h > 0` compares NaN with 0, which is false, so with hours and
        seconds but no minutes no "0m" is written.
    With hours alone the append is skipped, h stays a number, and the
    minutes test itself writes "0m" after the hours. */
module Duration {
  import opened Decimal

  /** readable_duration(seconds) for a whole number of seconds. */
  function ReadableDuration(seconds: nat): (r: string)
    ensures r == "" <==> seconds == 0
  {
    var h := seconds / 3600;
    var m := seconds % 3600 / 60;
    var s := seconds % 3600 % 60;
    var hours := if h > 0 then DecimalString(h) + "h" else "";
    // After `h += ', '` the variable h holds a string exactly when this test
    // held; only otherwise can `h > 0` still be true.
    var hIsString := h > 0 && (m > 0 || s > 0);
    var hPositive := h > 0 && !hIsString;
    var minutes := if m > 0 || hPositive then DecimalString(m) + "m" else "";
    var minutesSep := if m > 0 && s > 0 then minutes + ", " else minutes;
    var secs := if s > 0 then DecimalString(s) + "s" else "";
    hours + minutesSep + secs
  }

  /** Seconds per unit letter. */
  function UnitSeconds(u: char): nat
  {
    if u == 'h' then 3600 else if u == 'm' then 60 else if u == 's' then 1 else 0
  }

  /** Length of the run of digits at the start of s. */
  function DigitRun(s: string): (k: nat)
    ensures k <= |s| && AllDigits(s[..k])
    ensures k < |s| ==> !IsDigit(s[k])
  {
    if s == [] || !IsDigit(s[0]) then 0
    else
      var k := 1 + DigitRun(s[1..]);
      assert s[..k] == [s[0]] + s[1..][..k - 1];
      k
  }

  /** The number of seconds a duration text denotes: the sum of its
      "<number><unit>" items, with ", " separators skipped. */
  function DurationValue(s: string): nat
    decreases |s|
  {
    if s == [] then 0
    else if |s| >= 2 && s[0] == ',' && s[1] == ' ' then DurationValue(s[2..])
    else
      var k := DigitRun(s);
      if k == |s| then 0
      else ParseDecimal(s[..k]) * UnitSeconds(s[k]) + DurationValue(s[k + 1..])
  }

  lemma DigitRunOfNumber(digits: string, rest: string)
    requires AllDigits(digits) && rest != [] && !IsDigit(rest[0])
    ensures DigitRun(digits + rest) == |digits|
  {
    if digits != [] {
      assert (digits + rest)[1..] == digits[1..] + rest;
      DigitRunOfNumber(digits[1..], rest);
    } else {
      assert digits + rest == rest;
    }
  }

  /** An item "<n><u>" in front of a text adds n units of u to its value. */
  lemma ItemValue(n: nat, u: char, rest: string)
    requires !IsDigit(u)
    ensures DurationValue(DecimalString(n) + [u] + rest) == n * UnitSeconds(u) + DurationValue(rest)
  {
    var d := DecimalString(n);
    var t := d + [u] + rest;
    assert t == d + ([u] + rest);
    DigitRunOfNumber(d, [u] + rest);
    assert t[..|d|] == d && t[|d|] == u && t[|d| + 1..] == rest;
    ParseDecimalString(n);
  }

  /** A ", " separator does not change the value. */
  lemma SeparatorValue(rest: string)
    ensures DurationValue(", " + rest) == DurationValue(rest)
  {
    assert (", " + rest)[2..] == rest;
  }

  /** The text "<h>h<m>m, <s>s" with any of its items or the separator left
      out denotes 3600 h + 60 m + s seconds. */
  lemma {:induction false} ItemsValue(h: nat, m: nat, s: nat, showMinutes: bool, showSep: bool)
    requires !showMinutes ==> m == 0
    ensures DurationValue(
      (if h > 0 then DecimalString(h) + "h" else "") +
      ((if showMinutes then DecimalString(m) + "m" else "") +
       ((if showSep then ", " else "") +
        (if s > 0 then DecimalString(s) + "s" else "")))) == 3600 * h + 60 * m + s
  {
    var secs := if s > 0 then DecimalString(s) + "s" else "";
    var sep := if showSep then ", " else "";
    var minutes := if showMinutes then DecimalString(m) + "m" else "";
    var hours := if h > 0 then DecimalString(h) + "h" else "";
    if s > 0 {
      ItemValue(s, 's', []);
      assert secs == DecimalString(s) + ['s'] + [];
    }
    assert DurationValue(secs) == s;
    if showSep {
      SeparatorValue(secs);
    } else {
      assert sep + secs == secs;
    }
    assert DurationValue(sep + secs) == s;
    assert UnitSeconds('h') == 3600 && UnitSeconds('m') == 60 && UnitSeconds('s') == 1;
    if showMinutes {
      ItemValue(m, 'm', sep + secs);
      assert minutes + (sep + secs) == DecimalString(m) + ['m'] + (sep + secs);
    } else {
      assert minutes + (sep + secs) == sep + secs;
    }
    assert DurationValue(minutes + (sep + secs)) == 60 * m + s;
    if h > 0 {
      ItemValue(h, 'h', minutes + (sep + secs));
      assert hours + (minutes + (sep + secs)) == DecimalString(h) + ['h'] + (minutes + (sep + secs));
    } else {
      assert hours + (minutes + (sep + secs)) == minutes + (sep + secs);
    }
  }

  /** The text readable_duration produces denotes exactly the seconds it was
      given: its items sum back to the input, with or without the commas. */
  lemma ReadableDurationValue(seconds: nat)
    ensures DurationValue(ReadableDuration(seconds)) == seconds
  {
    var h := seconds / 3600;
    var m := seconds % 3600 / 60;
    var s := seconds % 3600 % 60;
    var showMinutes := m > 0 || (h > 0 && !(m > 0 || s > 0));
    var showSep := m > 0 && s > 0;
    assert ReadableDuration(seconds) ==
      (if h > 0 then DecimalString(h) + "h" else "") +
      ((if showMinutes then DecimalString(m) + "m" else "") +
       ((if showSep then ", " else "") +
        (if s > 0 then DecimalString(s) + "s" else "")));
    ItemsValue(h, m, s, showMinutes, showSep);
    assert seconds == 3600 * h + 60 * m + s;
  }

  /** With at most 65535 seconds (the header's limit on the frame count, at
      one frame per second or more) the text is at most 11 characters, so
      the 17-character cut applied when it is written never shortens it. */
  lemma ReadableDurationShort(seconds: nat)
    requires seconds < 0x1_0000
    ensures |ReadableDuration(seconds)| <= 11
  {
    DecimalStringShort(seconds / 3600);
    DecimalStringShort(seconds % 3600 / 60);
    DecimalStringShort(seconds % 3600 % 60);
  }

  /** The hours item is never followed by a separator: the character after
      its 'h', if any, is the first digit of the minutes or of the seconds. */
  lemma NoSeparatorAfterHours(seconds: nat)
    requires seconds >= 3600
    ensures var n := |DecimalString(seconds / 3600)|;
      n < |ReadableDuration(seconds)| && ReadableDuration(seconds)[n] == 'h' &&
      (n + 1 < |ReadableDuration(seconds)| ==> IsDigit(ReadableDuration(seconds)[n + 1]))
  {
    var h := seconds / 3600;
    var m := seconds % 3600 / 60;
    var s := seconds % 3600 % 60;
    var showMinutes := m > 0 || !(m > 0 || s > 0);
    var minutes := if showMinutes then DecimalString(m) + "m" else "";
    var rest := minutes + (if m > 0 && s > 0 then ", " else "") + (if s > 0 then DecimalString(s) + "s" else "");
    var r := ReadableDuration(seconds);
    assert r == DecimalString(h) + "h" + rest;
    var n := |DecimalString(h)|;
    assert r[n] == 'h';
    if rest != [] {
      assert r[n + 1] == rest[0];
      if showMinutes {
        assert rest[0] == DecimalString(m)[0];
      } else {
        assert rest == DecimalString(s) + "s";
      }
    }
  }

  /** The outputs of the code as written for durations of an hour or more. */
  lemma ReadableDurationExamples()
    ensures ReadableDuration(3600) == "1h0m"
    ensures ReadableDuration(7200) == "2h0m"
    ensures ReadableDuration(3725) == "1h2m, 5s"
    ensures ReadableDuration(3605) == "1h5s"
  {
    assert 3600 / 3600 == 1 && 3600 % 3600 / 60 == 0 && 3600 % 3600 % 60 == 0;
    assert 7200 / 3600 == 2 && 7200 % 3600 / 60 == 0 && 7200 % 3600 % 60 == 0;
    assert 3725 / 3600 == 1 && 3725 % 3600 / 60 == 2 && 3725 % 3600 % 60 == 5;
    assert 3605 / 3600 == 1 && 3605 % 3600 / 60 == 0 && 3605 % 3600 % 60 == 5;
    assert DecimalString(0) == "0";
    assert DecimalString(1) == "1";
    assert DecimalString(2) == "2";
    assert DecimalString(5) == "5";
  }

  /** The outputs of the code as written for durations under an hour. */
  lemma ReadableDurationShortExamples()
    ensures ReadableDuration(125) == "2m, 5s"
    ensures ReadableDuration(5) == "5s"
    ensures ReadableDuration(0) == ""
  {
    assert 125 / 3600 == 0 && 125 % 3600 / 60 == 2 && 125 % 3600 % 60 == 5;
    assert 5 / 3600 == 0 && 5 % 3600 / 60 == 0 && 5 % 3600 % 60 == 5;
    assert DecimalString(2) == "2";
    assert DecimalString(5) == "5";
  }
}
