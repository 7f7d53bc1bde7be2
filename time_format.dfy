/**
 `format_time` of demoIlimit.py: a duration rendered through Python's
 `str(timedelta(seconds=...))`, cut at the first `.` so that the
 microsecond part disappears. Durations are counted in microseconds, the
 resolution of `timedelta`.
 */
module TimeFormat {
  import opened Text

  const MicrosPerSecond: nat := 1_000_000
  const SecondsPerDay: nat := 86400

  /** `"%d:%02d:%02d" % (hh, mm, ss)` for a time of day given in seconds. */
  function Clock(seconds: nat): string
  {
    var minutes := seconds / 60;
    NatToString(minutes / 60) + ":" + ZeroPad(minutes % 60, 2) + ":" + ZeroPad(seconds % 60, 2)
  }

  /** The whole-second part of `str(timedelta)`: an optional `"%d day%s, "` and the clock. */
  function DaysAndClock(totalSeconds: nat): string
  {
    var days := totalSeconds / SecondsPerDay;
    var clock := Clock(totalSeconds % SecondsPerDay);
    if days != 0 then NatToString(days) + " day" + (if days != 1 then "s" else "") + ", " + clock else clock
  }

  /**
   `str(timedelta(microseconds=micros))` for a non-negative duration: it
   holds a dot exactly when the duration has a fraction of a second, and
   then only one.
   */
  function TimedeltaString(micros: nat): (r: string)
    ensures '.' in r <==> micros % MicrosPerSecond != 0
    ensures forall i, j :: 0 <= i < j < |r| && r[i] == '.' ==> r[j] != '.'
  {
    var whole := DaysAndClock(micros / MicrosPerSecond);
    DaysAndClockHasNoDot(micros / MicrosPerSecond);
    DigitsHaveNo(ZeroPad(micros % MicrosPerSecond, 6), '.');
    if micros % MicrosPerSecond != 0 then
      var r := whole + "." + ZeroPad(micros % MicrosPerSecond, 6);
      assert r[|whole|] == '.';
      r
    else
      whole
  }

  /** `format_time`: `str(timedelta(...)).split('.')[0]`; the result never holds a dot. */
  function FormatTime(micros: nat): (r: string)
    ensures '.' !in r
  {
    Split(TimedeltaString(micros), '.')[0]
  }

  /** The partner of `FormatTime` below one day: reads `H:MM:SS` back into seconds. */
  function ParseClock(r: string): Option<nat>
  {
    var f := Split(r, ':');
    if |f| == 3 && IsDigitString(f[0]) && IsDigitString(f[1]) && IsDigitString(f[2]) then
      Some(ParseDigits(f[0]) * 3600 + ParseDigits(f[1]) * 60 + ParseDigits(f[2]))
    else
      None
  }

  lemma ClockHasNoDot(seconds: nat)
    ensures '.' !in Clock(seconds)
  {
    var minutes := seconds / 60;
    DigitsHaveNo(NatToString(minutes / 60), '.');
    DigitsHaveNo(ZeroPad(minutes % 60, 2), '.');
    DigitsHaveNo(ZeroPad(seconds % 60, 2), '.');
  }

  lemma DaysAndClockHasNoDot(totalSeconds: nat)
    ensures '.' !in DaysAndClock(totalSeconds)
  {
    ClockHasNoDot(totalSeconds % SecondsPerDay);
    DigitsHaveNo(NatToString(totalSeconds / SecondsPerDay), '.');
  }

  /**
   The fractional part is dropped, never rounded: a duration formats exactly
   as its whole seconds do.
   */
  lemma FormatTimeTruncates(micros: nat)
    ensures FormatTime(micros) == DaysAndClock(micros / MicrosPerSecond)
    ensures FormatTime(micros) == FormatTime((micros / MicrosPerSecond) * MicrosPerSecond)
  {
    var q := micros / MicrosPerSecond;
    var w := DaysAndClock(q);
    DaysAndClockHasNoDot(q);
    SplitHead(w, [], '.');
    if micros % MicrosPerSecond != 0 {
      SplitHead(w, ZeroPad(micros % MicrosPerSecond, 6), '.');
    }
    var whole := q * MicrosPerSecond;
    assert whole / MicrosPerSecond == q && whole % MicrosPerSecond == 0;
  }

  /**
   Below one day `format_time` gives `H:MM:SS`: an hour field without
   leading zeros, then minutes and seconds of exactly two digits each, and
   the three fields add up to the whole seconds of the duration.
   */
  lemma FormatTimeFields(micros: nat)
    requires micros < SecondsPerDay * MicrosPerSecond
    ensures var f := Split(FormatTime(micros), ':');
      && |f| == 3
      && IsDigitString(f[0]) && IsDigitString(f[1]) && IsDigitString(f[2])
      && (f[0][0] == '0' ==> f[0] == "0")
      && |f[1]| == 2 && |f[2]| == 2
      && ParseDigits(f[1]) < 60 && ParseDigits(f[2]) < 60
      && ParseDigits(f[0]) * 3600 + ParseDigits(f[1]) * 60 + ParseDigits(f[2]) == micros / MicrosPerSecond
  {
    var seconds := micros / MicrosPerSecond;
    FormatTimeTruncates(micros);
    assert seconds / SecondsPerDay == 0 && seconds % SecondsPerDay == seconds;
    assert DaysAndClock(seconds) == Clock(seconds);
    var minutes := seconds / 60;
    var h, m, s := NatToString(minutes / 60), ZeroPad(minutes % 60, 2), ZeroPad(seconds % 60, 2);
    DigitsHaveNo(h, ':');
    DigitsHaveNo(m, ':');
    DigitsHaveNo(s, ':');
    SplitThree(h, m, s, ':');
    ZeroPadWidth(minutes % 60, 2);
    ZeroPadWidth(seconds % 60, 2);
    ParseNatToString(minutes / 60);
    ParseZeroPad(minutes % 60, 2);
    ParseZeroPad(seconds % 60, 2);
  }

  /** `ParseClock` undoes `FormatTime` below one day, up to the dropped fraction. */
  lemma FormatTimeRoundTrip(micros: nat)
    requires micros < SecondsPerDay * MicrosPerSecond
    ensures ParseClock(FormatTime(micros)) == Some(micros / MicrosPerSecond)
  {
    FormatTimeFields(micros);
  }

  lemma ClockAt1900()
    ensures DaysAndClock(1900) == "0:31:40"
  {
    assert 1900 / SecondsPerDay == 0 && 1900 % SecondsPerDay == 1900;
    assert 1900 / 60 == 31 && 31 / 60 == 0 && 31 % 60 == 31 && 1900 % 60 == 40;
    assert NatToString(0) == "0";
    TwoDigitPad(31);
    TwoDigitPad(40);
    assert [DigitChar(3), DigitChar(1)] == "31" && [DigitChar(4), DigitChar(0)] == "40";
    assert Clock(1900) == "0" + ":" + "31" + ":" + "40";
  }

  /** The limit shown to the user: `format_time(1900) == "0:31:40"`, with or without a fraction. */
  lemma FormatLimit()
    ensures FormatTime(1900 * MicrosPerSecond) == "0:31:40"
    ensures FormatTime(1900 * MicrosPerSecond + 999_999) == "0:31:40"
  {
    var limit, justBelow := 1900 * MicrosPerSecond, 1900 * MicrosPerSecond + 999_999;
    assert limit / MicrosPerSecond == 1900 && justBelow / MicrosPerSecond == 1900;
    FormatTimeTruncates(limit);
    FormatTimeTruncates(justBelow);
    ClockAt1900();
  }

  lemma ClockAtOneHourPastADay()
    ensures DaysAndClock(90000) == "1 day, 1:00:00"
  {
    assert ZeroPad(0, 2) == "00";
    assert Clock(3600) == "1" + ":" + "00" + ":" + "00";
    assert DaysAndClock(90000) == "1" + " day" + "" + ", " + Clock(3600);
  }

  lemma ClockAtTwoDays()
    ensures DaysAndClock(2 * SecondsPerDay) == "2 days, 0:00:00"
  {
    assert ZeroPad(0, 2) == "00";
    assert Clock(0) == "0" + ":" + "00" + ":" + "00";
    assert DaysAndClock(2 * SecondsPerDay) == "2" + " day" + "s" + ", " + Clock(0);
  }

  /** From one day on, Python puts a day count in front: 25 hours is `"1 day, 1:00:00"`. */
  lemma FormatOverOneDay()
    ensures FormatTime(90000 * MicrosPerSecond) == "1 day, 1:00:00"
  {
    var micros := 90000 * MicrosPerSecond;
    assert micros / MicrosPerSecond == 90000;
    FormatTimeTruncates(micros);
    ClockAtOneHourPastADay();
  }

  /** Past one day the unit takes a plural: 48 hours is `"2 days, 0:00:00"`. */
  lemma FormatTwoDays()
    ensures FormatTime(2 * SecondsPerDay * MicrosPerSecond) == "2 days, 0:00:00"
  {
    var micros := 2 * SecondsPerDay * MicrosPerSecond;
    assert micros / MicrosPerSecond == 2 * SecondsPerDay;
    FormatTimeTruncates(micros);
    ClockAtTwoDays();
  }
}
