/**
 `generate_srt_content` of demo.py: one SubRip cue per translated segment,
 numbered from 1, each lasting `segment_duration`, back to back from time
 zero. A time is written `HH:MM:SS,mmm`: `time.strftime('%H:%M:%S',
 time.gmtime(t))` for the whole seconds, so that the hours wrap at a day,
 and the milliseconds `% 1000` padded to three digits. Times are counted
 in milliseconds.
 */
module SrtCues {
  import opened Text

  const MillisPerSecond: nat := 1000
  const MillisPerDay: nat := 86_400_000

  /** `segment_duration=5` seconds, the default every caller uses. */
  const DefaultSegmentMillis: nat := 5000

  /** `srt.Subtitle(index, start, end, content)`, with the two times as the strings the loop builds. */
  datatype Cue = Cue(index: nat, start: string, end: string, content: string)

  /** The fields printed in a time stamp. */
  datatype ClockTime = ClockTime(hour: nat, minute: nat, second: nat, milli: nat)

  /** The clock reading `gmtime` gives: the time elapsed since the last midnight (UTC). */
  function TimeOfDay(millis: nat): (t: nat)
    ensures t < MillisPerDay
  {
    if millis < MillisPerDay then millis else TimeOfDay(millis - MillisPerDay)
  }

  /**
   Hour, minute and second of the day, as `gmtime` takes them by successive
   remainders, and the milliseconds.
   */
  function ClockOf(millis: nat): (c: ClockTime)
    ensures c.hour < 24 && c.minute < 60 && c.second < 60 && c.milli < 1000
  {
    var t := TimeOfDay(millis);
    var seconds := t / MillisPerSecond;
    ClockTime(seconds / 3600, (seconds % 3600) / 60, (seconds % 3600) % 60, t % MillisPerSecond)
  }

  /** `'%02d:%02d:%02d' % (h, m, s) + f',{ms:03}'`. */
  function Render(c: ClockTime): string
  {
    ZeroPad(c.hour, 2) + ":" + ZeroPad(c.minute, 2) + ":" + ZeroPad(c.second, 2) + "," + ZeroPad(c.milli, 3)
  }

  /**
   The time stamp of `millis`, as the loop builds it from `gmtime`: twelve
   characters laid out `HH:MM:SS,mmm`, digits everywhere but the two colons
   and the comma.
   */
  function Stamp(millis: nat): (t: string)
    ensures |t| == 12 && t[2] == ':' && t[5] == ':' && t[8] == ','
    ensures forall i :: 0 <= i < 12 && i != 2 && i != 5 && i != 8 ==> IsAsciiDigit(t[i])
  {
    RenderLayout(ClockOf(millis));
    Render(ClockOf(millis))
  }

  /** Milliseconds since midnight of the clock fields `hour:minute:second,milli`. */
  function StampValue(hour: nat, minute: nat, second: nat, milli: nat): nat
  {
    ((hour * 60 + minute) * 60 + second) * 1000 + milli
  }

  /** Reads `HH:MM:SS,mmm` back into milliseconds since midnight; the partner of `Stamp`. */
  function ParseStamp(stamp: string): Option<nat>
  {
    var fields := Split(stamp, ':');
    if |fields| == 3 then
      var tail := Split(fields[2], ',');
      if |tail| == 2 && IsDigitString(fields[0]) && IsDigitString(fields[1])
        && IsDigitString(tail[0]) && IsDigitString(tail[1])
      then
        Some(StampValue(ParseDigits(fields[0]), ParseDigits(fields[1]), ParseDigits(tail[0]), ParseDigits(tail[1])))
      else
        None
    else
      None
  }

  /** The cue the loop appends for segment `k` (0-based). */
  function CueAt(segments: seq<string>, segmentMillis: nat, k: nat): Cue
    requires k < |segments|
  {
    Cue(k + 1, Stamp(k * segmentMillis), Stamp((k + 1) * segmentMillis), segments[k])
  }

  /**
   The list `subs` holds when the loop ends: one cue per segment, in order,
   numbered from 1 and carrying its segment's text.
   */
  function CueList(segments: seq<string>, segmentMillis: nat): (cues: seq<Cue>)
    ensures |cues| == |segments|
    ensures forall k :: 0 <= k < |segments| ==> cues[k].index == k + 1 && cues[k].content == segments[k]
  {
    seq(|segments|, k requires 0 <= k < |segments| => CueAt(segments, segmentMillis, k))
  }

  /**
   The loop of `generate_srt_content`. `source` is accepted and never read:
   the cues depend on the translated segments and the duration alone.
   */
  method GenerateSrtContent(translated: seq<string>, source: seq<string>, segmentMillis: nat)
    returns (subs: seq<Cue>)
    ensures subs == CueList(translated, segmentMillis)
  {
    subs := [];
    var startMillis := 0;
    var i := 0;
    while i < |translated|
      invariant 0 <= i <= |translated|
      invariant startMillis == i * segmentMillis
      invariant |subs| == i
      invariant subs == CueList(translated, segmentMillis)[..i]
    {
      var endMillis := startMillis + segmentMillis;
      var cue := Cue(i + 1, Stamp(startMillis), Stamp(endMillis), translated[i]);
      CueAtStep(translated, segmentMillis, i);
      CueListGrows(translated, segmentMillis, subs, i);
      subs := subs + [cue];
      startMillis := endMillis;
      i := i + 1;
    }
  }

  /** The cue the loop builds from its running start time is `CueAt`. */
  lemma CueAtStep(segments: seq<string>, segmentMillis: nat, i: nat)
    requires i < |segments|
    ensures Cue(i + 1, Stamp(i * segmentMillis), Stamp(i * segmentMillis + segmentMillis), segments[i])
      == CueAt(segments, segmentMillis, i)
  {
    NextStart(i, segmentMillis);
  }

  /** Appending the next cue to a prefix of the list gives the next prefix. */
  lemma CueListGrows(segments: seq<string>, segmentMillis: nat, subs: seq<Cue>, i: nat)
    requires i < |segments| && subs == CueList(segments, segmentMillis)[..i]
    ensures subs + [CueAt(segments, segmentMillis, i)] == CueList(segments, segmentMillis)[..i + 1]
  {
  }

  lemma NextStart(i: nat, segmentMillis: nat)
    ensures (i + 1) * segmentMillis == i * segmentMillis + segmentMillis
  {
  }

  // ---------------------------------------------------------------------
  // Arithmetic of the clock

  lemma {:induction false} TimeOfDayIsMod(millis: nat)
    ensures TimeOfDay(millis) == millis % MillisPerDay
    decreases millis
  {
    if millis >= MillisPerDay {
      TimeOfDayIsMod(millis - MillisPerDay);
    }
  }

  /** A quotient and remainder in range are the ones `/` and `%` give, for the two divisors used here. */
  lemma DivModUnique(x: nat, d: nat, q: nat, r: nat)
    requires d == MillisPerSecond || d == MillisPerDay
    requires x == d * q + r && r < d
    ensures x / d == q && x % d == r
  {
  }

  /** The time of day split at the second, as `millis / 1000` and `millis % 1000` split `millis`. */
  lemma SecondsOfDay(millis: nat)
    ensures TimeOfDay(millis) / MillisPerSecond == (millis / MillisPerSecond) % 86400
    ensures TimeOfDay(millis) % MillisPerSecond == millis % MillisPerSecond
  {
    TimeOfDayIsMod(millis);
    var s, r := millis / MillisPerSecond, millis % MillisPerSecond;
    var q, rem := s / 86400, s % 86400;
    assert millis == MillisPerDay * q + (rem * 1000 + r);
    DivModUnique(millis, MillisPerDay, q, rem * 1000 + r);
    DivModUnique(rem * 1000 + r, MillisPerSecond, rem, r);
  }

  /**
   The fields are those of the loop: `gmtime` of the whole seconds
   `millis / 1000` and the milliseconds `millis % 1000`.
   */
  lemma ClockIsGmtime(millis: nat)
    ensures var s := (millis / MillisPerSecond) % 86400;
      ClockOf(millis) == ClockTime(s / 3600, (s % 3600) / 60, (s % 3600) % 60, millis % MillisPerSecond)
  {
    SecondsOfDay(millis);
  }

  /** The fields add back up to the time of day. */
  lemma ClockValue(millis: nat)
    ensures var c := ClockOf(millis);
      StampValue(c.hour, c.minute, c.second, c.milli) == TimeOfDay(millis)
  {
  }

  // ---------------------------------------------------------------------
  // Rendering and reading back

  predicate InRange(c: ClockTime)
  {
    c.hour < 100 && c.minute < 100 && c.second < 100 && c.milli < 1000
  }

  lemma NoSeparators(s: string, f: string)
    requires AllDigits(s) && AllDigits(f)
    ensures ':' !in s + [','] + f
  {
    var u := s + [','] + f;
    forall i | 0 <= i < |u| ensures u[i] != ':' {
      if i < |s| { assert u[i] == s[i]; } else if i > |s| { assert u[i] == f[i - |s| - 1]; }
    }
  }

  /** The fields `ParseStamp` finds in a rendered clock are those `Render` wrote. */
  lemma RenderFields(c: ClockTime)
    ensures var fields := Split(Render(c), ':');
      && |fields| == 3
      && fields[0] == ZeroPad(c.hour, 2)
      && fields[1] == ZeroPad(c.minute, 2)
      && Split(fields[2], ',') == [ZeroPad(c.second, 2), ZeroPad(c.milli, 3)]
  {
    var h, m, s, f := ZeroPad(c.hour, 2), ZeroPad(c.minute, 2), ZeroPad(c.second, 2), ZeroPad(c.milli, 3);
    DigitsHaveNo(h, ':');
    DigitsHaveNo(m, ':');
    DigitsHaveNo(s, ',');
    DigitsHaveNo(f, ',');
    NoSeparators(s, f);
    assert Render(c) == h + [':'] + m + [':'] + (s + [','] + f);
    SplitThree(h, m, s + [','] + f, ':');
    SplitTwo(s, f, ',');
  }

  /** A rendered clock reads back as its value in milliseconds. */
  lemma ParseRender(c: ClockTime)
    ensures ParseStamp(Render(c)) == Some(StampValue(c.hour, c.minute, c.second, c.milli))
  {
    var fields := Split(Render(c), ':');
    RenderFields(c);
    var tail := Split(fields[2], ',');
    ParseZeroPad(c.hour, 2);
    ParseZeroPad(c.minute, 2);
    ParseZeroPad(c.second, 2);
    ParseZeroPad(c.milli, 3);
    assert ParseDigits(fields[0]) == c.hour && ParseDigits(fields[1]) == c.minute;
    assert ParseDigits(tail[0]) == c.second && ParseDigits(tail[1]) == c.milli;
  }

  /** A clock in range renders as twelve characters: three two-digit fields split by colons, a comma, three digits. */
  lemma RenderLayout(c: ClockTime)
    requires InRange(c)
    ensures var t := Render(c);
      && |t| == 12 && t[2] == ':' && t[5] == ':' && t[8] == ','
      && (forall i :: 0 <= i < 12 && i != 2 && i != 5 && i != 8 ==> IsAsciiDigit(t[i]))
      && t[9..] == ZeroPad(c.milli, 3)
  {
    ZeroPadWidth(c.hour, 2);
    ZeroPadWidth(c.minute, 2);
    ZeroPadWidth(c.second, 2);
    ZeroPadWidth(c.milli, 3);
  }

  // ---------------------------------------------------------------------
  // Time stamps

  /** `ParseStamp` undoes `Stamp` up to whole days: the hours wrap at 24. */
  lemma StampRoundTrip(millis: nat)
    ensures ParseStamp(Stamp(millis)) == Some(millis % MillisPerDay)
  {
    ParseRender(ClockOf(millis));
    ClockValue(millis);
    TimeOfDayIsMod(millis);
  }

  /** Adding a whole day changes no stamp. */
  lemma StampWrapsDaily(millis: nat)
    ensures Stamp(millis + MillisPerDay) == Stamp(millis)
  {
    assert TimeOfDay(millis + MillisPerDay) == TimeOfDay(millis);
  }

  /** With a whole-second time, such as any multiple of the default, the millisecond field is `000`. */
  lemma WholeSecondsGiveZeroMillis(millis: nat)
    requires millis % MillisPerSecond == 0
    ensures Stamp(millis)[9..] == "000"
  {
    SecondsOfDay(millis);
    RenderLayout(ClockOf(millis));
    assert ZeroPad(0, 3) == "000";
  }

  lemma MultipleOfSecond(k: nat, segmentMillis: nat)
    requires segmentMillis % MillisPerSecond == 0
    ensures (k * segmentMillis) % MillisPerSecond == 0
  {
    var q := segmentMillis / MillisPerSecond;
    assert k * segmentMillis == (k * q) * MillisPerSecond;
  }

  lemma StampAtZero()
    ensures Stamp(0) == "00:00:00,000"
  {
    assert ClockOf(0) == ClockTime(0, 0, 0, 0);
    assert ZeroPad(0, 2) == "00";
    assert ZeroPad(0, 3) == "000";
  }

  lemma StampAtFiveSeconds()
    ensures Stamp(5000) == "00:00:05,000"
  {
    assert TimeOfDay(5000) == 5000;
    assert ClockOf(5000) == ClockTime(0, 0, 5, 0);
    assert ZeroPad(0, 2) == "00";
    assert ZeroPad(5, 2) == "05";
    assert ZeroPad(0, 3) == "000";
  }

  // ---------------------------------------------------------------------
  // The cue list

  /** The cues are back to back: each ends with the very stamp the next one starts with. */
  lemma CuesContiguous(segments: seq<string>, segmentMillis: nat)
    ensures forall k :: 0 <= k < |segments| - 1 ==>
      CueList(segments, segmentMillis)[k].end == CueList(segments, segmentMillis)[k + 1].start
  {
  }

  /** Cue `k` is stamped with the times `k * d` and `(k + 1) * d`. */
  lemma CueStamps(segments: seq<string>, segmentMillis: nat, k: nat)
    requires k < |segments|
    ensures CueList(segments, segmentMillis)[k].start == Stamp(k * segmentMillis)
    ensures CueList(segments, segmentMillis)[k].end == Stamp((k + 1) * segmentMillis)
  {
  }

  /** Cue `k` covers `[k * d, (k + 1) * d)` as read back from its stamps, modulo a day. */
  lemma CueTimes(segments: seq<string>, segmentMillis: nat, k: nat)
    requires k < |segments|
    ensures ParseStamp(CueList(segments, segmentMillis)[k].start) == Some((k * segmentMillis) % MillisPerDay)
    ensures ParseStamp(CueList(segments, segmentMillis)[k].end) == Some(((k + 1) * segmentMillis) % MillisPerDay)
  {
    CueStamps(segments, segmentMillis, k);
    StampRoundTrip(k * segmentMillis);
    StampRoundTrip((k + 1) * segmentMillis);
  }

  /** The last cue ends at `n * d` (modulo a day); nothing clamps it to the video's length. */
  lemma LastCueEnd(segments: seq<string>, segmentMillis: nat)
    requires |segments| > 0
    ensures ParseStamp(CueList(segments, segmentMillis)[|segments| - 1].end)
      == Some((|segments| * segmentMillis) % MillisPerDay)
  {
    CueTimes(segments, segmentMillis, |segments| - 1);
  }

  lemma MulMono(a: nat, b: nat, d: nat)
    requires a <= b
    ensures a * d <= b * d
  {
  }

  lemma BelowDay(x: nat)
    requires x < MillisPerDay
    ensures x % MillisPerDay == x
  {
  }

  /**
   Within a day, the cues are in order and do not overlap: cue `k` runs
   from `k * d` to `k * d + d`, and the next one starts there.
   */
  lemma CuesOrdered(segments: seq<string>, segmentMillis: nat, k: nat)
    requires k < |segments| && |segments| * segmentMillis < MillisPerDay
    ensures ParseStamp(CueList(segments, segmentMillis)[k].start) == Some(k * segmentMillis)
    ensures ParseStamp(CueList(segments, segmentMillis)[k].end) == Some(k * segmentMillis + segmentMillis)
  {
    CueTimes(segments, segmentMillis, k);
    NextStart(k, segmentMillis);
    MulMono(k + 1, |segments|, segmentMillis);
    BelowDay(k * segmentMillis);
    BelowDay((k + 1) * segmentMillis);
  }

  /** With the default five seconds, every cue's stamps end in `,000`. */
  lemma DefaultCuesWholeSeconds(segments: seq<string>, k: nat)
    requires k < |segments|
    ensures CueList(segments, DefaultSegmentMillis)[k].start[9..] == "000"
    ensures CueList(segments, DefaultSegmentMillis)[k].end[9..] == "000"
  {
    CueStamps(segments, DefaultSegmentMillis, k);
    MultipleOfSecond(k, DefaultSegmentMillis);
    MultipleOfSecond(k + 1, DefaultSegmentMillis);
    WholeSecondsGiveZeroMillis(k * DefaultSegmentMillis);
    WholeSecondsGiveZeroMillis((k + 1) * DefaultSegmentMillis);
  }

  /** The first cue of a default-duration list: `00:00:00,000 --> 00:00:05,000`. */
  lemma FirstDefaultCue(segments: seq<string>)
    requires |segments| > 0
    ensures CueList(segments, DefaultSegmentMillis)[0]
      == Cue(1, "00:00:00,000", "00:00:05,000", segments[0])
  {
    CueStamps(segments, DefaultSegmentMillis, 0);
    StampAtZero();
    StampAtFiveSeconds();
  }
}
