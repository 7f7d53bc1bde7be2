/**
 The 1900-second limit on video length in demoIlimit.py, applied twice: by
 `download_youtube_audio` to the whole-second length pytube reports (`>`
 rejects), and by `check_video_duration` to the duration moviepy measures
 for an upload (`<=` accepts). Measured durations are counted in
 microseconds, as in `TimeFormat`.
 */
module DurationLimit {
  import opened Text
  import opened TimeFormat

  /** The default `max_duration` of `download_youtube_audio` and the constant of `check_video_duration`. */
  const MaxDurationSeconds: nat := 1900

  const TooLongPrefix: string := "La vidéo dépasse la durée maximale autorisée de "

  /**
   The length check of `download_youtube_audio`: `None` lets the download go
   on, `Some(message)` is the error it returns, naming the limit through
   `format_time`.
   */
  function DownloadLengthError(lengthSeconds: nat, maxDuration: nat): (r: Option<string>)
    ensures r.None? <==> lengthSeconds <= maxDuration
    ensures r.Some? ==> r.value == TooLongPrefix + FormatTime(maxDuration * MicrosPerSecond) + "."
  {
    if lengthSeconds > maxDuration then
      Some(TooLongPrefix + FormatTime(maxDuration * MicrosPerSecond) + ".")
    else
      None
  }

  /**
   `check_video_duration`: the probe is moviepy's measurement, `None` when it
   raised. A failed probe gives `(False, 0)`; otherwise the flag says whether
   the duration is within 1900 seconds and the duration is passed through.
   */
  function CheckVideoDuration(probe: Option<nat>): (r: (bool, nat))
    ensures r.0 <==> probe.Some? && probe.value <= MaxDurationSeconds * MicrosPerSecond
    ensures r.1 == if probe.Some? then probe.value else 0
  {
    match probe
    case None => (false, 0)
    case Some(d) => (d <= MaxDurationSeconds * MicrosPerSecond, d)
  }

  /** Exactly 1900 seconds passes both checks; one more second fails both. */
  lemma LimitBoundary()
    ensures DownloadLengthError(MaxDurationSeconds, MaxDurationSeconds).None?
    ensures DownloadLengthError(MaxDurationSeconds + 1, MaxDurationSeconds).Some?
    ensures CheckVideoDuration(Some(MaxDurationSeconds * MicrosPerSecond)).0
    ensures !CheckVideoDuration(Some((MaxDurationSeconds + 1) * MicrosPerSecond)).0
  {
  }

  /** On whole seconds, the YouTube check with its default limit and the upload check agree. */
  lemma ChecksAgree(seconds: nat)
    ensures DownloadLengthError(seconds, MaxDurationSeconds).None? <==> CheckVideoDuration(Some(seconds * MicrosPerSecond)).0
  {
    if seconds <= MaxDurationSeconds {
      assert seconds * MicrosPerSecond <= MaxDurationSeconds * MicrosPerSecond;
    } else {
      assert seconds * MicrosPerSecond >= (MaxDurationSeconds + 1) * MicrosPerSecond;
    }
  }

  /** With the default limit the error message names `0:31:40`. */
  lemma DefaultErrorMessage(lengthSeconds: nat)
    requires lengthSeconds > MaxDurationSeconds
    ensures DownloadLengthError(lengthSeconds, MaxDurationSeconds)
      == Some(TooLongPrefix + "0:31:40" + ".")
  {
    FormatLimit();
  }

  /**
   An upload a fraction of a second over the limit is refused, yet the
   duration shown beside the refusal, `format_time(duration)`, reads
   `0:31:40`, the limit itself, because the fraction is truncated.
   */
  lemma RefusedUploadShowsLimit(micros: nat)
    requires MaxDurationSeconds * MicrosPerSecond < micros < (MaxDurationSeconds + 1) * MicrosPerSecond
    ensures !CheckVideoDuration(Some(micros)).0
    ensures FormatTime(CheckVideoDuration(Some(micros)).1) == "0:31:40"
  {
    assert micros / MicrosPerSecond == MaxDurationSeconds;
    FormatTimeTruncates(micros);
    FormatLimit();
  }
}
