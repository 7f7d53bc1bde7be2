# Video subtitle translator: verified model of the deterministic core

The repository holds two Streamlit pages that transcribe a video, translate
the subtitles with Gemini and offer them for download. Around the UI and the
calls to outside services, a few routines are plain string and integer
logic. This project models those routines in Dafny and proves what they
promise:

- from `demoIlimit.py`:
  - `format_time`;
  - the YouTube URL pattern shared by `is_valid_youtube_url` and `get_youtube_video_id`;
  - the 1900-second duration limit in `download_youtube_audio` and `check_video_duration`;
  - the line filter that builds the language-detection sample in `is_english`;
  - the quality-to-temperature choice of `translate_content`, and how `main` picks the quality;
  - the names of the subtitle files written by `main`;
- from `demo.py`:
  - `generate_srt_content`;
  - the loop that drops failed translations before calling it.

Modules, one per file:

| file | module | models |
|---|---|---|
| `text.dfy` | `Text` | Python string helpers: decimal rendering and parsing, `split`/`join`, `strip`, `isdigit`, `in`, `lower`, `replace` |
| `time_format.dfy` | `TimeFormat` | `str(timedelta)` and `format_time` |
| `youtube_url.dfy` | `YoutubeUrl` | the URL pattern, both as Python's backtracking matcher and as a language |
| `duration_limit.dfy` | `DurationLimit` | the two duration checks |
| `language_sample.dfy` | `LanguageSample` | the sample loop of `is_english` |
| `translation_quality.dfy` | `TranslationQuality` | temperature selection and the quality actually used |
| `subtitle_files.dfy` | `SubtitleFiles` | `os.path.splitext` and the subtitle file names |
| `srt_cues.dfy` | `SrtCues` | `generate_srt_content` |
| `translation_pipeline.dfy` | `TranslationPipeline` | the translate-then-generate step of `demo.py` |

Representation choices:
- Durations are natural numbers of microseconds (`timedelta` resolution) or
  milliseconds (SRT stamps).
- Temperatures are tenths.
- Outside services are parameters. A translator or language detector is a
  function returning `Option<string>`, where `None` stands for an exception.
  A moviepy probe is an `Option<nat>`.
- Loops that build lists (`is_english`, `generate_srt_content`, the
  translation loop) are methods with loop invariants. Each is proved equal
  to a specification function, and the properties are proved about that
  function.

Where the model reads the code more precisely than its description:
- `translation_quality` is always `"Équilibrée"` at the call.
  - `main` assigns that value just before it consults `locals()`, so the
    lookup reads it back and the slider's choice never reaches
    `translate_content`.
  - See `TranslationQuality.QualityAtCall`.
- A `/youtube.com/shorts/` link is accepted.
  - The ID group `[^&=%\?]{11}` admits `/`, so it yields `shorts/` and the
    first four characters of the real ID.
  - Such an ID puts a `/` into the subtitle file name.
  - See `YoutubeUrl.ShortsPathExample` and `SubtitleFiles.YoutubeNameMayHoldSlash`.
- An upload a fraction of a second over 1900 s is refused. The message then
  shows the duration `0:31:40`, because `format_time` truncates.

## Model

| member | source | states |
|---|---|---|
| TimeFormat.FormatTime | demoIlimit.py:307-309 | the formatted duration never holds a `.`: the `split('.')[0]` removes the fraction |
| TimeFormat.TimedeltaString | demoIlimit.py:309 | `str(timedelta)` holds a dot exactly when the duration has a fraction of a second, and never more than one |
| TimeFormat.FormatTimeTruncates | demoIlimit.py:309 | the fraction of a second is dropped, never rounded: a duration formats exactly as its whole seconds do |
| TimeFormat.FormatTimeFields | demoIlimit.py:307-309 | below one day the text is `H:MM:SS`: an hour field with no leading zero, minutes and seconds of exactly two digits below 60, and fields that add up to the whole seconds |
| TimeFormat.FormatTimeRoundTrip | demoIlimit.py:307-309 | reading `H:MM:SS` back gives the whole seconds of every duration below one day |
| TimeFormat.FormatLimit | demoIlimit.py:335 | `format_time(1900)` is `0:31:40`, also with up to 999999 extra microseconds |
| TimeFormat.FormatOverOneDay | demoIlimit.py:309 | from one day on, `timedelta` puts a day count in front: 90000 s formats as `1 day, 1:00:00` |
| TimeFormat.FormatTwoDays | demoIlimit.py:309 | the day count takes a plural: two days format as `2 days, 0:00:00` |
| YoutubeUrl.GetYoutubeVideoId | demoIlimit.py:317-323 | an ID is returned exactly when `is_valid_youtube_url` accepts the URL, and it is 11 characters, none of `&`, `=`, `%`, `?` |
| YoutubeUrl.MatchYoutube | demoIlimit.py:313-314 | where the match succeeds, group 6 starts at a place holding 11 ID characters |
| YoutubeUrl.IsValidYoutubeUrl | demoIlimit.py:311-315 | a URL is valid exactly when some way of cutting a prefix of it into the seven parts of the pattern exists |
| YoutubeUrl.MatchYoutubeIffMatches | demoIlimit.py:313-314 | the backtracking matcher succeeds exactly when the pattern, read as a language, matches a prefix |
| YoutubeUrl.MatchYoutubeSound | demoIlimit.py:313-314 | each match the matcher finds is a match of the pattern read as a language |
| YoutubeUrl.MatchYoutubeComplete | demoIlimit.py:313-314 | whenever the pattern matches some prefix, the matcher finds a match |
| YoutubeUrl.LeadMatchesIffPathStart | demoIlimit.py:313 | `(https?://)?(www\.)?(youtube\|youtu\|youtube-nocookie)\.(com\|be)/` matches `url[..k]` exactly when the matcher puts the path at `k`: the prefix is cut in one way only |
| YoutubeUrl.QueryPathText | demoIlimit.py:313 | the `.+\?v=` alternative covers exactly the texts that end in `?v=` and hold no newline before it |
| YoutubeUrl.VideoIdIsGroupSix | demoIlimit.py:322 | the returned ID is the text of group 6 of a match of the pattern |
| YoutubeUrl.AcceptsAnySuffix | demoIlimit.py:314 | the match is not anchored at the end: any text after an accepted URL is still accepted |
| YoutubeUrl.AnchoredAtStart | demoIlimit.py:314 | the match is anchored at the start: an accepted URL begins with `http`, `www.` or `youtu` |
| YoutubeUrl.WatchLinkYieldsId | demoIlimit.py:313-322 | `https://www.youtube.com/watch?v=` followed by any valid ID yields that ID |
| YoutubeUrl.ShortLinkYieldsId | demoIlimit.py:313-322 | `youtu.be/` followed by any valid ID yields that ID |
| YoutubeUrl.ShortsPathExample | demoIlimit.py:313-322 | `youtube.com/shorts/` followed by an ID yields `shorts/` and the ID's first four characters |
| YoutubeUrl.OtherHostExample | demoIlimit.py:313-323 | a Vimeo link yields no ID |
| DurationLimit.DownloadLengthError | demoIlimit.py:325-335 | the download is refused exactly when the length exceeds `max_duration`, with the message naming the limit through `format_time` |
| DurationLimit.CheckVideoDuration | demoIlimit.py:353-370 | an upload passes exactly when the probe succeeded and measured at most 1900 s; a failed probe gives `(False, 0)`; the duration is passed through |
| DurationLimit.LimitBoundary | demoIlimit.py:334-367 | exactly 1900 s passes both checks and 1901 s fails both |
| DurationLimit.ChecksAgree | demoIlimit.py:325-367 | on whole seconds, the YouTube check with its default limit and the upload check accept the same lengths |
| DurationLimit.DefaultErrorMessage | demoIlimit.py:335 | with the default limit the refusal message names `0:31:40` |
| DurationLimit.RefusedUploadShowsLimit | demoIlimit.py:828-830 | an upload between 1900 s and 1901 s is refused while the duration shown beside the refusal reads `0:31:40` |
| LanguageSample.KeptLines | demoIlimit.py:390-393 | no more lines are kept than were given, and every kept line passes the filter |
| LanguageSample.KeepLine | demoIlimit.py:392 | a kept line is never empty, never a bare cue number (all digits) and never a timing line holding `-->` |
| LanguageSample.SampleLines | demoIlimit.py:395 | the sample holds at most twenty lines, each passing the filter |
| LanguageSample.DetectionSample | demoIlimit.py:390-395 | the loop and join produce the first twenty kept lines joined by single spaces |
| LanguageSample.IsEnglish | demoIlimit.py:383-398 | the text counts as English exactly when the detector returns `en` for the sample; a detector failure gives false |
| LanguageSample.KeptLinesMember | demoIlimit.py:392 | a line is kept exactly when it is a line of the input that is non-empty, not all digits once stripped, and free of `-->` |
| LanguageSample.KeptLinesAppend | demoIlimit.py:391-393 | filtering works line by line, so kept lines stay in input order |
| LanguageSample.KeptLinesAllKept | demoIlimit.py:391-393 | lines that all pass the filter are kept unchanged |
| LanguageSample.SampleLinesShape | demoIlimit.py:395 | the sample is the first `min(20, kept)` kept lines, each a line of the text that passes the filter |
| LanguageSample.CueBlockKeepsOnlyText | demoIlimit.py:388-393 | of a SubRip block, only the text line survives: the cue number, the timing line and the blank line are dropped |
| LanguageSample.StripEffects | demoIlimit.py:392 | a padded number such as ` 12 ` or `7\r` is dropped, while a line of spaces is kept |
| TranslationQuality.TemperatureTenths | demoIlimit.py:405-410 | `Précise` gives 0.1, `Rapide` 0.4, and every other string 0.2, each in both directions |
| TranslationQuality.QualityAtCall | demoIlimit.py:881-886 | whatever `locals()` held, the quality passed to `translate_content` is `Équilibrée`, so the temperature is 0.2 (same code at 1105-1110) |
| TranslationQuality.SliderCoolsTowardsPrecise | demoIlimit.py:581-586 | along the slider's options, from `Rapide` to `Précise`, the temperature strictly falls |
| SubtitleFiles.SplitExt | demoIlimit.py:825 | `os.path.splitext` loses nothing; an extension is split off exactly when some non-dot of the last path component is followed by a dot, so leading dots stay in the base; the extension is one dot followed by no dot or slash; the base is empty only for an empty name |
| SubtitleFiles.LastIndexOf | demoIlimit.py:825 | the position found holds the character and no later position does |
| SubtitleFiles.LanguageSlug | demoIlimit.py:896 | `lower().replace(' ', '_')` keeps the length, turns each space into `_` and each ASCII capital into its small letter, and keeps every other character |
| SubtitleFiles.UploadBase | demoIlimit.py:825 | the base of an upload is a prefix of its name, empty only for an empty name, and shorter exactly when an extension is split off; what it drops is a dot followed by neither dot nor slash |
| SubtitleFiles.YoutubeBase | demoIlimit.py:1096 | `youtube_{video_id}`: the ID reads back after the eight-character prefix |
| SubtitleFiles.OriginalSubtitleName | demoIlimit.py:872 | `{base}_original.srt` starts with the base and splits back into `{base}_original` and `.srt` |
| SubtitleFiles.TranslatedSubtitleName | demoIlimit.py:896 | `{base}_{slug}.srt` is the base, `_`, the slug and `.srt`, and for a language without dot or slash splits back into `{base}_{slug}` and `.srt` (same f-string at 1120) |
| SubtitleFiles.SplitExtAppended | demoIlimit.py:825 | a name plus `.ext` splits back into that name and `.ext` |
| SubtitleFiles.OnlyLastExtension | demoIlimit.py:825 | only the last extension goes: `clip.final.mp4` has base `clip.final` |
| SubtitleFiles.HiddenNameHasNoExtension | demoIlimit.py:825 | a leading dot starts no extension: `.mp4` keeps its whole name |
| SubtitleFiles.SlugInName | demoIlimit.py:872-896 | between the base's underscore and `.srt` stands the slug, or `original` |
| SubtitleFiles.TranslatedNamesDiffer | demoIlimit.py:896 | languages with different slugs never share a translated file name |
| SubtitleFiles.TranslatedNameIsNotOriginal | demoIlimit.py:872-896 | a translation overwrites the original only for a language whose slug is `original` |
| SubtitleFiles.LanguageSlugsDistinct | demoIlimit.py:290-305 | the fourteen offered languages have pairwise different slugs, none of them `original` |
| SubtitleFiles.SubtitleNamesDistinct | demoIlimit.py:872-896 | for any base, the original and the fourteen translations have pairwise different names |
| SubtitleFiles.YoutubeNameMayHoldSlash | demoIlimit.py:1096 | a `youtube_{video_id}` name whose ID starts with `shorts/` holds a `/` |
| SrtCues.GenerateSrtContent | demo.py:101-118 | the loop's list is the cue list: cue `k` has index `k + 1`, the stamps of `k * d` and `(k + 1) * d`, and the `k`-th segment; the source segments are never read |
| SrtCues.TimeOfDay | demo.py:111-112 | the time of day is below 24 hours |
| SrtCues.ClockOf | demo.py:111-112 | hours below 24, minutes and seconds below 60, milliseconds below 1000 |
| SrtCues.TimeOfDayIsMod | demo.py:111 | the time of day is the time modulo one day, as `gmtime` gives it |
| SrtCues.ClockIsGmtime | demo.py:109-112 | the fields are those of `gmtime(millis // 1000)` and `millis % 1000` |
| SrtCues.ClockValue | demo.py:109-112 | the fields add back up to the time of day |
| SrtCues.ParseRender | demo.py:111-112 | a rendered clock reads back as its value in milliseconds |
| SrtCues.StampRoundTrip | demo.py:109-112 | reading a stamp back gives the time modulo one day: the hours wrap at 24 |
| SrtCues.Stamp | demo.py:111-112 | every stamp is twelve characters laid out `HH:MM:SS,mmm`, digits everywhere but the two colons and the comma |
| SrtCues.StampWrapsDaily | demo.py:111 | adding a whole day changes no stamp |
| SrtCues.WholeSecondsGiveZeroMillis | demo.py:109-112 | a whole-second time ends in `,000` |
| SrtCues.StampAtZero | demo.py:111 | time 0 is `00:00:00,000` |
| SrtCues.StampAtFiveSeconds | demo.py:112 | 5 s is `00:00:05,000` |
| SrtCues.CueList | demo.py:106-116 | one cue per segment, in order, numbered `k + 1` and carrying the `k`-th segment |
| SrtCues.CuesContiguous | demo.py:107-116 | each cue ends with the very stamp the next one starts with |
| SrtCues.CueStamps | demo.py:109-113 | cue `k` is stamped with `k * d` and `(k + 1) * d` |
| SrtCues.CueTimes | demo.py:107-116 | cue `k`'s stamps read back as `k * d` and `(k + 1) * d` modulo a day |
| SrtCues.LastCueEnd | demo.py:107-116 | the last cue ends at `n * d` modulo a day; nothing clamps it |
| SrtCues.CuesOrdered | demo.py:107-116 | within a day, cue `k` runs from `k * d` to `k * d + d`, so cues are contiguous and never overlap |
| SrtCues.DefaultCuesWholeSeconds | demo.py:101-113 | with the default 5 s every stamp ends in `,000` |
| SrtCues.FirstDefaultCue | demo.py:101-115 | the first default cue is `1`, `00:00:00,000` to `00:00:05,000`, with the first segment |
| TranslationPipeline.Survivors | demo.py:164-168 | no more translations survive than segments were sent, and none is empty |
| TranslationPipeline.TranslateSegments | demo.py:164-168 | the loop keeps exactly the non-empty answers, in order |
| TranslationPipeline.TranslateAndGenerate | demo.py:164-172 | cues are built only when something survived; they are the cue list of the survivors with 5 s each, and there are at most as many as segments |
| TranslationPipeline.SurvivorsMember | demo.py:166-168 | a text survives exactly when it is non-empty and some segment's answer was it |
| TranslationPipeline.SurvivorsAppend | demo.py:165-168 | filtering works segment by segment, so survivors keep their relative order |
| TranslationPipeline.AllSurvive | demo.py:165-168 | when every answer is a non-empty text, nothing is dropped |
| TranslationPipeline.SkipFailed | demo.py:167 | a failed or empty answer contributes nothing, wherever it falls |
| TranslationPipeline.DroppedSegmentLeavesNoGap | demo.py:164-172 | the cues are those built as if a failed segment had never been sent, so it leaves no gap in numbering or timeline |
| Text.SplitJoin | demoIlimit.py:391 | `split` and `join` with the same separator undo each other |
| Text.ParseZeroPad | demo.py:112 | a zero-padded number reads back as itself |

## Left out

- The Streamlit UI: page setup, CSS, sidebar, tabs, radio and session state, progress bars, spinners, the HTML embed and the statistics card. This is presentation only.
- Outside services are modelled only as inputs: AssemblyAI transcription, Gemini, langdetect, the pytube download and the moviepy probe. They are network or codec calls. `get_video_info` and `translate_text_with_gemini` in `demo.py` are inputs in the same way.
- The `srt` library (`Subtitle`, `get_timedelta`, `compose`) and `textwrap.wrap` are not part of this model. Cues are kept as the stamp strings the code builds, and the model stops at the cue list. `ParseStamp` and `ParseClock` are the model's own readers, written as partners for the round trips.
- Floating point: durations are whole microseconds or milliseconds and temperatures are tenths. `demo.py` accumulates `start_time_seconds` as an integer by default and truncates with `int(...)`. The model covers whole-millisecond durations only.
- Negative durations: `format_time` and the stamps are modelled for non-negative values only.
- `Text.IsDigitString` and `Text.Lower` cover ASCII digits and capitals only. Python's `isdigit` and `lower` also act on other Unicode characters. The fourteen language names are ASCII.
- `SubtitleFiles.SplitExt` follows POSIX path rules. A Windows host also splits at `\`.
- File writes, base64 download links and temporary files are I/O.
- `get_random_wisdom` uses randomness.
- `DurationLimit.DownloadLengthError` models only the length comparison and its message. The refusal branch returns a pair while the caller unpacks three values, which Python reports as an unpacking error at run time; that error is not modelled.
- The language pickers and `demo.py`'s download file name are UI wiring.
