/**
 The caller of `generate_srt_content` in demo.py. Each wrapped segment is
 sent for translation; a falsy answer (`None` after a failure, or an empty
 string) is dropped, the rest are kept in order, and subtitles are built
 only when something survived. The translation service is a parameter:
 `None` stands for a failed call.
 */
module TranslationPipeline {
  import opened Text
  import opened SrtCues

  /** `if translated_segment:` — a translation is kept when it exists and is non-empty. */
  predicate Survives(outcome: Option<string>)
  {
    outcome.Some? && outcome.value != ""
  }

  /** The translations the loop appends to `translated_segments`, in order. */
  function Survivors(outcomes: seq<Option<string>>): (kept: seq<string>)
    ensures |kept| <= |outcomes|
    ensures forall i :: 0 <= i < |kept| ==> kept[i] != ""
  {
    if outcomes == [] then []
    else
      var last := outcomes[|outcomes| - 1];
      Survivors(outcomes[..|outcomes| - 1]) + (if Survives(last) then [last.value] else [])
  }

  /** What the service answers for each segment, in order. */
  function Outcomes(segments: seq<string>, translate: string -> Option<string>): seq<Option<string>>
  {
    seq(|segments|, i requires 0 <= i < |segments| => translate(segments[i]))
  }

  /** The loop that fills `translated_segments`. */
  method TranslateSegments(segments: seq<string>, translate: string -> Option<string>)
    returns (translated: seq<string>)
    ensures translated == Survivors(Outcomes(segments, translate))
  {
    translated := [];
    var i := 0;
    while i < |segments|
      invariant 0 <= i <= |segments|
      invariant translated == Survivors(Outcomes(segments[..i], translate))
    {
      var outcome := translate(segments[i]);
      assert Outcomes(segments[..i + 1], translate)[..i] == Outcomes(segments[..i], translate);
      if Survives(outcome) {
        translated := translated + [outcome.value];
      }
      i := i + 1;
    }
    assert segments[..|segments|] == segments;
  }

  /**
   Translate, then build the cues with the default five-second duration
   only when some translation survived; `None` stands for the branch that
   shows nothing.
   */
  method TranslateAndGenerate(segments: seq<string>, translate: string -> Option<string>)
    returns (cues: Option<seq<Cue>>)
    ensures cues.None? <==> Survivors(Outcomes(segments, translate)) == []
    ensures cues.Some? ==> cues.value == CueList(Survivors(Outcomes(segments, translate)), DefaultSegmentMillis)
    ensures cues.Some? ==> 0 < |cues.value| <= |segments|
  {
    var translated := TranslateSegments(segments, translate);
    if translated != [] {
      var subs := GenerateSrtContent(translated, segments, DefaultSegmentMillis);
      cues := Some(subs);
    } else {
      cues := None;
    }
  }

  /** A translation reaches the subtitles exactly when some segment's answer was it and it is non-empty. */
  lemma {:induction false} SurvivorsMember(outcomes: seq<Option<string>>, text: string)
    ensures text in Survivors(outcomes) <==> text != "" && Some(text) in outcomes
  {
    if outcomes != [] {
      var init, last := outcomes[..|outcomes| - 1], outcomes[|outcomes| - 1];
      assert outcomes == init + [last];
      SurvivorsMember(init, text);
    }
  }

  /** Filtering works segment by segment, so the survivors keep their relative order. */
  lemma {:induction false} SurvivorsAppend(a: seq<Option<string>>, b: seq<Option<string>>)
    ensures Survivors(a + b) == Survivors(a) + Survivors(b)
    decreases |b|
  {
    if b == [] {
      assert a + b == a;
    } else {
      assert (a + b)[..|a + b| - 1] == a + b[..|b| - 1];
      SurvivorsAppend(a, b[..|b| - 1]);
    }
  }

  /** When every call succeeds with a non-empty text, nothing is dropped. */
  lemma {:induction false} AllSurvive(outcomes: seq<Option<string>>)
    requires forall i :: 0 <= i < |outcomes| ==> outcomes[i].Some? && outcomes[i].value != ""
    ensures |Survivors(outcomes)| == |outcomes|
    ensures forall i :: 0 <= i < |outcomes| ==> Survivors(outcomes)[i] == outcomes[i].value
  {
    if outcomes != [] {
      AllSurvive(outcomes[..|outcomes| - 1]);
    }
  }

  /** A failed or empty answer contributes nothing, wherever it falls. */
  lemma SkipFailed(before: seq<Option<string>>, failed: Option<string>, after: seq<Option<string>>)
    requires !Survives(failed)
    ensures Survivors(before + [failed] + after) == Survivors(before + after)
  {
    SurvivorsAppend(before + [failed], after);
    SurvivorsAppend(before, [failed]);
    SurvivorsAppend(before, after);
    assert Survivors([failed]) == [] by {
      assert [failed][..0] == [];
    }
  }

  /**
   A dropped segment leaves no gap: the cues are those built as if the
   failed segment had never been sent, so the next survivor takes its
   place in the numbering and in the timeline.
   */
  lemma DroppedSegmentLeavesNoGap(before: seq<Option<string>>, failed: Option<string>, after: seq<Option<string>>, segmentMillis: nat)
    requires !Survives(failed)
    ensures CueList(Survivors(before + [failed] + after), segmentMillis) == CueList(Survivors(before + after), segmentMillis)
  {
    SkipFailed(before, failed, after);
  }
}
