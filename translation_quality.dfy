/**
 The quality setting of demoIlimit.py. `translate_content` turns a quality
 name into a sampling temperature (held here in tenths: 1, 2 or 4 for 0.1,
 0.2 and 0.4). `main` reads a quality from the sidebar slider, but before
 each call it rebinds the local `translation_quality` to `"Équilibrée"` and
 only then asks `locals()` for it, so the slider never reaches the call.
 */
module TranslationQuality {

  const Precise: string := "Précise"
  const Balanced: string := "Équilibrée"
  const Fast: string := "Rapide"

  /** The slider's options, left to right. */
  const SliderOptions: seq<string> := [Fast, Balanced, Precise]

  /**
   The `if`/`elif`/`else` of `translate_content`: the precise setting is the
   coolest, the fast one the warmest, and every other name, known or not,
   falls back to the balanced 0.2.
   */
  function TemperatureTenths(quality: string): (tenths: nat)
    ensures tenths == 1 <==> quality == Precise
    ensures tenths == 4 <==> quality == Fast
    ensures tenths == 2 <==> quality != Precise && quality != Fast
  {
    if quality == Precise then 1 else if quality == Fast then 4 else 2
  }

  /**
   The lines of `main` before each `translate_content` call. `frame` is
   `locals()` as it was on entry (holding the slider's choice when the
   sidebar ran); the assignment rebinds the name, so the membership test
   always succeeds and reads back the value just assigned.
   */
  method QualityAtCall(frame: map<string, string>) returns (quality: string)
    ensures quality == Balanced
    ensures TemperatureTenths(quality) == 2
  {
    var locals := frame["translation_quality" := Balanced];
    quality := Balanced;
    if "translation_quality" in locals {
      quality := locals["translation_quality"];
    }
  }

  /** Along the slider, from fast to precise, the temperature strictly falls. */
  lemma SliderCoolsTowardsPrecise(i: nat, j: nat)
    requires i < j < |SliderOptions|
    ensures TemperatureTenths(SliderOptions[i]) > TemperatureTenths(SliderOptions[j])
  {
    assert Fast != Balanced && Balanced != Precise && Fast != Precise by {
      assert Fast[0] != Balanced[0] && Balanced[0] != Precise[0] && Fast[0] != Precise[0];
    }
  }
}
