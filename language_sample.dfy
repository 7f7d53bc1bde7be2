/**
 The sample `is_english` in demoIlimit.py hands to language detection. The
 SubRip text is split into lines; a line is kept when it is non-empty, is
 not all digits once stripped (a cue number) and holds no `-->` (a timing
 line). The first twenty kept lines, joined by single spaces, form the
 sample. The detector itself is a parameter: `None` stands for an exception,
 which `is_english` turns into `False`.
 */
module LanguageSample {
  import opened Text

  const SampleLineCount: nat := 20

  /** A run of digits has no surrounding whitespace, so `strip()` leaves it as it is. */
  lemma StripDigits(line: string)
    ensures IsDigitString(line) ==> Strip(line) == line
  {
    if IsDigitString(line) {
      assert !IsPythonSpace(line[0]) && !IsPythonSpace(line[|line| - 1]);
      assert TrimStart(line) == line;
    }
  }

  /**
   The filter of the loop: `line and not line.strip().isdigit() and '-->'
   not in line`. A kept line is never empty, never a bare cue number and
   never a timing line.
   */
  predicate KeepLine(line: string): (keep: bool)
    ensures keep ==> line != "" && !IsDigitString(line) && !Contains(line, "-->")
  {
    StripDigits(line);
    line != "" && !IsDigitString(Strip(line)) && !Contains(line, "-->")
  }

  /** The lines the loop appends to `text_lines`, in order. */
  function KeptLines(lines: seq<string>): (kept: seq<string>)
    ensures |kept| <= |lines|
    ensures forall i :: 0 <= i < |kept| ==> KeepLine(kept[i])
  {
    if lines == [] then []
    else
      var last := lines[|lines| - 1];
      KeptLines(lines[..|lines| - 1]) + (if KeepLine(last) then [last] else [])
  }

  /** `text_lines[:20]` for the lines of `text`: at most twenty lines, each passing the filter. */
  function SampleLines(text: string): (sample: seq<string>)
    ensures |sample| <= SampleLineCount
    ensures forall i :: 0 <= i < |sample| ==> KeepLine(sample[i])
  {
    var kept := KeptLines(Split(text, '\n'));
    if |kept| <= SampleLineCount then kept else kept[..SampleLineCount]
  }

  /** The loop of `is_english` and the join that follows it. */
  method DetectionSample(text: string) returns (sample: string)
    ensures sample == Join(" ", SampleLines(text))
  {
    var lines := Split(text, '\n');
    var textLines: seq<string> := [];
    var i := 0;
    while i < |lines|
      invariant 0 <= i <= |lines|
      invariant textLines == KeptLines(lines[..i])
    {
      var line := lines[i];
      assert lines[..i + 1][..i] == lines[..i];
      if KeepLine(line) {
        textLines := textLines + [line];
      }
      i := i + 1;
    }
    assert lines[..|lines|] == lines;
    var first := if |textLines| <= SampleLineCount then textLines else textLines[..SampleLineCount];
    sample := Join(" ", first);
  }

  /**
   `is_english`: true exactly when the detector returns `'en'` for the
   sample; a detector failure (`None`) gives false.
   */
  method IsEnglish(text: string, detect: string -> Option<string>) returns (english: bool)
    ensures english <==> detect(Join(" ", SampleLines(text))) == Some("en")
    ensures detect(Join(" ", SampleLines(text))).None? ==> !english
  {
    var sample := DetectionSample(text);
    match detect(sample)
    case None =>
      english := false;
    case Some(language) =>
      english := language == "en";
  }

  /** A line is kept exactly when it passes the filter. */
  lemma {:induction false} KeptLinesMember(lines: seq<string>, line: string)
    ensures line in KeptLines(lines) <==> line in lines && KeepLine(line)
  {
    if lines != [] {
      var init, last := lines[..|lines| - 1], lines[|lines| - 1];
      assert lines == init + [last];
      KeptLinesMember(init, line);
    }
  }

  /** Filtering works line by line, so the kept lines keep their order. */
  lemma {:induction false} KeptLinesAppend(a: seq<string>, b: seq<string>)
    ensures KeptLines(a + b) == KeptLines(a) + KeptLines(b)
    decreases |b|
  {
    if b == [] {
      assert a + b == a;
    } else {
      var init, last := b[..|b| - 1], b[|b| - 1];
      assert (a + b)[..|a + b| - 1] == a + init;
      KeptLinesAppend(a, init);
    }
  }

  /** Lines that all pass the filter are kept as they are. */
  lemma {:induction false} KeptLinesAllKept(lines: seq<string>)
    requires forall i :: 0 <= i < |lines| ==> KeepLine(lines[i])
    ensures KeptLines(lines) == lines
  {
    if lines != [] {
      KeptLinesAllKept(lines[..|lines| - 1]);
    }
  }

  /**
   The sample holds at most twenty lines, each a line of the text that
   passes the filter; it is the first twenty kept lines, or all of them
   when there are fewer.
   */
  lemma SampleLinesShape(text: string)
    ensures var kept := KeptLines(Split(text, '\n'));
      && |SampleLines(text)| == (if |kept| <= SampleLineCount then |kept| else SampleLineCount)
      && SampleLines(text) == kept[..|SampleLines(text)|]
    ensures forall i :: 0 <= i < |SampleLines(text)| ==>
      KeepLine(SampleLines(text)[i]) && SampleLines(text)[i] in Split(text, '\n')
  {
    var lines := Split(text, '\n');
    var kept := KeptLines(lines);
    forall i | 0 <= i < |SampleLines(text)|
      ensures KeepLine(SampleLines(text)[i]) && SampleLines(text)[i] in lines
    {
      assert SampleLines(text)[i] == kept[i];
      assert kept[i] in kept;
      KeptLinesMember(lines, kept[i]);
    }
  }

  /** Of a SubRip block, only the text line reaches the sample: the cue number and the timing line are dropped. */
  lemma CueBlockKeepsOnlyText(number: string, timing: string, words: string)
    requires IsDigitString(number)
    requires Contains(timing, "-->")
    requires KeepLine(words)
    ensures KeptLines([number, timing, words, ""]) == [words]
  {
    var block := [number, timing, words, ""];
    assert block[..3] == [number, timing, words];
    assert [number, timing, words][..2] == [number, timing];
    assert [number, timing][..1] == [number];
    assert [number][..0] == [];
    assert KeptLines([number]) == [];
    assert KeptLines([number, timing]) == [];
    assert KeptLines([number, timing, words]) == [words];
  }

  /** `strip()` makes a padded cue number count as digits, while a blank line of spaces is kept. */
  lemma StripEffects()
    ensures !KeepLine(" 12 ")
    ensures !KeepLine("7\r")
    ensures KeepLine("   ")
  {
    assert Strip(" 12 ") == "12" by {
      assert TrimStart(" 12 ") == "12 ";
      assert TrimEnd("12 ") == "12";
    }
    assert Strip("7\r") == "7" by {
      assert TrimEnd("7\r") == "7";
    }
    assert Strip("   ") == "" by {
      assert TrimStart("   ") == TrimStart("  ") == TrimStart(" ") == "";
    }
    assert !Contains("   ", "-->");
  }
}
