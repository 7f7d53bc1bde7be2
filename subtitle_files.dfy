/**
 The names under which demoIlimit.py saves subtitles. The base is the
 upload's name without its last extension (`os.path.splitext`, POSIX
 rules) or `youtube_` and the video ID; the original transcript goes to
 `{base}_original.srt` and the translation to `{base}_{slug}.srt`, where
 the slug is the language name lower-cased with spaces turned into
 underscores.
 */
module SubtitleFiles {
  import opened Text

  /** Position of the last `c` in `s`, or -1 (`str.rfind`). */
  function LastIndexOf(s: string, c: char): (i: int)
    ensures -1 <= i < |s|
    ensures i >= 0 ==> s[i] == c
    ensures forall j :: i < j < |s| ==> s[j] != c
    decreases |s|
  {
    if s == [] then -1
    else if s[|s| - 1] == c then |s| - 1
    else LastIndexOf(s[..|s| - 1], c)
  }

  /** Some character of `p[from..to]` is not a dot. */
  predicate HasNonDot(p: string, from: int, to: int)
    requires 0 <= from && to <= |p|
  {
    exists k :: from <= k < to && p[k] != '.'
  }

  /**
   Given the last dot of `p` at `dotIndex` (or -1), a dot after `sepIndex`
   that follows a character other than a dot exists exactly when the last
   dot lies after `sepIndex` and some character between them is not a dot.
   */
  lemma ExtensionRule(p: string, sepIndex: int, dotIndex: int)
    requires -1 <= sepIndex && -1 <= dotIndex < |p|
    requires dotIndex >= 0 ==> p[dotIndex] == '.'
    requires forall j :: dotIndex < j < |p| ==> p[j] != '.'
    ensures (dotIndex > sepIndex && HasNonDot(p, sepIndex + 1, dotIndex))
      <==> exists i, j :: sepIndex < i < j < |p| && p[i] != '.' && p[j] == '.'
  {
    if dotIndex > sepIndex && HasNonDot(p, sepIndex + 1, dotIndex) {
      var k :| sepIndex + 1 <= k < dotIndex && p[k] != '.';
      assert sepIndex < k < dotIndex < |p| && p[k] != '.' && p[dotIndex] == '.';
    }
    if exists i, j :: sepIndex < i < j < |p| && p[i] != '.' && p[j] == '.' {
      var i, j :| sepIndex < i < j < |p| && p[i] != '.' && p[j] == '.';
      assert j <= dotIndex;
      assert sepIndex + 1 <= i < dotIndex && p[i] != '.';
    }
  }

  /**
   `posixpath.splitext`: the extension is the last dot of the last path
   component and what follows it, provided a character other than a dot
   precedes it in that component; otherwise there is none. Nothing is
   lost, the extension holds one dot and no slash, the base is empty only
   for an empty name, and an extension is split off exactly when some
   non-dot of the last component is followed by a dot (so leading dots
   stay in the base).
   */
  function SplitExt(p: string): (r: (string, string))
    ensures r.0 + r.1 == p
    ensures r.1 == "" || (r.1[0] == '.' && forall k :: 1 <= k < |r.1| ==> r.1[k] != '.' && r.1[k] != '/')
    ensures r.0 == "" <==> p == ""
    ensures r.1 != "" <==> exists i, j :: LastIndexOf(p, '/') < i < j < |p| && p[i] != '.' && p[j] == '.'
  {
    var sepIndex := LastIndexOf(p, '/');
    var dotIndex := LastIndexOf(p, '.');
    ExtensionRule(p, sepIndex, dotIndex);
    if dotIndex > sepIndex && HasNonDot(p, sepIndex + 1, dotIndex) then
      assert p == p[..dotIndex] + p[dotIndex..];
      (p[..dotIndex], p[dotIndex..])
    else
      assert p + "" == p;
      (p, "")
  }

  /**
   `language.lower().replace(' ', '_')`: same length, a space becomes `_`,
   an ASCII capital becomes its small letter, and every other character is
   kept.
   */
  function LanguageSlug(language: string): (slug: string)
    ensures |slug| == |language|
    ensures forall i :: 0 <= i < |slug| ==> !('A' <= slug[i] <= 'Z') && slug[i] != ' '
    ensures forall i :: 0 <= i < |slug| && language[i] == ' ' ==> slug[i] == '_'
    ensures forall i :: 0 <= i < |slug| && 'A' <= language[i] <= 'Z' ==> slug[i] as int == language[i] as int + 32
    ensures forall i :: 0 <= i < |slug| && language[i] != ' ' && !('A' <= language[i] <= 'Z') ==> slug[i] == language[i]
  {
    ReplaceChar(Lower(language), ' ', '_')
  }

  /**
   The base of an uploaded file, `os.path.splitext(uploaded_file.name)[0]`:
   a prefix of the name, empty only for an empty name, and shorter than the
   name exactly when an extension was split off; what it drops is a dot
   followed by neither a dot nor a slash.
   */
  function UploadBase(fileName: string): (base: string)
    ensures |base| <= |fileName| && fileName[..|base|] == base
    ensures base == "" <==> fileName == ""
    ensures base != fileName <==> exists i, j :: LastIndexOf(fileName, '/') < i < j < |fileName| && fileName[i] != '.' && fileName[j] == '.'
    ensures base != fileName ==> fileName[|base|] == '.' && forall k :: |base| < k < |fileName| ==> fileName[k] != '.' && fileName[k] != '/'
  {
    var r := SplitExt(fileName);
    assert fileName[..|r.0|] == r.0 && fileName[|r.0|..] == r.1;
    r.0
  }

  /** The base of a YouTube video, `youtube_{video_id}`: the ID reads back after the eight-character prefix. */
  function YoutubeBase(videoId: string): (base: string)
    ensures |base| == 8 + |videoId| && base[..8] == "youtube_" && base[8..] == videoId
  {
    "youtube_" + videoId
  }

  /** `{base}_original.srt`: it splits back into `{base}_original` and the extension `.srt`. */
  function OriginalSubtitleName(base: string): (name: string)
    ensures SplitExt(name) == (base + "_original", ".srt")
    ensures name[..|base|] == base
  {
    var stem := base + "_original";
    SplitExtAppended(stem, "srt");
    assert "." + "srt" == ".srt";
    stem + "." + "srt"
  }

  /**
   `{base}_{slug}.srt`: the slug sits between the base's underscore and
   `.srt`, and for a language name without dot or slash the name splits
   back into `{base}_{slug}` and `.srt`.
   */
  function TranslatedSubtitleName(base: string, language: string): (name: string)
    ensures |name| == |base| + |language| + 5 && name[..|base|] == base && name[|base|] == '_'
    ensures name[|base| + 1..|name| - 4] == LanguageSlug(language) && name[|name| - 4..] == ".srt"
    ensures '.' !in language && '/' !in language ==>
      SplitExt(name) == (base + "_" + LanguageSlug(language), ".srt")
  {
    var stem := base + "_" + LanguageSlug(language);
    if '.' !in language && '/' !in language then
      SlugStemEnds(base, language);
      SplitExtAppended(stem, "srt");
      assert "." + "srt" == ".srt";
      stem + "." + "srt"
    else
      stem + "." + "srt"
  }

  /** A language name without dot or slash leaves `{base}_{slug}` ending in neither. */
  lemma SlugStemEnds(base: string, language: string)
    requires '.' !in language && '/' !in language
    ensures var stem := base + "_" + LanguageSlug(language);
      stem != "" && stem[|stem| - 1] != '.' && stem[|stem| - 1] != '/'
  {
    var slug := LanguageSlug(language);
    var stem := base + "_" + slug;
    if slug != "" {
      assert stem[|stem| - 1] == slug[|slug| - 1];
      assert language[|language| - 1] in language;
    }
  }

  /** The keys of `LANGUAGES`, the languages a user can pick. */
  const Languages: seq<string> := [
    "Arabic", "Chinese (Simplified)", "French", "German", "Hindi", "Italian", "Japanese",
    "Korean", "Portuguese", "Russian", "Spanish", "Swedish", "Turkish", "Vietnamese"
  ]

  /** Appending an extension to a name whose last character is neither a dot nor a slash is undone by `SplitExt`. */
  lemma SplitExtAppended(base: string, ext: string)
    requires base != "" && base[|base| - 1] != '.' && base[|base| - 1] != '/'
    requires '.' !in ext && '/' !in ext
    ensures SplitExt(base + "." + ext) == (base, "." + ext)
  {
    var p := base + "." + ext;
    assert p[|base|] == '.';
    assert forall j :: |base| < j < |p| ==> p[j] == ext[j - |base| - 1];
    assert LastIndexOf(p, '.') == |base|;
    assert LastIndexOf(p, '/') < |base| - 1 + 1 by {
      assert p[|base| - 1] != '/';
    }
    assert p[|base| - 1] != '.';
    assert HasNonDot(p, LastIndexOf(p, '/') + 1, |base|);
    assert p[..|base|] == base && p[|base|..] == "." + ext;
  }

  /** Only the last extension goes: `clip.final.mp4` has base `clip.final`. */
  lemma OnlyLastExtension()
    ensures UploadBase("clip.final.mp4") == "clip.final"
  {
    SplitExtAppended("clip.final", "mp4");
    assert "clip.final" + "." + "mp4" == "clip.final.mp4";
  }

  /** A leading dot does not start an extension: `.mp4` has no extension. */
  lemma HiddenNameHasNoExtension()
    ensures UploadBase(".mp4") == ".mp4"
  {
    var p := ".mp4";
    assert LastIndexOf(p, '/') == -1;
    assert p[0] == '.' && p[1..] == "mp4";
    assert LastIndexOf(p, '.') == 0;
    assert !HasNonDot(p, 0, 0);
  }

  /** The slug sits between the base's underscore and `.srt`. */
  lemma SlugInName(base: string, language: string)
    ensures var name := TranslatedSubtitleName(base, language);
      name[|base| + 1..|name| - 4] == LanguageSlug(language)
    ensures var name := OriginalSubtitleName(base);
      name[|base| + 1..|name| - 4] == "original"
  {
    assert OriginalSubtitleName(base) == base + "_" + "original" + ".srt";
  }

  /** Two languages with different slugs never share a translated file name. */
  lemma TranslatedNamesDiffer(base: string, a: string, b: string)
    requires LanguageSlug(a) != LanguageSlug(b)
    ensures TranslatedSubtitleName(base, a) != TranslatedSubtitleName(base, b)
  {
    SlugInName(base, a);
    SlugInName(base, b);
  }

  /** The translation overwrites the original only for a language whose slug is `original`. */
  lemma TranslatedNameIsNotOriginal(base: string, language: string)
    requires LanguageSlug(language) != "original"
    ensures TranslatedSubtitleName(base, language) != OriginalSubtitleName(base)
  {
    SlugInName(base, language);
  }

  /** What one character of a language name becomes in its slug. */
  function SlugChar(c: char): char
  {
    if c == ' ' then '_' else AsciiLower(c)
  }

  lemma SlugAt(language: string, k: nat)
    requires k < |language|
    ensures LanguageSlug(language)[k] == SlugChar(language[k])
  {
  }

  /** The fourteen languages have pairwise different slugs, none of them `original`. */
  lemma LanguageSlugsDistinct(i: nat, j: nat)
    requires i < |Languages| && j < |Languages|
    ensures LanguageSlug(Languages[i]) != "original"
    ensures i != j ==> LanguageSlug(Languages[i]) != LanguageSlug(Languages[j])
  {
    var a := Languages[i];
    SlugAt(a, 0);
    assert |a| != |"original"| || SlugChar(a[0]) != 'o';
    if i != j {
      var b := Languages[j];
      SlugAt(b, 0);
      if |a| == |b| && a[0] == b[0] {
        SlugAt(a, 1);
        SlugAt(b, 1);
        assert SlugChar(a[1]) != SlugChar(b[1]);
      } else if |a| == |b| {
        assert SlugChar(a[0]) != SlugChar(b[0]);
      }
    }
  }

  /**
   For any base, the fifteen files a run can write (the original and one
   per language) have pairwise different names.
   */
  lemma SubtitleNamesDistinct(base: string, i: nat, j: nat)
    requires i < |Languages| && j < |Languages|
    ensures TranslatedSubtitleName(base, Languages[i]) != OriginalSubtitleName(base)
    ensures i != j ==> TranslatedSubtitleName(base, Languages[i]) != TranslatedSubtitleName(base, Languages[j])
  {
    LanguageSlugsDistinct(i, j);
    TranslatedNameIsNotOriginal(base, Languages[i]);
    if i != j {
      TranslatedNamesDiffer(base, Languages[i], Languages[j]);
    }
  }

  /**
   A video ID may hold `/` (see `YoutubeUrl.ShortsPathExample`), and the
   file name built from it then names a file inside a `youtube_shorts`
   directory instead of a file in the working directory.
   */
  lemma YoutubeNameMayHoldSlash(tail: string)
    ensures '/' in OriginalSubtitleName(YoutubeBase("shorts/" + tail))
  {
    assert OriginalSubtitleName(YoutubeBase("shorts/" + tail))[14] == '/';
  }
}
