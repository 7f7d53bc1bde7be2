/**
 `is_valid_youtube_url` and `get_youtube_video_id` of demoIlimit.py. Both run
 Python's `re.match` with the same pattern

   (https?://)?(www\.)?(youtube|youtu|youtube-nocookie)\.(com|be)/(watch\?v=|embed/|v/|.+\?v=)?([^&=%\?]{11})

 which is anchored at the start of the URL and not at its end.

 The matcher is modelled twice. `MatchYoutube` follows the order in which
 Python's backtracking engine tries the alternatives, so that it returns the
 same group 6 as Python. `Matches` is the pattern read as a language: some
 way of cutting a prefix of the URL into the seven parts exists. The lemmas
 show that the two agree on acceptance.
 */
module YoutubeUrl {
  import opened Text

  const IdLength: nat := 11

  /** `[^&=%\?]`: any character but these four (a newline included). */
  predicate IsIdChar(c: char) { c != '&' && c != '=' && c != '%' && c != '?' }

  /** Group 6, `[^&=%\?]{11}`, fits at position `m`. */
  predicate IdAt(url: string, m: nat)
  {
    m + IdLength <= |url| && forall j :: m <= j < m + IdLength ==> IsIdChar(url[j])
  }

  predicate LitAt(url: string, i: nat, lit: string)
  {
    i + |lit| <= |url| && url[i..i + |lit|] == lit
  }

  // ---------------------------------------------------------------------
  // The matcher, in the order Python's engine tries things

  /** `(https?://)?`: greedy, so taken whenever it is there. */
  function SchemeEnd(url: string): nat
  {
    if LitAt(url, 0, "https://") then 8 else if LitAt(url, 0, "http://") then 7 else 0
  }

  /** `(www\.)?` from position `i`. */
  function WwwEnd(url: string, i: nat): nat
  {
    if LitAt(url, i, "www.") then i + 4 else i
  }

  /** `(youtube|youtu|youtube-nocookie)\.` from position `i`, alternatives in order. */
  function HostEnd(url: string, i: nat): (r: Option<nat>)
    ensures r.Some? ==> i < r.value <= |url|
  {
    if LitAt(url, i, "youtube.") then Some(i + 8)
    else if LitAt(url, i, "youtu.") then Some(i + 6)
    else if LitAt(url, i, "youtube-nocookie.") then Some(i + 17)
    else None
  }

  /** `(com|be)/` from position `i`. */
  function DomainEnd(url: string, i: nat): (r: Option<nat>)
    ensures r.Some? ==> i < r.value <= |url|
  {
    if LitAt(url, i, "com/") then Some(i + 4) else if LitAt(url, i, "be/") then Some(i + 3) else None
  }

  /** Where the path part (group 5) starts, if groups 1 to 4 and the slash match. */
  function PathStart(url: string): (r: Option<nat>)
    ensures r.Some? ==> r.value <= |url|
  {
    match HostEnd(url, WwwEnd(url, SchemeEnd(url)))
    case None => None
    case Some(j) => DomainEnd(url, j)
  }

  /** How far `.+` can reach from `k`: up to the first newline, or the end. */
  function LineEnd(url: string, k: nat): (e: nat)
    requires k <= |url|
    ensures k <= e <= |url|
    ensures e < |url| ==> url[e] == '\n'
    ensures forall j :: k <= j < e ==> url[j] != '\n'
    decreases |url| - k
  {
    if k == |url| || url[k] == '\n' then k else LineEnd(url, k + 1)
  }

  /**
   `.+\?v=` followed by group 6, with `.+` covering `url[k..j]`: greedy, so
   `j` is tried from the farthest point down to `k + 1`. Returns where group 6
   starts.
   */
  function QuerySplit(url: string, k: nat, j: nat): (r: Option<nat>)
    ensures r.Some? ==> k + 4 <= r.value <= j + 3 && LitAt(url, r.value - 3, "?v=") && IdAt(url, r.value)
    decreases j
  {
    if j <= k then None
    else if LitAt(url, j, "?v=") && IdAt(url, j + 3) then Some(j + 3)
    else QuerySplit(url, k, j - 1)
  }

  /** Group 5 then group 6 from position `k`: the four alternatives in order, then none. */
  function IdStart(url: string, k: nat): (r: Option<nat>)
    requires k <= |url|
    ensures r.Some? ==> k <= r.value && IdAt(url, r.value)
  {
    if LitAt(url, k, "watch?v=") && IdAt(url, k + 8) then Some(k + 8)
    else if LitAt(url, k, "embed/") && IdAt(url, k + 6) then Some(k + 6)
    else if LitAt(url, k, "v/") && IdAt(url, k + 2) then Some(k + 2)
    else
      match QuerySplit(url, k, LineEnd(url, k))
      case Some(m) => Some(m)
      case None => if IdAt(url, k) then Some(k) else None
  }

  /** `re.match(youtube_regex, url)`: where group 6 starts, or no match. */
  function MatchYoutube(url: string): (r: Option<nat>)
    ensures r.Some? ==> IdAt(url, r.value)
  {
    match PathStart(url)
    case None => None
    case Some(k) => IdStart(url, k)
  }

  /** `is_valid_youtube_url`: true exactly when the pattern matches a prefix of the URL. */
  function IsValidYoutubeUrl(url: string): (valid: bool)
    ensures valid <==> Matches(url)
  {
    MatchYoutubeIffMatches(url);
    MatchYoutube(url).Some?
  }

  /**
   `get_youtube_video_id`: group 6 of the same match. A returned ID has
   exactly eleven characters, none of `&`, `=`, `%`, `?`, and it is there
   exactly when `is_valid_youtube_url` says yes.
   */
  function GetYoutubeVideoId(url: string): (id: Option<string>)
    ensures id.Some? <==> IsValidYoutubeUrl(url)
    ensures id.Some? ==> |id.value| == IdLength && forall i :: 0 <= i < |id.value| ==> IsIdChar(id.value[i])
  {
    match MatchYoutube(url)
    case None => None
    case Some(m) => Some(url[m..m + IdLength])
  }

  // ---------------------------------------------------------------------
  // The pattern as a language

  ghost predicate SchemeText(s: string) { s == "" || s == "http://" || s == "https://" }

  ghost predicate WwwText(s: string) { s == "" || s == "www." }

  ghost predicate HostText(s: string) { s == "youtube" || s == "youtu" || s == "youtube-nocookie" }

  ghost predicate DomainText(s: string) { s == "com" || s == "be" }

  /** Group 5: empty, one of three literals, or `.+\?v=` (at least one non-newline before `?v=`). */
  ghost predicate PathText(s: string)
  {
    || s == "" || s == "watch?v=" || s == "embed/" || s == "v/"
    || (|s| >= 4 && s[|s| - 3..] == "?v=" && forall j :: 0 <= j < |s| - 3 ==> s[j] != '\n')
  }

  /**
   `url[..k]` is cut as scheme `url[..a]`, `www.` part `url[a..b]`, host
   `url[b..c]`, a dot, domain `url[c + 1..k - 1]` and a slash.
   */
  ghost predicate LeadSplit(url: string, k: nat, a: nat, b: nat, c: nat)
  {
    && a <= b <= c && c + 1 < k <= |url|
    && SchemeText(url[..a]) && WwwText(url[a..b]) && HostText(url[b..c]) && url[c] == '.'
    && DomainText(url[c + 1..k - 1]) && url[k - 1] == '/'
  }

  /** `url[..k]` matches `(https?://)?(www\.)?(youtube|youtu|youtube-nocookie)\.(com|be)/`. */
  ghost predicate LeadMatches(url: string, k: nat)
  {
    exists a: nat, b: nat, c: nat :: LeadSplit(url, k, a, b, c)
  }

  /** Some way of matching the whole pattern at the start of `url` puts group 6 at `m`. */
  ghost predicate MatchesAt(url: string, m: nat)
  {
    IdAt(url, m) && exists k: nat :: k <= m && LeadMatches(url, k) && PathText(url[k..m])
  }

  /** `re.match(youtube_regex, url) is not None`, read as a language. */
  ghost predicate Matches(url: string)
  {
    exists m: nat :: MatchesAt(url, m)
  }

  // ---------------------------------------------------------------------
  // The two agree

  lemma LitFromSlice(url: string, i: nat, j: nat, lit: string)
    requires i <= j <= |url| && url[i..j] == lit
    ensures LitAt(url, i, lit)
  {
  }

  /** A literal is not at `i` when one of its characters differs from the URL's. */
  lemma NotLitAt(url: string, i: nat, lit: string, j: nat)
    requires j < |lit| && (i + j < |url| ==> url[i + j] != lit[j])
    ensures !LitAt(url, i, lit)
  {
    if i + |lit| <= |url| {
      assert url[i..i + |lit|][j] == url[i + j];
    }
  }

  lemma SchemeDetermined(url: string, a: nat, b: nat, c: nat)
    requires a <= b <= c <= |url| && SchemeText(url[..a]) && WwwText(url[a..b]) && HostText(url[b..c])
    ensures SchemeEnd(url) == a
  {
    // the character after the scheme starts `www.` or the host
    assert url[b] == 'y' by { assert url[b..c][0] == url[b]; }
    assert url[a] == 'w' || url[a] == 'y' by {
      if a < b { assert url[a..b][0] == url[a]; }
    }
    if url[..a] == "https://" {
      LitFromSlice(url, 0, a, "https://");
    } else if url[..a] == "http://" {
      LitFromSlice(url, 0, a, "http://");
      NotLitAt(url, 0, "https://", 7);
    } else {
      NotLitAt(url, 0, "https://", 0);
      NotLitAt(url, 0, "http://", 0);
    }
  }

  lemma WwwDetermined(url: string, a: nat, b: nat, c: nat)
    requires a <= b <= c <= |url| && WwwText(url[a..b]) && HostText(url[b..c])
    ensures WwwEnd(url, a) == b
  {
    assert url[b] == 'y' by { assert url[b..c][0] == url[b]; }
    if url[a..b] == "www." {
      LitFromSlice(url, a, b, "www.");
    } else {
      NotLitAt(url, a, "www.", 0);
    }
  }

  lemma HostDetermined(url: string, b: nat, c: nat)
    requires b <= c < |url| && HostText(url[b..c]) && url[c] == '.'
    ensures HostEnd(url, b) == Some(c + 1)
  {
    assert url[b..c + 1] == url[b..c] + [url[c]];
    if url[b..c] == "youtube" {
      LitFromSlice(url, b, c + 1, "youtube.");
    } else if url[b..c] == "youtu" {
      NotLitAt(url, b, "youtube.", 5);
      LitFromSlice(url, b, c + 1, "youtu.");
    } else {
      assert url[b..c][5] == url[b + 5] && url[b..c][7] == url[b + 7];
      NotLitAt(url, b, "youtube.", 7);
      NotLitAt(url, b, "youtu.", 5);
      LitFromSlice(url, b, c + 1, "youtube-nocookie.");
    }
  }

  lemma DomainDetermined(url: string, c: nat, k: nat)
    requires c + 1 < k <= |url| && DomainText(url[c + 1..k - 1]) && url[k - 1] == '/'
    ensures DomainEnd(url, c + 1) == Some(k)
  {
    assert url[c + 1..k] == url[c + 1..k - 1] + [url[k - 1]];
    if url[c + 1..k - 1] == "com" {
      LitFromSlice(url, c + 1, k, "com/");
    } else {
      assert url[c + 1] == 'b' by { assert url[c + 1..k - 1][0] == url[c + 1]; }
      NotLitAt(url, c + 1, "com/", 0);
      LitFromSlice(url, c + 1, k, "be/");
    }
  }

  /** Groups 1 to 4 can be cut in only one way, and it is the one the matcher takes. */
  lemma LeadSplitIsPathStart(url: string, k: nat, a: nat, b: nat, c: nat)
    requires LeadSplit(url, k, a, b, c)
    ensures PathStart(url) == Some(k)
  {
    SchemeDetermined(url, a, b, c);
    WwwDetermined(url, a, b, c);
    HostDetermined(url, b, c);
    DomainDetermined(url, c, k);
  }

  /** A literal found at `i`, read back as its first `n` characters and the one after. */
  lemma LitParts(url: string, i: nat, lit: string, n: nat)
    requires LitAt(url, i, lit) && n < |lit|
    ensures url[i..i + n] == lit[..n] && url[i + n] == lit[n]
  {
    assert url[i..i + n] == url[i..i + |lit|][..n];
    assert url[i + n] == url[i..i + |lit|][n];
  }

  lemma SchemeCut(url: string)
    ensures SchemeEnd(url) <= |url| && SchemeText(url[..SchemeEnd(url)])
  {
    if LitAt(url, 0, "https://") {
      assert url[..8] == url[0..8];
    } else if LitAt(url, 0, "http://") {
      assert url[..7] == url[0..7];
    }
  }

  lemma WwwCut(url: string, a: nat)
    requires a <= |url|
    ensures a <= WwwEnd(url, a) <= |url| && WwwText(url[a..WwwEnd(url, a)])
  {
  }

  lemma HostCut(url: string, b: nat)
    requires HostEnd(url, b).Some?
    ensures var c := HostEnd(url, b).value - 1; b <= c && HostText(url[b..c]) && url[c] == '.'
  {
    if LitAt(url, b, "youtube.") {
      LitParts(url, b, "youtube.", 7);
    } else if LitAt(url, b, "youtu.") {
      LitParts(url, b, "youtu.", 5);
    } else {
      LitParts(url, b, "youtube-nocookie.", 16);
    }
  }

  lemma DomainCut(url: string, i: nat)
    requires DomainEnd(url, i).Some?
    ensures var k := DomainEnd(url, i).value; i + 1 < k && DomainText(url[i..k - 1]) && url[k - 1] == '/'
  {
    if LitAt(url, i, "com/") {
      LitParts(url, i, "com/", 3);
    } else {
      LitParts(url, i, "be/", 2);
    }
  }

  /** What the matcher takes for groups 1 to 4 is a cut of the pattern. */
  lemma PathStartIsLeadSplit(url: string, k: nat)
    requires PathStart(url) == Some(k)
    ensures LeadMatches(url, k)
  {
    var a := SchemeEnd(url);
    SchemeCut(url);
    var b := WwwEnd(url, a);
    WwwCut(url, a);
    HostCut(url, b);
    var c := HostEnd(url, b).value - 1;
    DomainCut(url, c + 1);
    assert LeadSplit(url, k, a, b, c);
  }

  lemma LeadMatchesIffPathStart(url: string, k: nat)
    ensures LeadMatches(url, k) <==> PathStart(url) == Some(k)
  {
    if LeadMatches(url, k) {
      var a: nat, b: nat, c: nat :| LeadSplit(url, k, a, b, c);
      LeadSplitIsPathStart(url, k, a, b, c);
    }
    if PathStart(url) == Some(k) {
      PathStartIsLeadSplit(url, k);
    }
  }

  /** The backtracking search for `.+\?v=` finds a split whenever one exists below `e`. */
  lemma {:induction false} QuerySplitFinds(url: string, k: nat, e: nat, j: nat)
    requires k < j <= e
    requires LitAt(url, j, "?v=") && IdAt(url, j + 3)
    ensures QuerySplit(url, k, e).Some?
    decreases e
  {
    if !(LitAt(url, e, "?v=") && IdAt(url, e + 3)) {
      QuerySplitFinds(url, k, e - 1, j);
    }
  }

  /** Group 5 as `.+\?v=` fits exactly where the search looks. */
  lemma QueryPathText(url: string, k: nat, m: nat)
    requires k + 4 <= m <= |url| && LitAt(url, m - 3, "?v=")
    ensures PathText(url[k..m]) <==> forall j :: k <= j < m - 3 ==> url[j] != '\n'
  {
    var s := url[k..m];
    assert s[|s| - 3..] == url[m - 3..m];
    assert s[|s| - 1] == '=';
    if PathText(s) {
      forall j | k <= j < m - 3 ensures url[j] != '\n' {
        assert url[j] == s[j - k];
      }
    }
  }

  /** Group 5 and 6 from `k`, as the matcher tries them, land on a way of matching them. */
  lemma IdStartSound(url: string, k: nat)
    requires k <= |url| && IdStart(url, k).Some?
    ensures PathText(url[k..IdStart(url, k).value])
  {
    var m := IdStart(url, k).value;
    if LitAt(url, k, "watch?v=") && IdAt(url, k + 8) {
      assert url[k..m] == "watch?v=";
    } else if LitAt(url, k, "embed/") && IdAt(url, k + 6) {
      assert url[k..m] == "embed/";
    } else if LitAt(url, k, "v/") && IdAt(url, k + 2) {
      assert url[k..m] == "v/";
    } else if QuerySplit(url, k, LineEnd(url, k)).Some? {
      QueryPathText(url, k, m);
    } else {
      assert url[k..m] == "";
    }
  }

  /** Whatever the matcher returns is a way of matching the pattern. */
  lemma MatchYoutubeSound(url: string)
    requires MatchYoutube(url).Some?
    ensures MatchesAt(url, MatchYoutube(url).value)
  {
    var k := PathStart(url).value;
    PathStartIsLeadSplit(url, k);
    IdStartSound(url, k);
  }

  /** If group 5 and 6 can match from `k`, the matcher's ordered search finds some match. */
  lemma IdStartComplete(url: string, k: nat, m: nat)
    requires k <= m && IdAt(url, m) && PathText(url[k..m])
    ensures IdStart(url, k).Some?
  {
    var s := url[k..m];
    if s == "watch?v=" {
      LitFromSlice(url, k, m, "watch?v=");
    } else if s == "embed/" {
      LitFromSlice(url, k, m, "embed/");
    } else if s == "v/" {
      LitFromSlice(url, k, m, "v/");
    } else if s != "" {
      assert url[m - 3..m] == s[|s| - 3..];
      LitFromSlice(url, m - 3, m, "?v=");
      QueryPathText(url, k, m);
      var e := LineEnd(url, k);
      assert m - 3 <= e;
      QuerySplitFinds(url, k, e, m - 3);
    }
  }

  /** Whenever the pattern can match, the matcher finds a match. */
  lemma MatchYoutubeComplete(url: string, m: nat)
    requires MatchesAt(url, m)
    ensures MatchYoutube(url).Some?
  {
    var k: nat :| k <= m && LeadMatches(url, k) && PathText(url[k..m]);
    LeadMatchesIffPathStart(url, k);
    IdStartComplete(url, k, m);
  }

  /** The backtracking matcher succeeds exactly when the pattern, read as a language, matches a prefix of `url`. */
  lemma MatchYoutubeIffMatches(url: string)
    ensures MatchYoutube(url).Some? <==> Matches(url)
  {
    if MatchYoutube(url).Some? {
      MatchYoutubeSound(url);
    }
    if Matches(url) {
      var m: nat :| MatchesAt(url, m);
      MatchYoutubeComplete(url, m);
    }
  }

  /** A returned ID is group 6 of some way of matching the pattern. */
  lemma VideoIdIsGroupSix(url: string)
    requires GetYoutubeVideoId(url).Some?
    ensures exists m: nat :: MatchesAt(url, m) && GetYoutubeVideoId(url).value == url[m..m + IdLength]
  {
    MatchYoutubeSound(url);
  }

  lemma LeadSplitExtends(url: string, tail: string, k: nat, a: nat, b: nat, c: nat)
    requires LeadSplit(url, k, a, b, c)
    ensures LeadSplit(url + tail, k, a, b, c)
  {
    var u := url + tail;
    assert u[..a] == url[..a] && u[a..b] == url[a..b] && u[b..c] == url[b..c];
    assert u[c + 1..k - 1] == url[c + 1..k - 1];
  }

  lemma SliceOfExtension(url: string, tail: string, i: nat, j: nat)
    requires i <= j <= |url|
    ensures (url + tail)[i..j] == url[i..j]
  {
  }

  /** A cut of the lead, a path and an ID together witness a match. */
  lemma MatchesAtFrom(url: string, m: nat, k: nat, a: nat, b: nat, c: nat)
    requires k <= m && LeadSplit(url, k, a, b, c) && IdAt(url, m) && PathText(url[k..m])
    ensures MatchesAt(url, m)
  {
  }

  lemma MatchesAtExtends(url: string, tail: string, m: nat)
    requires MatchesAt(url, m)
    ensures MatchesAt(url + tail, m)
  {
    var k: nat :| k <= m && LeadMatches(url, k) && PathText(url[k..m]);
    var a: nat, b: nat, c: nat :| LeadSplit(url, k, a, b, c);
    var u := url + tail;
    LeadSplitExtends(url, tail, k, a, b, c);
    SliceOfExtension(url, tail, k, m);
    assert IdAt(u, m) by {
      assert forall j :: m <= j < m + IdLength ==> u[j] == url[j];
    }
    MatchesAtFrom(u, m, k, a, b, c);
  }

  /** The match is not anchored at the end: any text may follow an accepted URL. */
  lemma AcceptsAnySuffix(url: string, tail: string)
    requires IsValidYoutubeUrl(url)
    ensures IsValidYoutubeUrl(url + tail)
  {
    MatchYoutubeSound(url);
    MatchesAtExtends(url, tail, MatchYoutube(url).value);
    MatchYoutubeComplete(url + tail, MatchYoutube(url).value);
  }

  /** The match is anchored at the start: an accepted URL begins with `http`, `www.` or `youtu`. */
  lemma AnchoredAtStart(url: string)
    requires IsValidYoutubeUrl(url)
    ensures LitAt(url, 0, "http") || LitAt(url, 0, "www.") || LitAt(url, 0, "youtu")
  {
    var a := SchemeEnd(url);
    var b := WwwEnd(url, a);
    if a == 8 {
      assert url[0..4] == url[0..8][..4];
    } else if a == 7 {
      assert url[0..4] == url[0..7][..4];
    } else if b == 4 {
    } else {
      var e := HostEnd(url, b).value;
      assert url[0..5] == url[0..e][..5];
    }
  }

  /** A literal placed between two strings is found where it was put. */
  lemma LitBetween(pre: string, lit: string, post: string)
    ensures LitAt(pre + lit + post, |pre|, lit)
  {
    assert (pre + lit + post)[|pre|..|pre| + |lit|] == lit;
  }

  /** Without a `?` there is no `.+\?v=` split. */
  lemma {:induction false} QuerySplitNeedsMark(url: string, k: nat, j: nat)
    requires '?' !in url
    ensures QuerySplit(url, k, j) == None
    decreases j
  {
    if j > k {
      if j + 3 <= |url| {
        assert url[j..j + 3][0] == url[j] && url[j] in url;
      }
      QuerySplitNeedsMark(url, k, j - 1);
    }
  }

  /** Eleven ID characters. */
  predicate IsVideoId(id: string)
  {
    |id| == IdLength && forall i :: 0 <= i < |id| ==> IsIdChar(id[i])
  }

  /** A video ID holds no `?`, so it adds none to a link. */
  lemma NoMarkAfter(pre: string, id: string)
    requires '?' !in pre && IsVideoId(id)
    ensures '?' !in pre + id
  {
    var url := pre + id;
    forall j | 0 <= j < |url| ensures url[j] != '?' {
      if j >= |pre| { assert url[j] == id[j - |pre|] && IsIdChar(id[j - |pre|]); } else { assert url[j] == pre[j]; }
    }
  }

  /** The usual watch link yields the ID after `?v=`. */
  lemma WatchLinkYieldsId(id: string)
    requires IsVideoId(id)
    ensures GetYoutubeVideoId("https://" + "www." + "youtube." + "com/" + "watch?v=" + id) == Some(id)
  {
    var url := "https://" + "www." + "youtube." + "com/" + "watch?v=" + id;
    assert PathStart(url) == Some(24) by {
      LitBetween([], "https://", url[8..]);
      LitBetween(url[..8], "www.", url[12..]);
      LitBetween(url[..12], "youtube.", url[20..]);
      LitBetween(url[..20], "com/", url[24..]);
    }
    assert IdStart(url, 24) == Some(32) by {
      LitBetween(url[..24], "watch?v=", url[32..]);
      assert forall j :: 32 <= j < 43 ==> url[j] == id[j - 32];
    }
    assert url[32..43] == id;
  }

  /** A short link has no path group: the ID follows the slash. */
  lemma ShortLinkYieldsId(id: string)
    requires IsVideoId(id)
    ensures GetYoutubeVideoId("youtu." + "be/" + id) == Some(id)
  {
    var url := "youtu." + "be/" + id;
    assert PathStart(url) == Some(9) by {
      NotLitAt(url, 0, "https://", 0);
      NotLitAt(url, 0, "http://", 0);
      NotLitAt(url, 0, "www.", 0);
      NotLitAt(url, 0, "youtube.", 5);
      LitBetween([], "youtu.", url[6..]);
      NotLitAt(url, 6, "com/", 0);
      LitBetween(url[..6], "be/", url[9..]);
    }
    assert forall j :: 9 <= j < 20 ==> url[j] == id[j - 9];
    assert IdStart(url, 9) == Some(9) by {
      NoMarkAfter("youtu." + "be/", id);
      QuerySplitNeedsMark(url, 9, LineEnd(url, 9));
    }
    assert url[9..20] == id;
  }

  /** The path group of a `shorts/` link starts after `youtube.com/`. */
  lemma ShortsPathStart(id: string)
    ensures PathStart("youtube." + "com/" + "shorts/" + id) == Some(12)
  {
    var url := "youtube." + "com/" + "shorts/" + id;
    NotLitAt(url, 0, "https://", 0);
    NotLitAt(url, 0, "http://", 0);
    NotLitAt(url, 0, "www.", 0);
    LitBetween([], "youtube.", url[8..]);
    LitBetween(url[..8], "com/", url[12..]);
  }

  /**
   The ID class `[^&=%\?]` admits `/`, so a link to a short video yields
   `shorts/` and the first four characters of the video's ID.
   */
  lemma ShortsPathExample(id: string)
    requires IsVideoId(id)
    ensures GetYoutubeVideoId("youtube." + "com/" + "shorts/" + id) == Some("shorts/" + id[..4])
  {
    var url := "youtube." + "com/" + "shorts/" + id;
    ShortsPathStart(id);
    ShortsIdStart(id);
    assert url[12..23] == "shorts/" + id[..4];
  }

  /** After `youtube.com/` none of the path prefixes match `shorts/`, so the ID starts right there. */
  lemma ShortsIdStart(id: string)
    requires IsVideoId(id)
    ensures IdStart("youtube." + "com/" + "shorts/" + id, 12) == Some(12)
  {
    var url := "youtube." + "com/" + "shorts/" + id;
    NotLitAt(url, 12, "watch?v=", 0);
    NotLitAt(url, 12, "embed/", 0);
    NotLitAt(url, 12, "v/", 0);
    NoMarkAfter("youtube." + "com/" + "shorts/", id);
    QuerySplitNeedsMark(url, 12, LineEnd(url, 12));
  }

  /** Another host is refused. */
  lemma OtherHostExample()
    ensures GetYoutubeVideoId("https://vimeo.com/76979871") == None
  {
    var url := "https://" + "vimeo.com/76979871";
    assert url == "https://vimeo.com/76979871";
    LitBetween([], "https://", url[8..]);
    NotLitAt(url, 8, "www.", 0);
    NotLitAt(url, 8, "youtube.", 0);
    NotLitAt(url, 8, "youtu.", 0);
    NotLitAt(url, 8, "youtube-nocookie.", 0);
  }
}
