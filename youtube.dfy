/**
 * The featured-video setting of routes/youtube.js: `extractVideoId`, which finds the video id
 * in a YouTube URL by trying three regular expressions in order and then accepting a bare
 * 11-character id, and the handlers that read and (for Admins) replace the single
 * `youtube_video` row.
 */
module Youtube {
  import opened Wrappers
  import opened Text
  import opened Schema
  import Users

  /** The characters `[^&\n?#]` excludes: they end a captured id. */
  predicate IsStop(c: char) {
    c == '&' || c == '\n' || c == '?' || c == '#'
  }

  /** The characters `.` does not match. */
  predicate IsLineTerminator(c: char) {
    c == '\n' || c == '\r' || c == '\U{2028}' || c == '\U{2029}'
  }

  predicate StopFree(s: string) {
    forall k :: 0 <= k < |s| ==> !IsStop(s[k])
  }

  /** `([^&\n?#]+)` from position `i`, taken greedily: the longest run without a stop character. */
  function Run(s: string, i: nat): (r: string)
    requires i <= |s|
    ensures i + |r| <= |s| && r == s[i..i + |r|]
    ensures StopFree(r)
    ensures i + |r| == |s| || IsStop(s[i + |r|])
    decreases |s| - i
  {
    if i == |s| || IsStop(s[i]) then []
    else
      var rest := Run(s, i + 1);
      assert [s[i]] + rest == s[i..i + 1 + |rest|];
      [s[i]] + rest
  }

  /** A run over a stop-free tail takes the whole tail. */
  lemma RunToEnd(s: string, i: nat)
    requires i <= |s| && StopFree(s[i..])
    ensures Run(s, i) == s[i..]
  {
  }

  /**
   * The first two patterns: an alternation of literal prefixes followed by the captured id.
   * The third looks for a `v=` query parameter anywhere after `youtube.com/`.
   */
  datatype Pattern = Literal(alts: seq<string>) | Query

  /** The patterns of `extractVideoId`, in the order they are tried. */
  const Patterns: seq<Pattern> := [
    Literal(["youtube.com/watch?v=", "youtu.be/", "youtube.com/embed/"]),
    Literal(["youtube.com/v/"]),
    Query
  ]

  /** Alternative `k` matches at `p` and at least one id character follows it. */
  predicate LiteralAt(alts: seq<string>, s: string, p: nat, k: nat) {
    k < |alts| && OccursAt(s, alts[k], p) && p + |alts[k]| < |s| && !IsStop(s[p + |alts[k]|])
  }

  /** Where a search succeeded: the start of the match and the alternative (or `[?&]` position) used. */
  datatype Hit = Hit(at: nat, via: nat)

  /** The first alternative, from `k` on, that matches at `p`. */
  function FirstAlt(alts: seq<string>, s: string, p: nat, k: nat): (r: Option<nat>)
    requires k <= |alts|
    ensures r.Some? ==> k <= r.value && LiteralAt(alts, s, p, r.value)
    ensures r.Some? ==> forall k': nat :: k <= k' < r.value ==> !LiteralAt(alts, s, p, k')
    ensures r.None? ==> forall k': nat :: k <= k' ==> !LiteralAt(alts, s, p, k')
    decreases |alts| - k
  {
    if k == |alts| then None
    else if LiteralAt(alts, s, p, k) then Some(k)
    else FirstAlt(alts, s, p, k + 1)
  }

  /** The leftmost position from `p` on where the alternation matches, and the alternative taken there. */
  function LiteralSearch(alts: seq<string>, s: string, p: nat): (r: Option<Hit>)
    requires p <= |s|
    ensures r.Some? ==> p <= r.value.at && LiteralAt(alts, s, r.value.at, r.value.via)
    ensures r.Some? ==> forall q: nat, k: nat :: p <= q < r.value.at ==> !LiteralAt(alts, s, q, k)
    ensures r.Some? ==> forall k: nat :: k < r.value.via ==> !LiteralAt(alts, s, r.value.at, k)
    ensures r.None? ==> forall q: nat, k: nat :: p <= q ==> !LiteralAt(alts, s, q, k)
    decreases |s| - p
  {
    match FirstAlt(alts, s, p, 0)
    case Some(k) => Some(Hit(p, k))
    case None =>
      if p == |s| then None else LiteralSearch(alts, s, p + 1)
  }

  const Host := "youtube.com/"

  /** `youtube\.com\/.*[?&]v=` matches from `p` with the `[?&]` at `q`, and an id character follows. */
  predicate QueryAt(s: string, p: nat, q: nat) {
    && OccursAt(s, Host, p) && p + |Host| <= q && q + 3 < |s|
    && (forall k :: p + |Host| <= k < q ==> !IsLineTerminator(s[k]))
    && (s[q] == '?' || s[q] == '&') && s[q + 1] == 'v' && s[q + 2] == '=' && !IsStop(s[q + 3])
  }

  /** The end of the line that starts at `i`: the first line terminator, or the end of `s`. */
  function LineEnd(s: string, i: nat): (e: nat)
    requires i <= |s|
    ensures i <= e <= |s| && (e == |s| || IsLineTerminator(s[e]))
    ensures forall k :: i <= k < e ==> !IsLineTerminator(s[k])
    decreases |s| - i
  {
    if i == |s| || IsLineTerminator(s[i]) then i else LineEnd(s, i + 1)
  }

  /** The greatest `q` below `bound` at which the query pattern completes from `p`. */
  function LastQuery(s: string, p: nat, bound: nat): (r: Option<nat>)
    ensures r.Some? ==> r.value < bound && QueryAt(s, p, r.value)
    ensures r.Some? ==> forall q: nat :: r.value < q < bound ==> !QueryAt(s, p, q)
    ensures r.None? ==> forall q: nat :: q < bound ==> !QueryAt(s, p, q)
  {
    if bound == 0 then None
    else if QueryAt(s, p, bound - 1) then Some(bound - 1)
    else LastQuery(s, p, bound - 1)
  }

  /** `.*` is greedy: the match from `p` uses the last `[?&]v=` on the line, if there is one. */
  function QueryFrom(s: string, p: nat): (r: Option<nat>)
    ensures r.Some? ==> QueryAt(s, p, r.value) && forall q: nat :: r.value < q ==> !QueryAt(s, p, q)
    ensures r.None? ==> forall q: nat :: !QueryAt(s, p, q)
  {
    if !OccursAt(s, Host, p) then None
    else
      var e := LineEnd(s, p + |Host|);
      forall q: nat | e <= q ensures !QueryAt(s, p, q) {
        if e < |s| && p + |Host| <= q && q + 3 < |s| {
          assert IsLineTerminator(s[e]) && !IsStop(s[e]) ==> s[e] != '?' && s[e] != '&';
        }
      }
      LastQuery(s, p, e)
  }

  /** The leftmost position from `p` on where the query pattern matches. */
  function QuerySearch(s: string, p: nat): (r: Option<Hit>)
    requires p <= |s|
    ensures r.Some? ==> p <= r.value.at && QueryAt(s, r.value.at, r.value.via)
    ensures r.Some? ==> forall q: nat :: r.value.via < q ==> !QueryAt(s, r.value.at, q)
    ensures r.Some? ==> forall p': nat, q: nat :: p <= p' < r.value.at ==> !QueryAt(s, p', q)
    ensures r.None? ==> forall p': nat, q: nat :: p <= p' ==> !QueryAt(s, p', q)
    decreases |s| - p
  {
    match QueryFrom(s, p)
    case Some(q) => Some(Hit(p, q))
    case None =>
      if p == |s| then None
      else
        var r := QuerySearch(s, p + 1);
        assert forall p': nat, q: nat :: p' > |s| ==> !QueryAt(s, p', q);
        r
  }

  /** `url.match(pattern)[1]`: the id the pattern captures at its leftmost match, if it matches. */
  function Search(pattern: Pattern, s: string): (r: Option<string>)
    ensures r.Some? ==> r.value != [] && StopFree(r.value)
  {
    match pattern
    case Literal(alts) =>
      (match LiteralSearch(alts, s, 0)
       case None => None
       case Some(hit) => Some(Run(s, hit.at + |alts[hit.via]|)))
    case Query =>
      (match QuerySearch(s, 0)
       case None => None
       case Some(hit) => Some(Run(s, hit.via + 3)))
  }

  /** The first pattern of the list that matches gives the id. */
  function FirstMatch(patterns: seq<Pattern>, s: string): (r: Option<string>)
    ensures r.Some? ==> r.value != [] && StopFree(r.value)
  {
    if patterns == [] then None
    else
      match Search(patterns[0], s)
      case Some(id) => Some(id)
      case None => FirstMatch(patterns[1..], s)
  }

  predicate IsIdChar(c: char) {
    IsAsciiLetter(c) || IsDigit(c) || c == '_' || c == '-'
  }

  /** `/^[a-zA-Z0-9_-]{11}$/`. */
  predicate IsBareId(s: string) {
    |s| == 11 && forall k :: 0 <= k < |s| ==> IsIdChar(s[k])
  }

  /**
   * What `extractVideoId` returns: nothing for an absent or empty URL; otherwise, on the
   * trimmed URL, the capture of the first pattern that matches, else the URL itself when it is
   * a bare id. An id it returns is never empty and never holds `&`, `?`, `#` or a newline.
   */
  function VideoId(url: Option<string>): (r: Option<string>)
    ensures !Present(url) ==> r.None?
    ensures r.Some? ==> r.value != [] && StopFree(r.value)
  {
    if !Present(url) then None else IdOf(Trim(url.value))
  }

  /** The id found in an already trimmed URL: the first pattern's capture, else a bare id. */
  function IdOf(s: string): (r: Option<string>)
    ensures r.Some? ==> r.value != [] && StopFree(r.value)
  {
    match FirstMatch(Patterns, s)
    case Some(id) => Some(id)
    case None =>
      if IsBareId(s) then BareIdStopFree(s); Some(s) else None
  }

  lemma BareIdStopFree(s: string)
    requires IsBareId(s)
    ensures s != [] && StopFree(s)
  {
    forall k | 0 <= k < |s| ensures !IsStop(s[k]) {
      assert IsIdChar(s[k]);
    }
  }

  /** `extractVideoId`: the patterns are tried in a loop that returns at the first match. */
  method ExtractVideoId(url: Option<string>) returns (r: Option<string>)
    ensures r == VideoId(url)
  {
    if !Present(url) {
      return None;
    }
    var s := Trim(url.value);
    var i := 0;
    while i < |Patterns|
      invariant 0 <= i <= |Patterns|
      invariant FirstMatch(Patterns, s) == FirstMatch(Patterns[i..], s)
    {
      var m := Search(Patterns[i], s);
      if m.Some? {
        return m;
      }
      assert Patterns[i..][1..] == Patterns[i + 1..];
      i := i + 1;
    }
    if IsBareId(s) {
      return Some(s);
    }
    return None;
  }

  /** White space around the URL does not matter. */
  lemma VideoIdIgnoresPadding(pre: string, url: string, post: string)
    requires AllSpace(pre) && AllSpace(post) && url != [] && IsTrimmed(url)
    ensures VideoId(Some(pre + url + post)) == VideoId(Some(url))
  {
    TrimPadded(pre, url, post);
    assert |pre + url + post| > 0;
  }

  /** A literal containing `c` occurs nowhere in a string without `c`. */
  lemma AbsentChar(s: string, lit: string, c: char, p: nat)
    requires c in lit && c !in s
    ensures !OccursAt(s, lit, p)
  {
    if p + |lit| <= |s| {
      var k :| 0 <= k < |lit| && lit[k] == c;
      assert s[p..p + |lit|][k] == s[p + k];
    }
  }

  /** Every pattern needs a `.`, so none matches a string without one. */
  lemma NoMatchWithoutDot(s: string)
    requires '.' !in s
    ensures FirstMatch(Patterns, s) == None
  {
    var alts0, alts1 := Patterns[0].alts, Patterns[1].alts;
    assert alts0[0][7] == '.' && alts0[1][5] == '.' && alts0[2][7] == '.' && alts1[0][7] == '.';
    forall q: nat, k: nat ensures !LiteralAt(alts0, s, q, k) && !LiteralAt(alts1, s, q, k) {
      if k < |alts0| {
        AbsentChar(s, alts0[k], '.', q);
      }
      if k < |alts1| {
        AbsentChar(s, alts1[k], '.', q);
      }
    }
    assert Host[7] == '.';
    forall p: nat, q: nat ensures !QueryAt(s, p, q) {
      AbsentChar(s, Host, '.', p);
    }
    assert Search(Patterns[0], s) == None && Search(Patterns[1], s) == None && Search(Patterns[2], s) == None;
    assert Patterns[1..][1..] == [Query] && [Query][1..] == [];
    assert FirstMatch([Query], s) == None;
    assert FirstMatch(Patterns[1..], s) == None;
  }

  /** A bare 11-character id is accepted as it is. */
  lemma BareIdAccepted(id: string)
    requires IsBareId(id)
    ensures VideoId(Some(id)) == Some(id)
  {
    assert '.' !in id by {
      forall k | 0 <= k < |id| ensures id[k] != '.' { assert IsIdChar(id[k]); }
    }
    assert IsTrimmed(id) by {
      assert IsIdChar(id[0]) && IsIdChar(id[10]);
    }
    NoMatchWithoutDot(id);
  }

  /**
   * The first pattern captures the id after a prefix free of `y` followed by alternative `k`,
   * when no earlier alternative matches there.
   */
  lemma LiteralCapture(pre: string, alts: seq<string>, k: nat, id: string)
    requires 'y' !in pre && k < |alts| && forall a :: a in alts ==> a != [] && a[0] == 'y'
    requires forall k': nat :: k' < k ==> !OccursAt(pre + alts[k] + id, alts[k'], |pre|)
    requires id != [] && StopFree(id)
    ensures Search(Literal(alts), pre + alts[k] + id) == Some(id)
  {
    var s := pre + alts[k] + id;
    NoLiteralInPrefix(pre, alts, s);
    assert s[|pre|..|pre| + |alts[k]|] == alts[k];
    assert s[|pre| + |alts[k]|..] == id;
    assert s[|pre| + |alts[k]|] == id[0];
    FirstHit(alts, s, |pre|, k);
    RunToEnd(s, |pre| + |alts[k]|);
  }

  /** No alternative starting with `y` occurs inside a prefix free of `y`. */
  lemma NoLiteralInPrefix(pre: string, alts: seq<string>, s: string)
    requires 'y' !in pre && forall a :: a in alts ==> a != [] && a[0] == 'y'
    requires |pre| <= |s| && s[..|pre|] == pre
    ensures forall q: nat, k': nat :: q < |pre| ==> !LiteralAt(alts, s, q, k')
  {
    forall q: nat, k': nat | q < |pre| ensures !LiteralAt(alts, s, q, k') {
      if k' < |alts| && q + |alts[k']| <= |s| {
        assert alts[k'] in alts;
        assert s[q..q + |alts[k']|][0] == s[q] == s[..|pre|][q];
      }
    }
  }

  /** The search stops at the first position and the first alternative that match. */
  lemma FirstHit(alts: seq<string>, s: string, p: nat, k: nat)
    requires p <= |s| && LiteralAt(alts, s, p, k)
    requires forall q: nat, k': nat :: q < p ==> !LiteralAt(alts, s, q, k')
    requires forall k': nat :: k' < k ==> !LiteralAt(alts, s, p, k')
    ensures LiteralSearch(alts, s, 0) == Some(Hit(p, k))
  {
  }

  /** Every alternative of the first pattern starts with `y`. */
  lemma FirstAltsStartWithY()
    ensures forall a :: a in Patterns[0].alts ==> a != [] && a[0] == 'y'
  {
    var alts := Patterns[0].alts;
    assert alts[0][0] == 'y' && alts[1][0] == 'y' && alts[2][0] == 'y';
  }

  /** A literal does not occur where one of its characters differs from the text. */
  lemma Mismatch(s: string, lit: string, p: nat, k: nat)
    requires k < |lit| && p + k < |s| && s[p + k] != lit[k]
    ensures !OccursAt(s, lit, p)
  {
    if p + |lit| <= |s| {
      assert s[p..p + |lit|][k] == s[p + k];
    }
  }

  /** `https://youtu.be/<id>` gives `<id>`. */
  lemma ShortLinkId(id: string)
    requires id != [] && StopFree(id) && !IsSpace(id[|id| - 1])
    ensures VideoId(Some("https://youtu.be/" + id)) == Some(id)
  {
    var alts := Patterns[0].alts;
    var pre := "https://";
    var head := "https://youtu.be/";
    assert head == pre + alts[1];
    var s := head + id;
    assert s == pre + alts[1] + id;
    assert s[13] == head[13] == '.' != alts[0][5];
    Mismatch(s, alts[0], |pre|, 5);
    FirstPatternLink(pre, 1, id);
  }

  /** `https://www.youtube.com/watch?v=<id>` gives `<id>`. */
  lemma WatchLinkId(id: string)
    requires id != [] && StopFree(id) && !IsSpace(id[|id| - 1])
    ensures VideoId(Some("https://www.youtube.com/watch?v=" + id)) == Some(id)
  {
    var pre := "https://www.";
    assert Patterns[0].alts[0] == "youtube.com/watch?v=";
    assert pre + "youtube.com/watch?v=" == "https://www.youtube.com/watch?v=";
    FirstPatternLink(pre, 0, id);
  }

  /**
   * A URL made of a prefix without `y`, alternative `k` of the first pattern and an id gives
   * the id, when no earlier alternative matches after the prefix.
   */
  lemma FirstPatternLink(pre: string, k: nat, id: string)
    requires k < 3 && pre != [] && !IsSpace(pre[0]) && 'y' !in pre
    requires forall k': nat :: k' < k ==> !OccursAt(pre + Patterns[0].alts[k] + id, Patterns[0].alts[k'], |pre|)
    requires id != [] && StopFree(id) && !IsSpace(id[|id| - 1])
    ensures VideoId(Some(pre + Patterns[0].alts[k] + id)) == Some(id)
  {
    var s := pre + Patterns[0].alts[k] + id;
    FirstAltsStartWithY();
    LiteralCapture(pre, Patterns[0].alts, k, id);
    assert IsTrimmed(s) by { assert s[0] == pre[0] && s[|s| - 1] == id[|id| - 1]; }
    FirstPatternWins(s, id);
  }

  /** A trimmed URL the first pattern matches gives that pattern's capture. */
  lemma FirstPatternWins(s: string, id: string)
    requires s != [] && IsTrimmed(s) && Search(Patterns[0], s) == Some(id)
    ensures VideoId(Some(s)) == Some(id)
  {
  }

  datatype VideoError =
    | AccessDenied
    | UrlRequired
    | InvalidUrl
  {
    /** The HTTP status of the error response. */
    function Status(): nat {
      match this
      case AccessDenied => 403
      case _ => 400
    }
  }

  /** The body of a successful update. */
  datatype VideoUpdated = VideoUpdated(id: nat, videoId: string, videoUrl: string)

  /** `GET /api/v1/youtube-video`: the single row. */
  method GetVideo(db: Database) returns (r: Reply<Video, VideoError>)
    ensures r == Ok(200, db.video)
  {
    return Ok(200, db.video);
  }

  /** `PUT /api/v1/youtube-video`: an Admin sets the video from a URL it can extract an id from. */
  method UpdateVideo(db: Database, caller: Identity, videoUrl: Option<string>) returns (r: Reply<VideoUpdated, VideoError>)
    modifies db`video
    ensures !Users.IsAdminCaller(caller) ==> r == Err(AccessDenied)
    ensures r == Err(UrlRequired) <==> Users.IsAdminCaller(caller) && !Present(videoUrl)
    ensures r == Err(InvalidUrl) <==> Users.IsAdminCaller(caller) && Present(videoUrl) && VideoId(videoUrl).None?
    ensures r.Err? ==> db.video == old(db.video)
    ensures r.Ok? <==> Users.IsAdminCaller(caller) && VideoId(videoUrl).Some?
    ensures r.Ok? ==>
      && VideoId(videoUrl).Some?
      && db.video == Video(VideoId(videoUrl).value, videoUrl.value)
      && r == Ok(200, VideoUpdated(1, db.video.videoId, db.video.videoUrl))
  {
    if !Users.IsAdminCaller(caller) {
      return Err(AccessDenied);
    }
    if !Present(videoUrl) {
      return Err(UrlRequired);
    }
    var id := ExtractVideoId(videoUrl);
    if id.None? {
      return Err(InvalidUrl);
    }
    db.video := Video(id.value, videoUrl.value);
    return Ok(200, VideoUpdated(1, id.value, videoUrl.value));
  }
}
