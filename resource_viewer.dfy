/**
 * The resource preview dialog: which URL it shows for a resource (the
 * external link before a signed URL for the stored file), and how it shows
 * that URL (a YouTube embed, a video player or a plain frame), following
 * the two regular expressions the dialog tests the URL with.
 */
module ResourceViewer {
  import opened Wrappers
  import opened Schema
  import opened JsString

  // ---------------------------------------------------------------------------
  // load: choosing the URL
  // ---------------------------------------------------------------------------

  /** The URL `load` settles on. `signedUrl` stands for the storage call that signs a file
      path for ten minutes; `None` is a failed call or a missing `signedUrl`. */
  function PreviewSource(resource: Option<Resource>, signedUrl: string -> Option<string>): (url: Option<string>)
    ensures url.Some? ==> url.value != ""
    ensures resource.Some? && Truthy(resource.value.externalLink) ==> url == resource.value.externalLink
    ensures url.None? <==>
      || resource.None?
      || (!Truthy(resource.value.externalLink) && (!Truthy(resource.value.filePath) || !Truthy(signedUrl(resource.value.filePath.value))))
    ensures url.Some? && !Truthy(resource.value.externalLink) ==> url == signedUrl(resource.value.filePath.value)
  {
    if resource.None? then None
    else if Truthy(resource.value.externalLink) then resource.value.externalLink
    else if Truthy(resource.value.filePath) then
      var signed := signedUrl(resource.value.filePath.value);
      if Truthy(signed) then signed else None
    else None
  }

  /** The dialog's `url` state. */
  class Viewer {
    var url: Option<string>

    constructor ()
      ensures url == None
    {
      url := None;
    }

    /** The effect run whenever the resource changes. */
    method Load(resource: Option<Resource>, signedUrl: string -> Option<string>)
      modifies this
      ensures url == PreviewSource(resource, signedUrl)
    {
      if resource.None? {
        url := None;
        return;
      }
      var r := resource.value;
      if r.externalLink.Some? && r.externalLink.value != "" {
        url := r.externalLink;
      } else if r.filePath.Some? && r.filePath.value != "" {
        var data := signedUrl(r.filePath.value);
        url := if data.Some? && data.value != "" then data else None;
      } else {
        url := None;
      }
    }
  }

  // ---------------------------------------------------------------------------
  // /\.(mp4|webm|ogg)(\?.*)?$/i
  // ---------------------------------------------------------------------------

  /** The dotted extensions the video test accepts, in lower case. */
  const VideoSuffixes: seq<string> := [".mp4", ".webm", ".ogg"]

  predicate NoLineTerminator(s: string)
  {
    forall k | 0 <= k < |s| :: !IsLineTerminator(s[k])
  }

  /** `(\?.*)?$` from index `j`: the end of the URL, or a `?` followed by characters that `.` matches. */
  predicate QueryTail(url: string, j: nat)
  {
    j == |url| || (j < |url| && url[j] == '?' && NoLineTerminator(url[j + 1..]))
  }

  /** The pattern matches at index `i` with extension `ext` (compared case-insensitively). */
  predicate VideoSuffixAt(url: string, i: nat, ext: string)
  {
    OccursAt(LowerAscii(url), ext, i) && QueryTail(url, i + |ext|)
  }

  /** `/\.(mp4|webm|ogg)(\?.*)?$/i.test(url)`: the pattern matches at some index, so the URL
      holds a dot and is at least as long as the shortest extension. */
  predicate IsVideoFile(url: string)
    ensures IsVideoFile(url) ==> 4 <= |url| && '.' in url
  {
    VideoMatchHasDot(url);
    exists i, k | 0 <= i < |url| && 0 <= k < |VideoSuffixes| :: VideoSuffixAt(url, i, VideoSuffixes[k])
  }

  lemma VideoMatchHasDot(url: string)
    ensures (exists i, k | 0 <= i < |url| && 0 <= k < |VideoSuffixes| :: VideoSuffixAt(url, i, VideoSuffixes[k])) ==>
      4 <= |url| && '.' in url
  {
    if exists i, k | 0 <= i < |url| && 0 <= k < |VideoSuffixes| :: VideoSuffixAt(url, i, VideoSuffixes[k]) {
      var i, k :| 0 <= i < |url| && 0 <= k < |VideoSuffixes| && VideoSuffixAt(url, i, VideoSuffixes[k]);
      var ext := VideoSuffixes[k];
      assert ext[0] == '.' && |ext| >= 4;
      assert LowerAscii(url)[i..i + |ext|][0] == '.';
      assert LowerChar(url[i]) == '.';
      assert url[i] == '.';
    }
  }

  /** The text ends in one of the video extensions, in any letter case. */
  predicate HasVideoExtension(s: string)
  {
    exists k | 0 <= k < |VideoSuffixes| :: EndsWith(LowerAscii(s), VideoSuffixes[k])
  }

  lemma LowerPrefix(s: string, q: nat)
    requires q <= |s|
    ensures LowerAscii(s[..q]) == LowerAscii(s)[..q]
  {
  }

  /** The video test holds exactly when the URL ends in a video extension in any case, or when
      it does so just before a `?` that starts a single-line query string. */
  lemma VideoFileIff(url: string)
    ensures IsVideoFile(url) <==>
      || HasVideoExtension(url)
      || exists q | 0 <= q < |url| :: QueryAfterExtension(url, q)
  {
    if IsVideoFile(url) {
      VideoFileHasExtension(url);
    }
    if HasVideoExtension(url) {
      ExtensionAtEnd(url);
    }
    if exists q | 0 <= q < |url| :: QueryAfterExtension(url, q) {
      var q :| 0 <= q < |url| && QueryAfterExtension(url, q);
      ExtensionBeforeQuery(url, q);
    }
  }

  /** A `?` at `q`, a video extension just before it and no line break after it. */
  predicate QueryAfterExtension(url: string, q: nat)
    requires q < |url|
  {
    url[q] == '?' && HasVideoExtension(url[..q]) && NoLineTerminator(url[q + 1..])
  }

  lemma VideoFileHasExtension(url: string)
    requires IsVideoFile(url)
    ensures HasVideoExtension(url) || exists q | 0 <= q < |url| :: QueryAfterExtension(url, q)
  {
    var lower := LowerAscii(url);
    var i, k :| 0 <= i < |url| && 0 <= k < |VideoSuffixes| && VideoSuffixAt(url, i, VideoSuffixes[k]);
    var ext := VideoSuffixes[k];
    var j := i + |ext|;
    if j == |url| {
      assert EndsWith(lower, ext);
    } else {
      LowerPrefix(url, j);
      assert EndsWith(LowerAscii(url[..j]), ext) by {
        assert LowerAscii(url[..j])[j - |ext|..] == lower[i..j];
      }
      assert QueryAfterExtension(url, j);
    }
  }

  lemma ExtensionAtEnd(url: string)
    requires HasVideoExtension(url)
    ensures IsVideoFile(url)
  {
    var k :| 0 <= k < |VideoSuffixes| && EndsWith(LowerAscii(url), VideoSuffixes[k]);
    var ext := VideoSuffixes[k];
    assert VideoSuffixAt(url, |url| - |ext|, ext);
  }

  lemma ExtensionBeforeQuery(url: string, q: nat)
    requires q < |url| && QueryAfterExtension(url, q)
    ensures IsVideoFile(url)
  {
    var k :| 0 <= k < |VideoSuffixes| && EndsWith(LowerAscii(url[..q]), VideoSuffixes[k]);
    var ext := VideoSuffixes[k];
    LowerPrefix(url, q);
    var i := q - |ext|;
    assert LowerAscii(url)[i..q] == LowerAscii(url[..q])[i..];
    assert VideoSuffixAt(url, i, ext);
  }

  /** Appending a single-line query string to a video file keeps it a video file. */
  lemma VideoFileWithQuery(url: string, query: string)
    requires IsVideoFile(url) && NoLineTerminator(query)
    ensures IsVideoFile(url + "?" + query)
  {
    var i, k :| 0 <= i < |url| && 0 <= k < |VideoSuffixes| && VideoSuffixAt(url, i, VideoSuffixes[k]);
    SuffixBeforeQuery(url, query, i, VideoSuffixes[k]);
  }

  lemma SuffixBeforeQuery(url: string, query: string, i: nat, ext: string)
    requires VideoSuffixAt(url, i, ext) && NoLineTerminator(query)
    ensures VideoSuffixAt(url + "?" + query, i, ext)
  {
    var u := url + "?" + query;
    LowerPrefix(u, |url|);
    assert u[..|url|] == url;
    assert LowerAscii(u)[i..i + |ext|] == LowerAscii(url)[i..i + |ext|];
    var j := i + |ext|;
    if j == |url| {
      assert u[j + 1..] == query;
    } else {
      assert u[j + 1..] == url[j + 1..] + "?" + query;
    }
    assert VideoSuffixAt(u, i, ext);
  }

  // ---------------------------------------------------------------------------
  // /(?:youtube\.com\/watch\?v=|youtu\.be\/)([\w-]+)/i
  // ---------------------------------------------------------------------------

  const WatchMarker: string := "youtube.com/watch?v="
  const ShortMarker: string := "youtu.be/"
  const EmbedPrefix: string := "https://www.youtube.com/embed/"

  /** `[\w-]`. */
  predicate IsIdChar(c: char)
  {
    ('A' <= c <= 'Z') || ('a' <= c <= 'z') || ('0' <= c <= '9') || c == '_' || c == '-'
  }

  /** A character of an occurrence, read off the text. */
  lemma CharOfOccurrence(s: string, t: string, i: nat, k: nat)
    requires k < |t|
    ensures OccursAt(s, t, i) ==> s[i + k] == t[k]
  {
    if OccursAt(s, t, i) {
      assert s[i..i + |t|][k] == s[i + k];
    }
  }

  /** The two alternatives never both match at one index (their sixth characters differ), so
      trying them in order is exact. */
  lemma MarkersExclusive(url: string, i: nat)
    ensures !(OccursAt(LowerAscii(url), WatchMarker, i) && OccursAt(LowerAscii(url), ShortMarker, i))
  {
    CharOfOccurrence(LowerAscii(url), WatchMarker, i, 5);
    CharOfOccurrence(LowerAscii(url), ShortMarker, i, 5);
  }

  /** The length of the marker matched case-insensitively at index `i`, 0 when none. */
  function MarkerLength(url: string, i: nat): (n: nat)
    ensures n > 0 ==> i + n <= |url|
  {
    if OccursAt(LowerAscii(url), WatchMarker, i) then |WatchMarker|
    else if OccursAt(LowerAscii(url), ShortMarker, i) then |ShortMarker|
    else 0
  }

  /** The marker length names the alternative that occurs at `i`, and is 0 when neither does. */
  lemma MarkerLengthSpec(url: string, i: nat)
    ensures var n := MarkerLength(url, i);
      && (n == |WatchMarker| <==> OccursAt(LowerAscii(url), WatchMarker, i))
      && (n == |ShortMarker| <==> OccursAt(LowerAscii(url), ShortMarker, i))
      && (n == 0 || n == |WatchMarker| || n == |ShortMarker|)
  {
    MarkersExclusive(url, i);
  }

  /** The length of the longest run of id characters starting at `j` (the greedy `[\w-]+`). */
  function IdRun(url: string, j: nat): (n: nat)
    requires j <= |url|
    ensures j + n <= |url|
    ensures forall k | j <= k < j + n :: IsIdChar(url[k])
    ensures j + n == |url| || !IsIdChar(url[j + n])
    decreases |url| - j
  {
    if j < |url| && IsIdChar(url[j]) then 1 + IdRun(url, j + 1) else 0
  }

  /** The pattern matches starting at index `i`: a marker followed by at least one id character. */
  predicate MatchAt(url: string, i: nat)
  {
    i < |url| && MarkerLength(url, i) > 0 && IdRun(url, i + MarkerLength(url, i)) > 0
  }

  /** The captured id of a match at `i`. */
  function IdAt(url: string, i: nat): (id: string)
    requires MatchAt(url, i)
    ensures |id| > 0 && forall k | 0 <= k < |id| :: IsIdChar(id[k])
  {
    var start := i + MarkerLength(url, i);
    url[start..start + IdRun(url, start)]
  }

  /** The search for a match from index `start` on. */
  function YouTubeIdFrom(url: string, start: nat): Option<string>
    decreases |url| - start
  {
    if start >= |url| then None
    else if MatchAt(url, start) then Some(IdAt(url, start))
    else YouTubeIdFrom(url, start + 1)
  }

  /** The search finds nothing exactly when no match starts at `start` or later, and otherwise
      the id of the leftmost such match. */
  lemma YouTubeIdFromSpec(url: string, start: nat)
    ensures YouTubeIdFrom(url, start).None? <==> forall i | start <= i < |url| :: !MatchAt(url, i)
    ensures YouTubeIdFrom(url, start).Some? ==> exists i | start <= i < |url| ::
      && MatchAt(url, i)
      && (forall j | start <= j < i :: !MatchAt(url, j))
      && YouTubeIdFrom(url, start).value == IdAt(url, i)
  {
    YouTubeIdFromNone(url, start);
    if YouTubeIdFrom(url, start).Some? {
      var i := YouTubeIdFromLeftmost(url, start);
    }
  }

  lemma {:induction false} YouTubeIdFromNone(url: string, start: nat)
    ensures YouTubeIdFrom(url, start).None? <==> forall i | start <= i < |url| :: !MatchAt(url, i)
    decreases |url| - start
  {
    if start < |url| && !MatchAt(url, start) {
      YouTubeIdFromNone(url, start + 1);
      forall i | start <= i < |url| && !(start + 1 <= i) ensures !MatchAt(url, i) {
        assert i == start;
      }
    }
  }

  /** The index of the match the search finds: leftmost from `start`. */
  lemma {:induction false} YouTubeIdFromLeftmost(url: string, start: nat) returns (i: nat)
    requires YouTubeIdFrom(url, start).Some?
    ensures start <= i < |url| && MatchAt(url, i) && YouTubeIdFrom(url, start).value == IdAt(url, i)
    ensures forall j | start <= j < i :: !MatchAt(url, j)
    decreases |url| - start
  {
    if MatchAt(url, start) {
      i := start;
    } else {
      assert YouTubeIdFrom(url, start) == YouTubeIdFrom(url, start + 1);
      i := YouTubeIdFromLeftmost(url, start + 1);
      assert forall j | start + 1 <= j < i :: !MatchAt(url, j);
    }
  }

  /** `url.match(...)?.[1]`: nothing when no match starts anywhere in the URL, and otherwise the
      id of the leftmost match. */
  function YouTubeId(url: string): (id: Option<string>)
    ensures id.None? <==> forall i | 0 <= i < |url| :: !MatchAt(url, i)
    ensures id.Some? ==> exists i | 0 <= i < |url| ::
      && MatchAt(url, i)
      && (forall j | 0 <= j < i :: !MatchAt(url, j))
      && id.value == IdAt(url, i)
  {
    YouTubeIdFromSpec(url, 0);
    YouTubeIdFrom(url, 0)
  }

  /** A watch or short link yields the run of id characters after its marker, whatever comes
      in front of the marker as long as it holds no `y` or `Y` (a scheme and host such as
      `https://www.`) and whatever follows the run. */
  lemma LinkId(front: string, marker: string, id: string, rest: string)
    requires marker == WatchMarker || marker == ShortMarker
    requires forall k | 0 <= k < |front| :: LowerChar(front[k]) != 'y'
    requires |id| > 0 && forall k | 0 <= k < |id| :: IsIdChar(id[k])
    requires rest == [] || !IsIdChar(rest[0])
    ensures YouTubeId(front + marker + id + rest) == Some(id)
  {
    LinkIdFrom(front, marker, id, rest);
  }

  lemma LinkIdFrom(front: string, marker: string, id: string, rest: string)
    requires marker == WatchMarker || marker == ShortMarker
    requires forall k | 0 <= k < |front| :: LowerChar(front[k]) != 'y'
    requires |id| > 0 && forall k | 0 <= k < |id| :: IsIdChar(id[k])
    requires rest == [] || !IsIdChar(rest[0])
    ensures YouTubeIdFrom(front + marker + id + rest, 0) == Some(id)
  {
    var url := front + marker + id + rest;
    var i := |front|;
    var start := i + |marker|;
    Pieces(front, marker, id, rest);
    SkipWithoutY(url, 0, i);
    MarkersLower();
    LowerOccurs(url, marker, i);
    MarkerLengthSpec(url, i);
    IdRunCovers(url, start, |id|);
    assert MatchAt(url, i);
  }

  /** Where the four parts of `a + b + c + d` sit. */
  lemma Pieces(a: string, b: string, c: string, d: string)
    ensures var u := a + b + c + d;
      && |u| == |a| + |b| + |c| + |d|
      && (forall k | 0 <= k < |a| :: u[k] == a[k])
      && OccursAt(u, b, |a|)
      && u[|a| + |b|..|a| + |b| + |c|] == c
      && (forall k | |a| + |b| <= k < |a| + |b| + |c| :: u[k] == c[k - |a| - |b|])
      && (|d| > 0 ==> u[|a| + |b| + |c|] == d[0])
  {
  }

  /** Both markers are already lower case. */
  lemma MarkersLower()
    ensures LowerAscii(WatchMarker) == WatchMarker && LowerAscii(ShortMarker) == ShortMarker
  {
  }

  /** A lower-case occurrence stays an occurrence after lower-casing the text. */
  lemma LowerOccurs(u: string, t: string, i: nat)
    requires OccursAt(u, t, i) && LowerAscii(t) == t
    ensures OccursAt(LowerAscii(u), t, i)
  {
    assert LowerAscii(u)[i..i + |t|] == LowerAscii(u[i..i + |t|]);
  }

  /** A run of `len` id characters followed by a non-id character (or the end) is the whole run. */
  lemma {:induction false} IdRunCovers(url: string, j: nat, len: nat)
    requires j + len <= |url|
    requires forall k | j <= k < j + len :: IsIdChar(url[k])
    requires j + len == |url| || !IsIdChar(url[j + len])
    ensures IdRun(url, j) == len
    decreases len
  {
    if len > 0 {
      IdRunCovers(url, j + 1, len - 1);
    }
  }

  /** Characters other than `y` and `Y` cannot start a match, so the search skips them. */
  lemma {:induction false} SkipWithoutY(url: string, start: nat, stop: nat)
    requires start <= stop <= |url|
    requires forall k | start <= k < stop :: LowerChar(url[k]) != 'y'
    ensures YouTubeIdFrom(url, start) == YouTubeIdFrom(url, stop)
    decreases stop
  {
    if start < stop {
      SkipWithoutY(url, start, stop - 1);
      NoMatchWithoutY(url, stop - 1);
    }
  }

  /** No match starts at a character other than `y` or `Y`. */
  lemma NoMatchWithoutY(url: string, i: nat)
    requires i < |url| && LowerChar(url[i]) != 'y'
    ensures !MatchAt(url, i)
  {
    CharOfOccurrence(LowerAscii(url), WatchMarker, i, 0);
    CharOfOccurrence(LowerAscii(url), ShortMarker, i, 0);
  }

  // ---------------------------------------------------------------------------
  // renderContent
  // ---------------------------------------------------------------------------

  /** What the dialog body shows. */
  datatype Preview =
    | NoPreview
    | YouTubeEmbed(src: string, title: string)
    | VideoPlayer(src: string)
    | Frame(src: string, title: string)

  /** `resource?.title || fallback`. */
  function TitleOr(resource: Option<Resource>, fallback: string): (title: string)
    ensures title == fallback || (resource.Some? && title == resource.value.title)
    ensures title == "" ==> fallback == ""
  {
    if resource.Some? && resource.value.title != "" then resource.value.title else fallback
  }

  predicate IsVideoType(resource: Option<Resource>)
  {
    resource.Some? && resource.value.resourceType == Video
  }

  /** `renderContent`. */
  function RenderContent(url: Option<string>, resource: Option<Resource>): (p: Preview)
    ensures p == NoPreview <==> !Truthy(url)
    ensures Truthy(url) && IsVideoFile(url.value) ==> !p.YouTubeEmbed?
    ensures p.YouTubeEmbed? <==> Truthy(url) && !IsVideoFile(url.value) && YouTubeId(url.value).Some?
    ensures p.YouTubeEmbed? ==> p.src == EmbedPrefix + YouTubeId(url.value).value && p.title == TitleOr(resource, "Video")
    ensures p.VideoPlayer? <==> Truthy(url) && !p.YouTubeEmbed? && (IsVideoType(resource) || IsVideoFile(url.value))
    ensures p.VideoPlayer? ==> p.src == url.value
    ensures p.Frame? ==> p.src == url.value && p.title == TitleOr(resource, "Resource")
  {
    if !Truthy(url) then NoPreview
    else
      var u := url.value;
      var isVideoType := IsVideoType(resource);
      var isVideoFile := IsVideoFile(u);
      var ytMatch := YouTubeId(u);
      if !isVideoFile && ytMatch.Some? then YouTubeEmbed(EmbedPrefix + ytMatch.value, TitleOr(resource, "Video"))
      else if isVideoType || isVideoFile then VideoPlayer(u)
      else Frame(u, TitleOr(resource, "Resource"))
  }

  /** A short link served over https is embedded with its id, whatever the resource type. */
  lemma ShortLinkEmbedded(id: string, resource: Option<Resource>)
    requires |id| > 0 && forall k | 0 <= k < |id| :: IsIdChar(id[k])
    ensures RenderContent(Some("https://" + ShortMarker + id), resource)
      == YouTubeEmbed(EmbedPrefix + id, TitleOr(resource, "Video"))
  {
    ShortLinkMatches(id);
  }

  /** An https short link yields its id and is no video file. */
  lemma ShortLinkMatches(id: string)
    requires |id| > 0 && forall k | 0 <= k < |id| :: IsIdChar(id[k])
    ensures YouTubeId("https://" + ShortMarker + id) == Some(id)
    ensures !IsVideoFile("https://" + ShortMarker + id)
  {
    var scheme := "https://";
    var head := scheme + ShortMarker;
    var url := head + id;
    LinkId(scheme, ShortMarker, id, []);
    assert scheme + ShortMarker + id + [] == url;
    ShortLinkDots(id);
    NotVideoFile(url);
  }

  lemma ShortLinkDots(id: string)
    requires forall k | 0 <= k < |id| :: IsIdChar(id[k])
    ensures var url := "https://" + ShortMarker + id;
      forall i | 0 <= i < |url| && url[i] == '.' :: i + 1 < |url| && LowerChar(url[i + 1]) == 'b'
  {
    var head := "https://" + ShortMarker;
    var url := head + id;
    assert forall j | |head| <= j < |url| :: url[j] == id[j - |head|];
    forall i | 0 <= i < |url| && url[i] == '.' ensures i + 1 < |url| && LowerChar(url[i + 1]) == 'b' {
      if i < |head| {
        assert url[i] == head[i];
        assert i == 13;
        assert url[i + 1] == head[14];
      }
    }
  }

  /** A URL whose every `.` is followed by a `b` or `B` is no video file. */
  lemma NotVideoFile(url: string)
    requires forall i | 0 <= i < |url| && url[i] == '.' :: i + 1 < |url| && LowerChar(url[i + 1]) == 'b'
    ensures !IsVideoFile(url)
  {
    forall i, k | 0 <= i < |url| && 0 <= k < |VideoSuffixes| ensures !VideoSuffixAt(url, i, VideoSuffixes[k]) {
      var ext := VideoSuffixes[k];
      CharOfOccurrence(LowerAscii(url), ext, i, 0);
      CharOfOccurrence(LowerAscii(url), ext, i, 1);
    }
  }
}
