/** The `youtube_embed` template filter of courses/templatetags/youtube_tags.py: it turns the video links
    stored on lessons into privacy-enhanced embed links. */
module YouTube {
  import opened Wrappers
  import opened PyStrings

  const NoCookieEmbed := "youtube-nocookie.com/embed/"
  const Embed := "youtube.com/embed/"
  /** What every recognised link becomes, followed by the video id. */
  const EmbedBase := Scheme + NoCookieEmbed
  const Scheme := "https://www."

  /** The literal parts of the four id patterns, in the order they are tried. */
  const WatchPrefix := "youtube.com/watch?v="
  const MobileWatchPrefix := "m." + WatchPrefix
  const ShortLinkPrefix := "youtu.be/"
  const VPrefix := "youtube.com/v/"
  const ShortsPrefix := "youtube.com/shorts/"

  /** The character class `[a-zA-Z0-9_-]` of a video id. */
  predicate IsIdChar(c: char) {
    ('a' <= c <= 'z') || ('A' <= c <= 'Z') || ('0' <= c <= '9') || c == '_' || c == '-'
  }

  /** What the greedy group `([a-zA-Z0-9_-]+)` takes from the front of `s`: the longest run of id
      characters. */
  function IdRun(s: string): (r: string)
    ensures r <= s
    ensures forall k :: 0 <= k < |r| ==> IsIdChar(r[k])
    ensures |r| < |s| ==> !IsIdChar(s[|r|])
  {
    if |s| > 0 && IsIdChar(s[0]) then [s[0]] + IdRun(s[1..]) else []
  }

  /** The pattern `prefix([a-zA-Z0-9_-]+)` matches at position `p`: the literal prefix is there and at
      least one id character follows it. */
  predicate MatchAt(s: string, prefix: string, p: nat) {
    p + |prefix| < |s| && prefix <= s[p..] && IsIdChar(s[p + |prefix|])
  }

  /** The leftmost position at or after `from` where the pattern matches. */
  function FirstMatch(s: string, prefix: string, from: nat): (r: Option<nat>)
    ensures r.Some? ==>
      && from <= r.value
      && MatchAt(s, prefix, r.value)
      && forall q :: from <= q < r.value ==> !MatchAt(s, prefix, q)
    ensures r.None? ==> forall q :: from <= q ==> !MatchAt(s, prefix, q)
    decreases |s| - from
  {
    if from >= |s| then None
    else if MatchAt(s, prefix, from) then Some(from)
    else FirstMatch(s, prefix, from + 1)
  }

  /** The id group of the match at `p`. */
  function IdAfter(s: string, prefix: string, p: nat): (r: string)
    requires MatchAt(s, prefix, p)
    ensures |r| > 0 && forall k :: 0 <= k < |r| ==> IsIdChar(r[k])
  {
    IdRun(s[p + |prefix|..])
  }

  /** `re.search(prefix + '([a-zA-Z0-9_-]+)', s).group(1)`, or None when the search fails. */
  function Search(s: string, prefix: string): (r: Option<string>)
    ensures r.None? <==> forall q: nat :: !MatchAt(s, prefix, q)
    ensures r.Some? ==> exists p: nat ::
      && MatchAt(s, prefix, p)
      && (forall q :: 0 <= q < p ==> !MatchAt(s, prefix, q))
      && r.value == IdAfter(s, prefix, p)
  {
    match FirstMatch(s, prefix, 0)
    case None => None
    case Some(p) => Some(IdAfter(s, prefix, p))
  }

  /** The leftmost position at or after `from` where either alternative matches. */
  function FirstMatchEither(s: string, a: string, b: string, from: nat): (r: Option<nat>)
    ensures r.Some? ==>
      && from <= r.value
      && (MatchAt(s, a, r.value) || MatchAt(s, b, r.value))
      && forall q :: from <= q < r.value ==> !MatchAt(s, a, q) && !MatchAt(s, b, q)
    ensures r.None? ==> forall q :: from <= q ==> !MatchAt(s, a, q) && !MatchAt(s, b, q)
    decreases |s| - from
  {
    if from >= |s| then None
    else if MatchAt(s, a, from) || MatchAt(s, b, from) then Some(from)
    else FirstMatchEither(s, a, b, from + 1)
  }

  /** The watch pattern `(?:youtube\.com|m\.youtube\.com)/watch\?v=([a-zA-Z0-9_-]+)`: at the leftmost
      position where an alternative matches, the first alternative is preferred. */
  function WatchId(s: string): (r: Option<string>)
  {
    match FirstMatchEither(s, WatchPrefix, MobileWatchPrefix, 0)
    case None => None
    case Some(p) =>
      if MatchAt(s, WatchPrefix, p) then Some(IdAfter(s, WatchPrefix, p))
      else Some(IdAfter(s, MobileWatchPrefix, p))
  }

  /** A mobile match at `p` is a desktop match two characters later. */
  lemma MobileContainsDesktop(s: string, p: nat)
    requires MatchAt(s, MobileWatchPrefix, p)
    ensures MatchAt(s, WatchPrefix, p + 2)
    ensures IdAfter(s, MobileWatchPrefix, p) == IdAfter(s, WatchPrefix, p + 2)
    ensures s[p + 1] == '.'
  {
    assert MobileWatchPrefix[1] == '.';
    assert s[p..][2..] == s[p + 2..];
    assert WatchPrefix <= s[p..][2..];
  }

  /** The desktop pattern cannot start on a dot. */
  lemma NoDesktopMatchAtDot(s: string, q: nat)
    requires q < |s| && s[q] == '.'
    ensures !MatchAt(s, WatchPrefix, q)
  {
  }

  /** The mobile alternative adds nothing: the watch pattern finds exactly the id that searching for
      `youtube.com/watch?v=` alone finds. */
  lemma WatchIdDesktopOnly(s: string)
    ensures WatchId(s) == Search(s, WatchPrefix)
  {
    match FirstMatchEither(s, WatchPrefix, MobileWatchPrefix, 0)
    case None =>
      forall q: nat ensures !MatchAt(s, WatchPrefix, q) {
      }
    case Some(p) =>
      if !MatchAt(s, WatchPrefix, p) {
        MobileContainsDesktop(s, p);
        NoDesktopMatchAtDot(s, p + 1);
        var f := FirstMatch(s, WatchPrefix, 0);
        assert f == Some(p + 2);
      } else {
        var f := FirstMatch(s, WatchPrefix, 0);
        assert f == Some(p);
      }
  }

  /** The id extraction: the four patterns are tried in order and the first that matches decides. */
  function ExtractVideoId(s: string): (r: Option<string>)
    ensures r.Some? ==> |r.value| > 0 && forall k :: 0 <= k < |r.value| ==> IsIdChar(r.value[k])
    ensures r.None? <==> forall q: nat ::
      !MatchAt(s, WatchPrefix, q) && !MatchAt(s, ShortLinkPrefix, q) &&
      !MatchAt(s, VPrefix, q) && !MatchAt(s, ShortsPrefix, q)
    ensures Search(s, WatchPrefix).Some? ==> r == Search(s, WatchPrefix)
    ensures Search(s, WatchPrefix).None? && Search(s, ShortLinkPrefix).Some? ==> r == Search(s, ShortLinkPrefix)
    ensures Search(s, WatchPrefix).None? && Search(s, ShortLinkPrefix).None? && Search(s, VPrefix).Some? ==>
      r == Search(s, VPrefix)
    ensures Search(s, WatchPrefix).None? && Search(s, ShortLinkPrefix).None? && Search(s, VPrefix).None? ==>
      r == Search(s, ShortsPrefix)
  {
    WatchIdDesktopOnly(s);
    match WatchId(s)
    case Some(id) => Some(id)
    case None =>
      match Search(s, ShortLinkPrefix)
      case Some(id) => Some(id)
      case None =>
        match Search(s, VPrefix)
        case Some(id) => Some(id)
        case None => Search(s, ShortsPrefix)
  }

  /** The filter's work on a non-empty, stripped link. */
  function Normalize(v: string): (r: string)
    ensures Contains(v, NoCookieEmbed) ==> r == v
    ensures !Contains(v, NoCookieEmbed) && Contains(v, Embed) ==>
      r == ReplaceAll(v, Embed, NoCookieEmbed) && Contains(r, NoCookieEmbed)
    ensures !Contains(v, NoCookieEmbed) && !Contains(v, Embed) && ExtractVideoId(v).Some? ==>
      r == EmbedBase + ExtractVideoId(v).value
    ensures !Contains(v, NoCookieEmbed) && !Contains(v, Embed) && ExtractVideoId(v).None? ==> r == v
    ensures r == v || Contains(r, NoCookieEmbed)
    ensures Stripped(v) ==> Stripped(r)
  {
    if Contains(v, NoCookieEmbed) then v
    else if Contains(v, Embed) then
      ReplacePresent(v, Embed, NoCookieEmbed);
      NoCookieEmbedEnds();
      ReplaceStripped(v, Embed, NoCookieEmbed);
      ReplaceAll(v, Embed, NoCookieEmbed)
    else
      match ExtractVideoId(v)
      case Some(id) =>
        EmbedLinkFacts(id);
        EmbedBase + id
      case None => v
  }

  lemma NoCookieEmbedEnds()
    ensures |NoCookieEmbed| > 0 && !IsSpace(NoCookieEmbed[0]) && !IsSpace(NoCookieEmbed[|NoCookieEmbed| - 1])
  {
  }

  /** A built embed link names the privacy-enhanced host and has no whitespace at its ends. */
  lemma EmbedLinkFacts(id: string)
    requires |id| > 0 && forall k :: 0 <= k < |id| ==> IsIdChar(id[k])
    ensures Contains(EmbedBase + id, NoCookieEmbed)
    ensures Stripped(EmbedBase + id)
  {
    ContainsMiddle(Scheme, NoCookieEmbed, id);
    IdCharNotSpace(id[|id| - 1]);
    StrippedBetween(EmbedBase, id);
  }

  /** A string that starts with a non-space and ends with a non-space character is stripped. */
  lemma StrippedBetween(a: string, b: string)
    requires |a| > 0 && !IsSpace(a[0]) && |b| > 0 && !IsSpace(b[|b| - 1])
    ensures Stripped(a + b)
  {
    assert (a + b)[0] == a[0];
    assert (a + b)[|a + b| - 1] == b[|b| - 1];
  }

  lemma IdCharNotSpace(c: char)
    requires IsIdChar(c)
    ensures !IsSpace(c)
  {
  }

  /** `youtube_embed(url)`: None and the empty string come back as they are; anything else is stripped
      and then normalised. */
  function YoutubeEmbed(url: Option<string>): (r: Option<string>)
    ensures url.None? ==> r.None?
    ensures url == Some([]) ==> r == url
    ensures url.Some? && |url.value| > 0 ==> r == Some(Normalize(Strip(url.value)))
    ensures r.Some? ==> Stripped(r.value)
  {
    match url
    case None => None
    case Some(u) => if |u| == 0 then url else Some(Normalize(Strip(u)))
  }

  /** Applying the filter twice is applying it once. */
  lemma YoutubeEmbedIdempotent(url: Option<string>)
    ensures YoutubeEmbed(YoutubeEmbed(url)) == YoutubeEmbed(url)
  {
    if url.Some? && |url.value| > 0 {
      var w := Normalize(Strip(url.value));
      StripFixed(w);
    }
  }
}
