/**
 * The server-side `lazy_load_block` filter of GutenbergPerformanceOptimizer:
 * two sequential regular-expression rewrites of the rendered block markup,
 *   /<img(.*?)>/    -> <img$1 loading="lazy">
 *   /<iframe(.*?)>/ -> <iframe$1 loading="lazy">
 * each guarded by a substring test. PCRE semantics are modelled for exactly
 * these two patterns: matches are found left to right and do not overlap;
 * the lazy `(.*?)` ends at the first `>`, and since `.` (no `s` flag) does not
 * match a line feed, a line feed before that `>` makes the match fail there.
 */
module LazyLoad {
  import opened Wrappers

  /** The text inserted in front of the closing `>` of every matched tag. */
  const Marker: string := " loading=\"lazy\""

  const ImgTag: string := "<img"
  const IframeTag: string := "<iframe"

  /** `tag` occurs in `s` starting at position `p`. */
  predicate TagAt(s: string, tag: string, p: nat) {
    p + |tag| <= |s| && s[p..p + |tag|] == tag
  }

  /** `strpos($s, $tag) !== false`: the tag occurs somewhere in `s`. */
  function Contains(s: string, tag: string): (r: bool)
    ensures r <==> exists p: nat :: TagAt(s, tag, p)
  {
    exists p | 0 <= p <= |s| - |tag| :: TagAt(s, tag, p)
  }

  /** No `>` and no line feed in `s[lo..hi]`: a stretch that `(.*?)` can cover without reaching its `>`. */
  predicate Clean(s: string, lo: nat, hi: nat)
    requires lo <= hi <= |s|
  {
    forall k :: lo <= k < hi ==> s[k] != '>' && s[k] != '\n'
  }

  /**
   * Where `(.*?)>` starting at `i` ends: the first `>` at or after `i`,
   * or None when a line feed or the end of the text comes first.
   */
  function FindClose(s: string, i: nat): (r: Option<nat>)
    requires i <= |s|
    ensures r.Some? ==> i <= r.value < |s| && s[r.value] == '>' && Clean(s, i, r.value)
    ensures r.None? ==> forall j :: i <= j < |s| && Clean(s, i, j) ==> s[j] != '>'
    decreases |s| - i
  {
    if i == |s| then None
    else if s[i] == '>' then Some(i)
    else if s[i] == '\n' then None
    else FindClose(s, i + 1)
  }

  /** The match of `/<tag(.*?)>/` that starts at `p`, given as the position of its closing `>`. */
  function MatchAt(s: string, tag: string, p: nat): (r: Option<nat>)
    requires p <= |s|
    ensures r.Some? ==> TagAt(s, tag, p) && p + |tag| <= r.value < |s| && s[r.value] == '>'
    ensures r.Some? ==> Clean(s, p + |tag|, r.value)
    ensures r.None? && TagAt(s, tag, p) ==> FindClose(s, p + |tag|).None?
  {
    if TagAt(s, tag, p) then FindClose(s, p + |tag|) else None
  }

  /**
   * `preg_replace('/<tag(.*?)>/', '<tag$1 loading="lazy">', …)` applied to
   * `s[i..]`: at each position either a match starts, and the matched text
   * is copied with the marker in front of its `>` and the scan resumes after
   * that `>`, or one character is copied and the scan moves on by one.
   */
  function ReplaceFrom(s: string, tag: string, i: nat): (r: string)
    requires i <= |s|
    ensures |r| >= |s| - i
    decreases |s| - i
  {
    if i == |s| then []
    else match MatchAt(s, tag, i)
      case Some(j) => s[i..j] + Marker + ">" + ReplaceFrom(s, tag, j + 1)
      case None => [s[i]] + ReplaceFrom(s, tag, i + 1)
  }

  /** One rewrite pass over the whole text; it only ever inserts. */
  function Replace(s: string, tag: string): (r: string)
    ensures |r| >= |s|
  {
    ReplaceFrom(s, tag, 0)
  }

  /** `lazy_load_block($block_content, $block)`: the `<img` pass, then the `<iframe` pass on its output. */
  function LazyLoadBlock(content: string): (r: string)
    ensures |r| >= |content|
    ensures !Contains(content, ImgTag) && !Contains(content, IframeTag) ==> r == content
  {
    var afterImg := if Contains(content, ImgTag) then Replace(content, ImgTag) else content;
    if Contains(afterImg, IframeTag) then Replace(afterImg, IframeTag) else afterImg
  }
}
