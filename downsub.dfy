/**
 * downsub.py: extracting a YouTube video id from a URL (`get_video_id`) and
 * detecting Arabic text (`is_arabic`).
 */
module Downsub {
  import opened Wrappers

  /** The one exception `get_video_id` raises. */
  datatype Error = ValueError(message: string)

  const ErrorPrefix: string := "Could not extract video ID from URL: "

  /** The alternatives of the pattern's prefix group, in the order the regex tries them. */
  const Prefixes: seq<string> := ["v=", "youtu.be/", "youtube.com/embed/"]

  /** The character class `[\w-]`, with `\w` taken as ASCII `[A-Za-z0-9_]`. */
  predicate IsIdChar(c: char) {
    ('a' <= c <= 'z') || ('A' <= c <= 'Z') || ('0' <= c <= '9') || c == '_' || c == '-'
  }

  predicate AllIdChars(s: string) {
    forall i | 0 <= i < |s| :: IsIdChar(s[i])
  }

  predicate StartsAt(s: string, p: nat, literal: string) {
    p + |literal| <= |s| && s[p..p + |literal|] == literal
  }

  /** `literal` occurs at `p` and at least one id character follows it. */
  predicate IdFollows(url: string, p: nat, literal: string) {
    StartsAt(url, p, literal) && p + |literal| < |url| && IsIdChar(url[p + |literal|])
  }

  /** The whole pattern matches at position `p`. */
  predicate MatchesAt(url: string, p: nat) {
    exists k | 0 <= k < |Prefixes| :: IdFollows(url, p, Prefixes[k])
  }

  /** The greedy run `[\w-]*` that starts at index `i` of `s`. */
  function IdRun(s: string, i: nat): (run: string)
    requires i <= |s|
    ensures i + |run| <= |s| && run == s[i..i + |run|]
    ensures AllIdChars(run)
    ensures i + |run| == |s| || !IsIdChar(s[i + |run|])
    decreases |s| - i
  {
    if i < |s| && IsIdChar(s[i]) then [s[i]] + IdRun(s, i + 1) else []
  }

  /** The text captured by group 1 when the match is tried at `p`, alternatives in order. */
  function MatchAt(url: string, p: nat): (m: Option<string>)
    requires p <= |url|
    ensures m.Some? <==> MatchesAt(url, p)
  {
    if IdFollows(url, p, Prefixes[0]) then Some(IdRun(url, p + |Prefixes[0]|))
    else if IdFollows(url, p, Prefixes[1]) then Some(IdRun(url, p + |Prefixes[1]|))
    else if IdFollows(url, p, Prefixes[2]) then Some(IdRun(url, p + |Prefixes[2]|))
    else None
  }

  /** `re.search` from position `start`: the first position where the pattern matches, with its capture. */
  function Search(url: string, start: nat): (r: Option<(nat, string)>)
    requires start <= |url|
    ensures r.None? <==> forall q | start <= q <= |url| :: !MatchesAt(url, q)
    ensures r.Some? ==> start <= r.value.0 <= |url| && MatchAt(url, r.value.0) == Some(r.value.1)
    ensures r.Some? ==> forall q | start <= q < r.value.0 :: !MatchesAt(url, q)
    decreases |url| - start
  {
    match MatchAt(url, start)
    case Some(id) => Some((start, id))
    case None => if start == |url| then None else Search(url, start + 1)
  }

  /** `id` is what the leftmost match of the pattern in `url` captures, and it starts at `p`. */
  ghost predicate LeftmostMatch(url: string, p: nat, id: string) {
    p <= |url|
    && (forall q | 0 <= q < p :: !MatchesAt(url, q))
    && exists k | 0 <= k < |Prefixes| :: IdFollows(url, p, Prefixes[k]) && id == IdRun(url, p + |Prefixes[k]|)
  }

  /** `get_video_id(url)`: the captured id, or `ValueError` naming the URL. */
  function GetVideoId(url: string): (r: Result<string, Error>)
    ensures r.Success? ==> r.value != [] && AllIdChars(r.value)
    ensures r.Success? ==> exists p | 0 <= p <= |url| :: LeftmostMatch(url, p, r.value)
    ensures r.Failure? <==> forall p | 0 <= p <= |url| :: !MatchesAt(url, p)
    ensures r.Failure? ==> r.error == ValueError(ErrorPrefix + url)
  {
    match Search(url, 0)
    case None => Failure(ValueError(ErrorPrefix + url))
    case Some((p, id)) =>
      var k :| 0 <= k < |Prefixes| && IdFollows(url, p, Prefixes[k]);
      MatchAtCaptures(url, p, k);
      assert LeftmostMatch(url, p, id);
      Success(id)
  }

  /** At any position at most one of the three literals can be followed by an id. */
  lemma PrefixesExclusive(url: string, p: nat, k: nat, j: nat)
    requires k < |Prefixes| && j < |Prefixes|
    requires StartsAt(url, p, Prefixes[k]) && StartsAt(url, p, Prefixes[j])
    ensures k == j
  {
    LiteralCharAt(url, p, Prefixes[k], 0);
    LiteralCharAt(url, p, Prefixes[j], 0);
    if k != 0 && j != 0 {
      LiteralCharAt(url, p, Prefixes[k], 5);
      LiteralCharAt(url, p, Prefixes[j], 5);
    }
  }

  lemma LiteralCharAt(s: string, p: nat, literal: string, i: nat)
    requires StartsAt(s, p, literal) && i < |literal|
    ensures s[p + i] == literal[i]
  {
    assert s[p..p + |literal|][i] == s[p + i];
  }

  /** Whichever literal is followed by an id at `p`, the match there captures that id. */
  lemma MatchAtCaptures(url: string, p: nat, k: nat)
    requires p <= |url| && k < |Prefixes| && IdFollows(url, p, Prefixes[k])
    ensures MatchAt(url, p) == Some(IdRun(url, p + |Prefixes[k]|))
    ensures IdRun(url, p + |Prefixes[k]|) != []
  {
    if k != 0 && IdFollows(url, p, Prefixes[0]) {
      PrefixesExclusive(url, p, k, 0);
    }
    if k != 1 && IdFollows(url, p, Prefixes[1]) {
      PrefixesExclusive(url, p, k, 1);
    }
  }

  /** The leftmost-match description determines the result: whatever it names is what `get_video_id` returns. */
  lemma LeftmostMatchIsResult(url: string, p: nat, id: string)
    requires LeftmostMatch(url, p, id)
    ensures GetVideoId(url) == Success(id)
  {
    var k :| 0 <= k < |Prefixes| && IdFollows(url, p, Prefixes[k]) && id == IdRun(url, p + |Prefixes[k]|);
    MatchAtCaptures(url, p, k);
    var found := Search(url, 0);
    assert found.Some?;
    assert found.value.0 == p;
  }

  /**
   * A literal that is followed by a non-id character does not stop the
   * search: a later occurrence followed by an id still yields that id.
   */
  lemma SearchSkipsBareLiteral(url: string, p: nat, q: nat, k: nat, j: nat)
    requires k < |Prefixes| && j < |Prefixes| && p < q
    requires StartsAt(url, p, Prefixes[k]) && !IdFollows(url, p, Prefixes[k])
    requires IdFollows(url, q, Prefixes[j])
    requires forall r | 0 <= r < q && r != p :: !MatchesAt(url, r)
    ensures GetVideoId(url) == Success(IdRun(url, q + |Prefixes[j]|))
  {
    forall r | 0 <= r < q ensures !MatchesAt(url, r) {
      if r == p && MatchesAt(url, p) {
        var i :| 0 <= i < |Prefixes| && IdFollows(url, p, Prefixes[i]);
        PrefixesExclusive(url, p, k, i);
      }
    }
    LeftmostMatchIsResult(url, q, IdRun(url, q + |Prefixes[j]|));
  }

  /** One of the Arabic blocks the detector looks for: U+0600–U+06FF or U+0750–U+077F. */
  predicate IsArabicChar(c: char) {
    ('\U{0600}' <= c <= '\U{06FF}') || ('\U{0750}' <= c <= '\U{077F}')
  }

  /** `is_arabic(text)`: some character of `text` lies in an Arabic block. */
  function IsArabic(text: string): (b: bool)
    ensures b <==> exists i | 0 <= i < |text| :: IsArabicChar(text[i])
  {
    if text == [] then false
    else
      assert forall i | 1 <= i < |text| :: text[i] == text[1..][i - 1];
      IsArabicChar(text[0]) || IsArabic(text[1..])
  }

  /** The gap U+0700–U+074F between the two blocks does not count as Arabic. */
  lemma GapIsNotArabic(text: string)
    requires forall i | 0 <= i < |text| :: '\U{0700}' <= text[i] <= '\U{074F}'
    ensures !IsArabic(text)
  {
  }

  /** Detection over a concatenation is detection over either part. */
  lemma {:induction false} IsArabicAppend(a: string, b: string)
    ensures IsArabic(a + b) <==> IsArabic(a) || IsArabic(b)
  {
    var s := a + b;
    if IsArabic(a) {
      var i :| 0 <= i < |a| && IsArabicChar(a[i]);
      assert s[i] == a[i];
    }
    if IsArabic(b) {
      var i :| 0 <= i < |b| && IsArabicChar(b[i]);
      assert s[|a| + i] == b[i];
    }
    if IsArabic(s) {
      var i :| 0 <= i < |s| && IsArabicChar(s[i]);
      if i < |a| { assert s[i] == a[i]; } else { assert s[i] == b[i - |a|]; }
    }
  }
}
