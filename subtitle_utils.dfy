/**
 * The subtitle pipeline of `subtitles/utils.py`: cut a transcript into
 * chunks, send each chunk to the language model with one of two prompts,
 * and join the stripped replies; and `fetch_transcripts`, which turns a
 * video URL into the single-line original text and its rewritten version.
 *
 * The language model is the parameter `complete`, a function from the
 * request (model name, prompt template, chunk) to the reply text; the
 * transcript library is the parameter `transcriptOf`, from a video id to
 * the texts of the snippets of the first transcript, or `None` when the
 * library yields none.
 */
module SubtitleUtils {
  import opened Wrappers
  import opened PyStr
  import opened Chunker
  import opened Downsub

  /** Which of the two prompt templates a request uses. */
  datatype Mode = TranslateAndRewrite | RewriteArabic

  /** One call to the language model. */
  datatype Request = Request(model: string, mode: Mode, chunk: string)

  datatype FetchError =
    | InvalidUrl(cause: Downsub.Error)
    | TranscriptUnavailable(videoId: string)

  const DefaultMaxChunkSize: int := 2000
  const DefaultModel: string := "gpt-4o-mini"

  /** The requests for `chunks`, one per chunk and in their order. */
  function RequestsFor(model: string, mode: Mode, chunks: seq<string>): seq<Request> {
    seq(|chunks|, i requires 0 <= i < |chunks| => Request(model, mode, chunks[i]))
  }

  /** The chunks that `requests` carry. */
  function ChunksOf(requests: seq<Request>): seq<string> {
    seq(|requests|, i requires 0 <= i < |requests| => requests[i].chunk)
  }

  /** The replies to `requests`, each with its surrounding whitespace stripped. */
  function Replies(requests: seq<Request>, complete: Request -> string): seq<string> {
    seq(|requests|, i requires 0 <= i < |requests| => Strip(complete(requests[i])))
  }

  /**
   * The loop over the chunks: one model call per chunk, in order, each
   * reply stripped, all replies joined with newlines.
   */
  method ProcessChunks(model: string, mode: Mode, chunks: seq<string>, complete: Request -> string)
    returns (output: string, requests: seq<Request>)
    ensures |requests| == |chunks|
    ensures forall i | 0 <= i < |requests| :: requests[i] == Request(model, mode, chunks[i])
    ensures output == JoinWith("\n", Replies(requests, complete))
  {
    var parts: seq<string> := [];
    requests := [];
    for idx := 0 to |chunks|
      invariant requests == RequestsFor(model, mode, chunks[..idx])
      invariant parts == Replies(requests, complete)
    {
      var request := Request(model, mode, chunks[idx]);
      var response := complete(request);
      parts := parts + [Strip(response)];
      requests := requests + [request];
    }
    assert chunks[..|chunks|] == chunks;
    output := JoinWith("\n", parts);
  }

  /**
   * `translate_and_rewrite_with_gpt` (mode `TranslateAndRewrite`) and
   * `rewrite_arabic_with_gpt` (mode `RewriteArabic`): the two differ only
   * in the prompt template. The chunks sent are exactly those of the
   * chunking loop; woven back with the whitespace runs dropped between
   * them they give `text` again, and none is longer than `maxChunkSize`.
   */
  method RewriteInChunks(mode: Mode, text: string, maxChunkSize: int, model: string, complete: Request -> string)
    returns (output: string, requests: seq<Request>)
    requires maxChunkSize > 0
    ensures ChunksOf(requests) == Chunks(text, maxChunkSize)
    ensures forall i | 0 <= i < |requests| :: requests[i].model == model && requests[i].mode == mode
    ensures forall i | 0 <= i < |requests| :: |requests[i].chunk| <= maxChunkSize
    ensures |requests| == |Gaps(text, maxChunkSize)|
    ensures Weave(ChunksOf(requests), Gaps(text, maxChunkSize)) == text
    ensures requests == [] <==> text == []
    ensures output == JoinWith("\n", Replies(requests, complete))
  {
    var chunks := SplitIntoChunks(text, maxChunkSize);
    output, requests := ProcessChunks(model, mode, chunks, complete);
    assert ChunksOf(requests) == chunks;
    ChunksBounded(text, maxChunkSize);
    ChunksReconstruct(text, maxChunkSize);
  }

  /** `" ".join(raw.splitlines())`: the transcript on one line. */
  function SingleLine(raw: string): (line: string)
    ensures NoLineBreak(line)
    ensures raw == [] ==> line == []
  {
    var lines := SplitLines(raw);
    JoinKeepsNoLineBreak(" ", lines);
    JoinWith(" ", lines)
  }

  /**
   * `"\n".join(sn.text for sn in fetched)`: the snippet texts, one per line;
   * the transcript counts as Arabic exactly when one of its snippets does.
   */
  function RawText(snippets: seq<string>): (raw: string)
    ensures IsArabic(raw) <==> exists i | 0 <= i < |snippets| :: IsArabic(snippets[i])
  {
    IsArabicJoin("\n", snippets);
    JoinWith("\n", snippets)
  }

  /**
   * `fetch_transcripts`: for an Arabic transcript the original is hidden
   * (`None`) and the text is only rewritten; otherwise the single-line
   * original is returned with its translation. The second component is
   * the stripped output of the chunked rewrite of the raw text.
   */
  method FetchTranscripts(videoUrl: string, transcriptOf: string -> Option<seq<string>>, complete: Request -> string)
    returns (r: Result<(Option<string>, string), FetchError>, requests: seq<Request>)
    ensures r.Success? <==> GetVideoId(videoUrl).Success? && transcriptOf(GetVideoId(videoUrl).value).Some?
    ensures GetVideoId(videoUrl).Failure? ==> r == Failure(InvalidUrl(GetVideoId(videoUrl).error)) && requests == []
    ensures GetVideoId(videoUrl).Success? && transcriptOf(GetVideoId(videoUrl).value).None? ==>
      r == Failure(TranscriptUnavailable(GetVideoId(videoUrl).value)) && requests == []
    ensures r.Success? ==>
      GetVideoId(videoUrl).Success? && transcriptOf(GetVideoId(videoUrl).value).Some? &&
      var raw := RawText(transcriptOf(GetVideoId(videoUrl).value).value);
      && (r.value.0.None? <==> IsArabic(raw))
      && (r.value.0.Some? ==> r.value.0.value == SingleLine(raw))
      && ChunksOf(requests) == Chunks(raw, DefaultMaxChunkSize)
      && (forall i | 0 <= i < |requests| ::
            requests[i].model == DefaultModel &&
            requests[i].mode == (if IsArabic(raw) then RewriteArabic else TranslateAndRewrite))
      && r.value.1 == Strip(JoinWith("\n", Replies(requests, complete)))
  {
    var id := GetVideoId(videoUrl);
    if id.Failure? {
      return Failure(InvalidUrl(id.error)), [];
    }
    var fetched := transcriptOf(id.value);
    if fetched.None? {
      return Failure(TranscriptUnavailable(id.value)), [];
    }
    var raw := RawText(fetched.value);
    var original := SingleLine(raw);
    if IsArabic(raw) {
      var rewrittenRaw;
      rewrittenRaw, requests := RewriteInChunks(RewriteArabic, raw, DefaultMaxChunkSize, DefaultModel, complete);
      r := Success((None, Strip(rewrittenRaw)));
    } else {
      var translatedRaw;
      translatedRaw, requests := RewriteInChunks(TranslateAndRewrite, raw, DefaultMaxChunkSize, DefaultModel, complete);
      r := Success((Some(original), Strip(translatedRaw)));
    }
  }

  /** Joining with a separator that is not Arabic: the text is Arabic exactly when one of the parts is. */
  lemma {:induction false} IsArabicJoin(sep: string, xs: seq<string>)
    requires !IsArabic(sep)
    ensures IsArabic(JoinWith(sep, xs)) <==> exists i | 0 <= i < |xs| :: IsArabic(xs[i])
  {
    if |xs| > 1 {
      IsArabicJoin(sep, xs[1..]);
      var rest := JoinWith(sep, xs[1..]);
      IsArabicAppend(xs[0], sep);
      IsArabicAppend(xs[0] + sep, rest);
      if exists i | 0 <= i < |xs| - 1 :: IsArabic(xs[1..][i]) {
        var i :| 0 <= i < |xs| - 1 && IsArabic(xs[1..][i]);
        assert IsArabic(xs[i + 1]);
      }
      if exists i | 0 <= i < |xs| :: IsArabic(xs[i]) {
        var i :| 0 <= i < |xs| && IsArabic(xs[i]);
        if i > 0 {
          assert IsArabic(xs[1..][i - 1]);
        }
      }
    }
  }

  /**
   * When no snippet holds a line break and the last one is not empty, the
   * single-line original is the snippets joined with single spaces.
   */
  lemma SingleLineOfSnippets(snippets: seq<string>)
    requires forall i | 0 <= i < |snippets| :: NoLineBreak(snippets[i])
    requires snippets == [] || snippets[|snippets| - 1] != []
    ensures SingleLine(RawText(snippets)) == JoinWith(" ", snippets)
  {
    SplitLinesOfJoin(snippets);
  }

  /**
   * The single-line original, for every transcript: each line boundary
   * becomes one space, and a boundary that ends the text disappears.
   */
  lemma SingleLineReplacesBreaks(raw: string)
    ensures SingleLine(raw) == ReplaceBreaks(raw, ' ')
  {
    SplitLinesContents(raw, ' ');
  }
}
