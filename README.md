# downsub2 subtitle core in Dafny

downsub2 is a small web application: it takes a YouTube URL, fetches the
video's transcript, and has a language model either translate it to Arabic
and rewrite it (for a non-Arabic transcript) or only rewrite it (for an
Arabic one). This project models the part of it that is code rather than
service calls:

- `downsub.py`: `get_video_id` (module `Downsub`: the regular expression
  `(?:v=|youtu\.be/|youtube\.com/embed/)([\w-]+)` searched leftmost-first,
  with its three alternatives tried in order and the id run taken greedily,
  or `ValueError` naming the URL) and `is_arabic` (some character in
  U+0600–U+06FF or U+0750–U+077F).
- `subtitles/utils.py`: the chunking loop that both
  `translate_and_rewrite_with_gpt` and `rewrite_arabic_with_gpt` start with
  (module `Chunker`), the loop that sends each chunk to the model and joins
  the stripped replies with newlines, and `fetch_transcripts` (module
  `SubtitleUtils`).
- The Python `str` builtins those lines depend on (module `PyStr`):
  `isspace` (Python's 29 whitespace code points), `lstrip`, `rstrip`,
  `strip`, `rfind`, `sep.join` and `splitlines` (Python's fixed set of line
  boundaries, with `\r\n` as one boundary and no empty line after a final
  break).

The language model is a function parameter `complete` from a `Request`
(model name, which of the two prompt templates, the chunk) to the reply
text; the methods also return the list of requests they made, in order, so
the contracts can say which calls happen. The transcript library is a
function parameter `transcriptOf` from a video id to the snippet texts of
its first transcript, or `None` when the library yields no transcript.

The chunking loop is the `while` loop of `Chunker.SplitIntoChunks`, proved
against the recursive specification `Chunker.Chunks`; everything proved
about `Chunks` (bounds, the cut rule, reconstruction) therefore holds of
the loop. `Chunker.Gaps` names the whitespace run `lstrip` drops after each
chunk, and `Chunker.Weave` puts chunks and gaps back together.

Behaviour of the code worth knowing, as the model states it:

- Only U+0020 is a cut point. A tab, newline or other whitespace in the
  window is never cut at; the window's last space is.
- Every chunk, the last included, is at most `max_chunk_size` long.
- What remains after a chunk loses all its leading whitespace, so the
  text is the chunks each followed by a whitespace run, not the chunks
  joined with single spaces. A remainder that fits in the window becomes
  the last chunk unchanged, trailing whitespace included.
- An empty chunk can occur, and only as the first: a text longer than the
  window that starts with a space and has no other space in the window
  gives `rfind` the answer 0. The model still sends it to the language model.
- The single-line original is the raw text with every line boundary
  (`\r\n` counted once) replaced by one space and a boundary at the very
  end dropped. So it is the snippets joined with single spaces if no
  snippet holds a line break and the last is not empty; line breaks inside
  snippets are replaced too.
- The final `strip()` of `fetch_transcripts` is not redundant: the
  replies are stripped one by one, but an empty first or last reply leaves
  a newline at the edge of the joined text.

## Model

| member | source | states |
|---|---|---|
| `Chunker.SplitIntoChunks` | subtitles/utils.py:9-17 | the `while` loop returns exactly the chunks `Chunks` specifies (the same loop is at lines 54-62) |
| `Chunker.CutLength` | subtitles/utils.py:11-15 | the cut is at most the window and the text; a text that fits is taken whole; a cut shorter than both falls on a space |
| `Chunker.CutRule` | subtitles/utils.py:11-15 | the three cases: fits → whole text; a space in the window → cut just before its last space; no space → the whole window |
| `Chunker.Rest` | subtitles/utils.py:17 | what remains is strictly shorter (so the loop ends for a positive size), empty when the text fit, and starts with non-whitespace |
| `Chunker.Chunks` | subtitles/utils.py:9-17 | no chunks exactly when the text is empty |
| `Chunker.ChunksBounded` | subtitles/utils.py:11-15 | every chunk is at most `max_chunk_size` long |
| `Chunker.ChunksReconstruct` | subtitles/utils.py:16-17 | the text is chunk 1, gap 1, chunk 2, gap 2, …, each gap whitespace only |
| `Chunker.OneIteration` | subtitles/utils.py:11-17 | one turn splits the text into chunk, dropped whitespace and remainder |
| `Chunker.IterationAt` | subtitles/utils.py:10-17 | turn `i` starts from remainder `i`, cuts chunk `i` and drops gap `i`; the next turn starts from what it leaves, and the last leaves nothing |
| `Chunker.SplitRule` | subtitles/utils.py:11-16 | the cut rule for every turn: a fitting remainder is the last chunk, unchanged; otherwise the chunk is the prefix that stops just before the window's last space, or is the whole window when there is none |
| `Chunker.SpaceIsOnlySplitPoint` | subtitles/utils.py:13-15 | a chunk shorter than the limit that is followed by anything is followed by U+0020 |
| `Chunker.LaterChunksStartWithText` | subtitles/utils.py:17 | every chunk after the first is non-empty and starts with a non-whitespace character |
| `Chunker.EmptyChunkOnlyFirst` | subtitles/utils.py:13-16 | an empty chunk is the first, from a text longer than the window that starts with a space and has no other space in the window |
| `PyStr.LStrip` | subtitles/utils.py:17 | `lstrip()` leaves a suffix no longer than the input that does not start with whitespace, strictly shorter when the input did |
| `PyStr.LStripRemovesSpace` | subtitles/utils.py:17 | `lstrip()` removes a whitespace-only prefix and keeps the rest unchanged |
| `PyStr.RStripRemovesSpace` | subtitles/utils.py:49 | `rstrip()` removes a whitespace-only suffix and keeps the rest unchanged |
| `PyStr.Strip` | subtitles/utils.py:49 | `strip()` leaves a text that neither starts nor ends with whitespace |
| `PyStr.StripRemovesSpace` | subtitles/utils.py:49 | `strip()` keeps a contiguous part of the input and removes only whitespace around it |
| `PyStr.StripIdempotent` | subtitles/utils.py:49 | a property of `strip()` itself: stripping a stripped text changes nothing |
| `PyStr.JoinOfStrippedIsStripped` | subtitles/utils.py:49-50 | stripped replies joined with newlines form a stripped text when the first and the last reply are non-empty |
| `PyStr.EmptyFirstPartNeedsStrip` | subtitles/utils.py:111 | for any replies whose first is empty, the joined text starts with a newline, and the `strip()` of line 111 gives the same as for the other replies alone |
| `PyStr.EmptyLastPartNeedsStrip` | subtitles/utils.py:111 | for any replies whose last is empty, the joined text ends with a newline, and the `strip()` of line 111 gives the same as for the other replies alone |
| `PyStr.StripIgnoresTrailingSpace` | subtitles/utils.py:111 | a whitespace character added at the end of any text does not change its `strip()` |
| `PyStr.RFind` | subtitles/utils.py:13 | `rfind` answers -1 or an index holding the character |
| `PyStr.RFindIsLast` | subtitles/utils.py:13-14 | -1 exactly when the character is absent; otherwise no later occurrence exists |
| `PyStr.JoinWith` | subtitles/utils.py:50 | `sep.join`: the length is the parts' total plus one separator between each two; `JoinEnds`, `SplitLinesOfJoin` and `SplitLinesContents` speak about its content (also lines 95, 105, 106) |
| `PyStr.JoinEnds` | subtitles/utils.py:50 | the joined text starts with the first part's first character and ends with the last part's last character |
| `PyStr.SplitLines` | subtitles/utils.py:106 | no line holds a line break; no lines exactly for the empty text |
| `PyStr.SplitLinesContents` | subtitles/utils.py:106 | for every text: the lines joined with any one character are the text with each boundary replaced by it and a final boundary dropped |
| `PyStr.SplitLinesOfJoin` | subtitles/utils.py:105-106 | splitting newline-joined break-free texts (last one non-empty) gives them back |
| `PyStr.JoinKeepsNoLineBreak` | subtitles/utils.py:106 | joining break-free texts with a break-free separator gives a break-free text |
| `Downsub.IdRun` | downsub.py:33 | the greedy `[\w-]+` run: a slice of the URL, all id characters, not followed by an id character |
| `Downsub.MatchAt` | downsub.py:33 | the pattern gives a capture at a position exactly when one of the three literals is followed there by an id character |
| `Downsub.Search` | downsub.py:34 | `re.search`: no result exactly when no position matches; otherwise the first matching position and its capture |
| `Downsub.GetVideoId` | downsub.py:32-37 | a non-empty id of id characters captured at the leftmost match; `ValueError` with the URL in its message exactly when nothing matches |
| `Downsub.PrefixesExclusive` | downsub.py:33 | at one position at most one of the three literals occurs, so the order of the alternatives never changes the capture |
| `Downsub.MatchAtCaptures` | downsub.py:33 | whichever literal is followed by an id at a position, the match there captures that id, which is non-empty |
| `Downsub.LeftmostMatchIsResult` | downsub.py:33-37 | any id captured at the leftmost match is the one `get_video_id` returns |
| `Downsub.SearchSkipsBareLiteral` | downsub.py:33-34 | a literal followed by a non-id character is not a match and does not stop the search; when nothing else matches before a later occurrence followed by an id, that id is returned |
| `Downsub.IsArabic` | downsub.py:39-40 | true exactly when some character lies in U+0600–U+06FF or U+0750–U+077F; false for the empty text |
| `Downsub.GapIsNotArabic` | downsub.py:40 | characters in U+0700–U+074F, between the two blocks, are not detected |
| `Downsub.IsArabicAppend` | downsub.py:40 | a concatenation is Arabic exactly when one of its parts is |
| `SubtitleUtils.ProcessChunks` | subtitles/utils.py:19-50 | one call per chunk, in chunk order, with the given model and prompt; the result is the stripped replies joined with newlines (the same loop is at lines 64-95) |
| `SubtitleUtils.RewriteInChunks` | subtitles/utils.py:7-50 | the chunks sent are the chunking loop's, each at most the limit, all with one model and one prompt; woven with the dropped whitespace they give the text back; no call for an empty text (with mode `RewriteArabic` this is lines 52-95) |
| `SubtitleUtils.RawText` | subtitles/utils.py:105 | the snippets joined with newlines; Arabic exactly when some snippet is |
| `SubtitleUtils.SingleLine` | subtitles/utils.py:106 | the flattened original holds no line break, and is empty for an empty transcript |
| `SubtitleUtils.SingleLineReplacesBreaks` | subtitles/utils.py:106 | for every transcript, the original is the raw text with each line boundary replaced by a space and a final boundary dropped |
| `SubtitleUtils.FetchTranscripts` | subtitles/utils.py:97-117 | success exactly when the URL gives an id and the library a transcript; an invalid URL gives the `ValueError` and no calls; a missing transcript gives an error and no calls; otherwise the original is hidden exactly when the raw text is Arabic, is the single-line text when shown, the requests are the raw text's chunks with the prompt the language picks, and the second part is the stripped joined replies |
| `SubtitleUtils.IsArabicJoin` | subtitles/utils.py:105-108 | joining with a non-Arabic separator is Arabic exactly when some part is |
| `SubtitleUtils.SingleLineOfSnippets` | subtitles/utils.py:105-106 | with break-free snippets and a non-empty last one, the original is the snippets joined with single spaces |

## Left out

- The language-model calls themselves, their prompt texts and the
  `client.responses.create` response object: the model is the pure function
  `complete`, so latency, cost, failures and retries are not modelled, and
  a call that raises is not an outcome the model has.
- The progress lines printed per chunk (lines 22 and 67 of
  `subtitles/utils.py`).
- `YouTubeTranscriptApi().list`, `next(iter(...))` and `fetch()`: the
  function `transcriptOf` stands for them; the library's exceptions and
  `StopIteration` on an empty transcript list all become
  `TranscriptUnavailable`.
- `load_dotenv()` and the construction of the OpenAI client, the Django
  views, forms and settings: configuration and web plumbing.
- `Downsub.IdRun`: `\w` is taken as ASCII `[A-Za-z0-9_]`; Python's `\w`
  on `str` also accepts Unicode letters and digits. With such characters
  the model differs in more than a shorter id: a literal followed by one
  is no match in the model, so the search goes on to a later position or
  ends in `ValueError` (`v=é1` gives `é1` in Python and `ValueError` in
  the model; `v=éx youtu.be/abc` gives `éx` in Python and `abc` in the
  model).
- `Downsub.GetVideoId`, and with it `Downsub.Search` and `Downsub.MatchAt`:
  the same ASCII restriction of `\w`, with the consequences just named.
- `Chunker.SplitIntoChunks`: requires a positive `max_chunk_size`; with 0
  the source loop never ends on a text holding a non-whitespace character
  (a whitespace-only text gives one empty chunk), a negative size makes
  Python slice from the end, and every caller uses the default 2000.
- Strings are sequences of code points; no normalisation or encoding is
  modelled.
