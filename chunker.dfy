/**
 * The chunking loop shared by `translate_and_rewrite_with_gpt` and
 * `rewrite_arabic_with_gpt` (subtitles/utils.py): cut the text into pieces of
 * at most `maxChunkSize` characters, preferring to cut before the last space
 * of the window, and drop the leading whitespace of what remains.
 */
module Chunker {
  import opened PyStr

  /**
   * Length of the next chunk cut from `text`: all of it when it fits,
   * otherwise up to the last space of the window, otherwise the full window.
   */
  function CutLength(text: string, maxChunkSize: int): (k: nat)
    requires maxChunkSize > 0
    ensures k <= |text| && k <= maxChunkSize
    ensures |text| <= maxChunkSize ==> k == |text|
    ensures k < |text| && k < maxChunkSize ==> text[k] == ' '
  {
    if |text| <= maxChunkSize then |text|
    else
      var lastSpace := RFind(text[..maxChunkSize], ' ');
      if lastSpace != -1 then lastSpace else maxChunkSize
  }

  /**
   * The cut rule of lines 11-15: a text that fits is taken whole; otherwise
   * the cut falls on the last space of the window; with no space in the
   * window the cut is the window's end.
   */
  lemma CutRule(text: string, maxChunkSize: int)
    requires maxChunkSize > 0
    ensures |text| <= maxChunkSize ==> CutLength(text, maxChunkSize) == |text|
    ensures |text| > maxChunkSize && ' ' in text[..maxChunkSize] ==>
      var k := CutLength(text, maxChunkSize);
      k < maxChunkSize && text[k] == ' ' && ' ' !in text[k + 1..maxChunkSize]
    ensures |text| > maxChunkSize && ' ' !in text[..maxChunkSize] ==> CutLength(text, maxChunkSize) == maxChunkSize
  {
    if |text| > maxChunkSize {
      var window := text[..maxChunkSize];
      RFindIsLast(window, ' ');
      var lastSpace := RFind(window, ' ');
      if lastSpace != -1 {
        assert text[lastSpace + 1..maxChunkSize] == window[lastSpace + 1..];
      }
    }
  }

  /** What is left to chunk after one iteration; always strictly shorter, so the loop ends. */
  function Rest(text: string, maxChunkSize: int): (r: string)
    requires maxChunkSize > 0 && text != []
    ensures |r| < |text|
    ensures |text| <= maxChunkSize ==> r == []
    ensures r == [] || !IsSpace(r[0])
  {
    var k := CutLength(text, maxChunkSize);
    assert k == 0 ==> IsSpace(text[k..][0]);
    LStrip(text[k..])
  }

  /** The whitespace `lstrip` removes after the chunk cut from `text`. */
  function Gap(text: string, maxChunkSize: int): (gap: string)
    requires maxChunkSize > 0 && text != []
    ensures |text| <= maxChunkSize ==> gap == []
    ensures |text| > maxChunkSize && CutLength(text, maxChunkSize) < maxChunkSize ==> gap != [] && gap[0] == ' '
  {
    var k := CutLength(text, maxChunkSize);
    text[k..|text| - |Rest(text, maxChunkSize)|]
  }

  /** The chunks the loop appends, in order. */
  function Chunks(text: string, maxChunkSize: int): (chunks: seq<string>)
    requires maxChunkSize > 0
    ensures chunks == [] <==> text == []
    decreases |text|
  {
    if text == [] then []
    else [text[..CutLength(text, maxChunkSize)]] + Chunks(Rest(text, maxChunkSize), maxChunkSize)
  }

  /** The whitespace runs dropped after each chunk, in order. */
  function Gaps(text: string, maxChunkSize: int): (gaps: seq<string>)
    requires maxChunkSize > 0
    decreases |text|
  {
    if text == [] then []
    else [Gap(text, maxChunkSize)] + Gaps(Rest(text, maxChunkSize), maxChunkSize)
  }

  /** The value of `text` at the start of each iteration. */
  function Remainders(text: string, maxChunkSize: int): (rs: seq<string>)
    requires maxChunkSize > 0
    decreases |text|
  {
    if text == [] then []
    else [text] + Remainders(Rest(text, maxChunkSize), maxChunkSize)
  }

  /** Chunk `i` followed by gap `i`, for every `i`. */
  function Weave(chunks: seq<string>, gaps: seq<string>): string {
    if chunks == [] || gaps == [] then ""
    else chunks[0] + gaps[0] + Weave(chunks[1..], gaps[1..])
  }

  /** The `while text:` loop of lines 9-17. */
  method SplitIntoChunks(text: string, maxChunkSize: int) returns (chunks: seq<string>)
    requires maxChunkSize > 0
    ensures chunks == Chunks(text, maxChunkSize)
  {
    chunks := [];
    var rest := text;
    while rest != []
      invariant chunks + Chunks(rest, maxChunkSize) == Chunks(text, maxChunkSize)
      decreases |rest|
    {
      var chunk := if |rest| <= maxChunkSize then rest else rest[..maxChunkSize];
      if |rest| > maxChunkSize {
        var lastSpace := RFind(chunk, ' ');
        if lastSpace != -1 {
          chunk := rest[..lastSpace];
        }
      }
      CutMatches(rest, maxChunkSize, chunk);
      ChunksSoFar(text, maxChunkSize, chunks, rest);
      chunks := chunks + [chunk];
      rest := LStrip(rest[|chunk|..]);
    }
  }

  /** The chunk the loop body computes, and what it leaves, are the ones `CutLength` and `Rest` describe. */
  lemma CutMatches(rest: string, maxChunkSize: int, chunk: string)
    requires maxChunkSize > 0 && rest != []
    requires chunk == if |rest| <= maxChunkSize then rest
      else if RFind(rest[..maxChunkSize], ' ') != -1 then rest[..RFind(rest[..maxChunkSize], ' ')]
      else rest[..maxChunkSize]
    ensures chunk == rest[..CutLength(rest, maxChunkSize)]
    ensures LStrip(rest[|chunk|..]) == Rest(rest, maxChunkSize)
  {
  }

  /** The loop invariant survives one more chunk. */
  lemma ChunksSoFar(text: string, maxChunkSize: int, chunks: seq<string>, rest: string)
    requires maxChunkSize > 0 && rest != []
    requires chunks + Chunks(rest, maxChunkSize) == Chunks(text, maxChunkSize)
    ensures (chunks + [rest[..CutLength(rest, maxChunkSize)]]) + Chunks(Rest(rest, maxChunkSize), maxChunkSize)
      == Chunks(text, maxChunkSize)
  {
    OneIteration(rest, maxChunkSize);
  }

  /** One remainder and one gap per chunk. */
  lemma {:induction false} ChunkCounts(text: string, maxChunkSize: int)
    requires maxChunkSize > 0
    ensures |Remainders(text, maxChunkSize)| == |Chunks(text, maxChunkSize)| == |Gaps(text, maxChunkSize)|
    decreases |text|
  {
    if text != [] {
      ChunkCounts(Rest(text, maxChunkSize), maxChunkSize);
    }
  }

  /** Iteration `i` of the loop: which text it starts from, which chunk it cuts and what it drops. */
  lemma {:induction false} IterationAt(text: string, maxChunkSize: int, i: nat)
    requires maxChunkSize > 0 && i < |Chunks(text, maxChunkSize)|
    ensures |Remainders(text, maxChunkSize)| == |Chunks(text, maxChunkSize)| == |Gaps(text, maxChunkSize)|
    ensures Remainders(text, maxChunkSize)[0] == text
    ensures Remainders(text, maxChunkSize)[i] != []
    ensures Chunks(text, maxChunkSize)[i] == Remainders(text, maxChunkSize)[i][..CutLength(Remainders(text, maxChunkSize)[i], maxChunkSize)]
    ensures Gaps(text, maxChunkSize)[i] == Gap(Remainders(text, maxChunkSize)[i], maxChunkSize)
    ensures i + 1 < |Chunks(text, maxChunkSize)| ==>
      Remainders(text, maxChunkSize)[i + 1] == Rest(Remainders(text, maxChunkSize)[i], maxChunkSize)
    ensures i + 1 == |Chunks(text, maxChunkSize)| ==> Rest(Remainders(text, maxChunkSize)[i], maxChunkSize) == []
    decreases |text|
  {
    ChunkCounts(text, maxChunkSize);
    var rest := Rest(text, maxChunkSize);
    if i > 0 {
      IterationAt(rest, maxChunkSize, i - 1);
      if i + 1 < |Chunks(text, maxChunkSize)| {
        IterationAt(rest, maxChunkSize, i);
      }
    } else if rest != [] {
      IterationAt(rest, maxChunkSize, 0);
    }
  }

  /** No chunk is longer than `maxChunkSize`. */
  lemma {:induction false} ChunksBounded(text: string, maxChunkSize: int)
    requires maxChunkSize > 0
    ensures forall i | 0 <= i < |Chunks(text, maxChunkSize)| :: |Chunks(text, maxChunkSize)[i]| <= maxChunkSize
    decreases |text|
  {
    if text != [] {
      ChunksBounded(Rest(text, maxChunkSize), maxChunkSize);
    }
  }

  /**
   * Nothing but whitespace is lost: the text is its chunks, each followed by
   * the whitespace run `lstrip` removed after it.
   */
  lemma {:induction false} ChunksReconstruct(text: string, maxChunkSize: int)
    requires maxChunkSize > 0
    ensures |Gaps(text, maxChunkSize)| == |Chunks(text, maxChunkSize)|
    ensures forall i | 0 <= i < |Gaps(text, maxChunkSize)| :: AllSpace(Gaps(text, maxChunkSize)[i])
    ensures Weave(Chunks(text, maxChunkSize), Gaps(text, maxChunkSize)) == text
    decreases |text|
  {
    if text != [] {
      var rest := Rest(text, maxChunkSize);
      var cs, gs := Chunks(text, maxChunkSize), Gaps(text, maxChunkSize);
      OneIteration(text, maxChunkSize);
      assert cs[1..] == Chunks(rest, maxChunkSize);
      assert gs[1..] == Gaps(rest, maxChunkSize);
      ChunksReconstruct(rest, maxChunkSize);
    }
  }

  /** One turn of the loop: the text splits into the chunk, the dropped whitespace and the rest. */
  lemma OneIteration(text: string, maxChunkSize: int)
    requires maxChunkSize > 0 && text != []
    ensures text == text[..CutLength(text, maxChunkSize)] + Gap(text, maxChunkSize) + Rest(text, maxChunkSize)
    ensures AllSpace(Gap(text, maxChunkSize))
    ensures Chunks(text, maxChunkSize) == [text[..CutLength(text, maxChunkSize)]] + Chunks(Rest(text, maxChunkSize), maxChunkSize)
    ensures Gaps(text, maxChunkSize) == [Gap(text, maxChunkSize)] + Gaps(Rest(text, maxChunkSize), maxChunkSize)
  {
    GapSplit(text, maxChunkSize);
  }

  /** The text after the chunk is the dropped whitespace followed by the rest. */
  lemma GapSplit(text: string, maxChunkSize: int)
    requires maxChunkSize > 0 && text != []
    ensures text == text[..CutLength(text, maxChunkSize)] + Gap(text, maxChunkSize) + Rest(text, maxChunkSize)
    ensures AllSpace(Gap(text, maxChunkSize))
  {
    var k := CutLength(text, maxChunkSize);
    var tail, rest := text[k..], Rest(text, maxChunkSize);
    LStripRemovesSpace(tail);
    var gap := tail[..|tail| - |rest|];
    assert Gap(text, maxChunkSize) == gap;
    assert tail == gap + rest;
    assert text == text[..k] + tail;
  }

  /**
   * The cut rule, for every iteration `i` starting from remainder `r`: a
   * remainder that fits becomes the last chunk unchanged; otherwise the chunk
   * stops just before the window's last space; with no space in the window
   * it is the whole window.
   */
  lemma SplitRule(text: string, maxChunkSize: int, i: nat)
    requires maxChunkSize > 0 && i < |Chunks(text, maxChunkSize)|
    ensures |Remainders(text, maxChunkSize)| == |Chunks(text, maxChunkSize)|
    ensures var r, c, m := Remainders(text, maxChunkSize)[i], Chunks(text, maxChunkSize)[i], maxChunkSize;
      && (|r| <= m ==> c == r && i + 1 == |Chunks(text, maxChunkSize)|)
      && (|r| > m && ' ' in r[..m] ==> |c| < m && c == r[..|c|] && r[|c|] == ' ' && ' ' !in r[|c| + 1..m])
      && (|r| > m && ' ' !in r[..m] ==> c == r[..m])
  {
    IterationAt(text, maxChunkSize, i);
    var r := Remainders(text, maxChunkSize)[i];
    if i + 1 < |Chunks(text, maxChunkSize)| {
      IterationAt(text, maxChunkSize, i + 1);
    }
    CutRule(r, maxChunkSize);
  }

  /**
   * Only U+0020 is a split point: a chunk shorter than the limit that does
   * not end the text is followed by a space (never by a newline or another
   * whitespace character).
   */
  lemma SpaceIsOnlySplitPoint(text: string, maxChunkSize: int)
    requires maxChunkSize > 0
    ensures |Gaps(text, maxChunkSize)| == |Chunks(text, maxChunkSize)|
    ensures forall i | 0 <= i < |Chunks(text, maxChunkSize)|
      && |Chunks(text, maxChunkSize)[i]| < maxChunkSize
      && (i + 1 < |Chunks(text, maxChunkSize)| || Gaps(text, maxChunkSize)[i] != []) ::
      Gaps(text, maxChunkSize)[i] != [] && Gaps(text, maxChunkSize)[i][0] == ' '
  {
    ChunkCounts(text, maxChunkSize);
    forall i | 0 <= i < |Chunks(text, maxChunkSize)|
      && |Chunks(text, maxChunkSize)[i]| < maxChunkSize
      && (i + 1 < |Chunks(text, maxChunkSize)| || Gaps(text, maxChunkSize)[i] != [])
      ensures Gaps(text, maxChunkSize)[i] != [] && Gaps(text, maxChunkSize)[i][0] == ' '
    {
      IterationAt(text, maxChunkSize, i);
      if i + 1 < |Chunks(text, maxChunkSize)| {
        IterationAt(text, maxChunkSize, i + 1);
      }
    }
  }

  /** Every chunk after the first is non-empty and starts with a non-whitespace character. */
  lemma {:induction false} LaterChunksStartWithText(text: string, maxChunkSize: int)
    requires maxChunkSize > 0
    ensures forall i | 0 < i < |Chunks(text, maxChunkSize)| ::
      Chunks(text, maxChunkSize)[i] != [] && !IsSpace(Chunks(text, maxChunkSize)[i][0])
  {
    forall i | 0 < i < |Chunks(text, maxChunkSize)|
      ensures Chunks(text, maxChunkSize)[i] != [] && !IsSpace(Chunks(text, maxChunkSize)[i][0])
    {
      IterationAt(text, maxChunkSize, i - 1);
      IterationAt(text, maxChunkSize, i);
      var r := Remainders(text, maxChunkSize)[i];
      assert !IsSpace(r[0]);
      assert CutLength(r, maxChunkSize) > 0;
    }
  }

  /**
   * An empty chunk can only be the first, when the text is longer than the
   * window, starts with a space and has no other space in the window.
   */
  lemma EmptyChunkOnlyFirst(text: string, maxChunkSize: int, i: nat)
    requires maxChunkSize > 0 && i < |Chunks(text, maxChunkSize)|
    requires Chunks(text, maxChunkSize)[i] == []
    ensures i == 0 && |text| > maxChunkSize && text[0] == ' ' && ' ' !in text[1..maxChunkSize]
  {
    LaterChunksStartWithText(text, maxChunkSize);
    SplitRule(text, maxChunkSize, 0);
    IterationAt(text, maxChunkSize, 0);
  }
}
