/**
 * The few Python `str` builtins the subtitle code relies on: `isspace`,
 * `lstrip()`, `rstrip()`, `strip()`, `rfind`, `sep.join(...)` and
 * `splitlines()`, over strings as sequences of Unicode scalar values.
 */
module PyStr {

  /** `c.isspace()`: the code points Python treats as whitespace. */
  predicate IsSpace(c: char) {
    ('\t' <= c <= '\r') || ('\U{1C}' <= c <= '\U{1F}') || c == ' '
    || c == '\U{85}' || c == '\U{A0}' || c == '\U{1680}'
    || ('\U{2000}' <= c <= '\U{200A}') || c == '\U{2028}' || c == '\U{2029}'
    || c == '\U{202F}' || c == '\U{205F}' || c == '\U{3000}'
  }

  predicate AllSpace(s: string) {
    forall i | 0 <= i < |s| :: IsSpace(s[i])
  }

  /** Number of whitespace characters at the front of `s`. */
  function LeadingSpaces(s: string): (n: nat)
    ensures n <= |s|
    ensures n < |s| ==> !IsSpace(s[n])
  {
    if s == [] || !IsSpace(s[0]) then 0 else 1 + LeadingSpaces(s[1..])
  }

  /** What `LeadingSpaces` counts is whitespace. */
  lemma {:induction false} LeadingSpacesAreSpace(s: string)
    ensures AllSpace(s[..LeadingSpaces(s)])
  {
    if s != [] && IsSpace(s[0]) {
      LeadingSpacesAreSpace(s[1..]);
      assert s[..LeadingSpaces(s)] == [s[0]] + s[1..][..LeadingSpaces(s[1..])];
    }
  }

  /** Number of whitespace characters at the end of `s`. */
  function TrailingSpaces(s: string): (n: nat)
    ensures n <= |s|
    ensures n < |s| ==> !IsSpace(s[|s| - n - 1])
  {
    if s == [] || !IsSpace(s[|s| - 1]) then 0 else 1 + TrailingSpaces(s[..|s| - 1])
  }

  /** What `TrailingSpaces` counts is whitespace. */
  lemma {:induction false} TrailingSpacesAreSpace(s: string)
    ensures AllSpace(s[|s| - TrailingSpaces(s)..])
  {
    if s != [] && IsSpace(s[|s| - 1]) {
      var init := s[..|s| - 1];
      TrailingSpacesAreSpace(init);
      var n, m := TrailingSpaces(s), TrailingSpaces(init);
      var tail, initTail := s[|s| - n..], init[|init| - m..];
      forall j | 0 <= j < |tail| ensures IsSpace(tail[j]) {
        if j < m {
          assert tail[j] == initTail[j];
        }
      }
    }
  }

  /** `s.lstrip()`: the suffix of `s` left once its leading whitespace is gone. */
  function LStrip(s: string): (r: string)
    ensures |r| <= |s|
    ensures r == [] || !IsSpace(r[0])
    ensures s != [] && IsSpace(s[0]) ==> |r| < |s|
  {
    s[LeadingSpaces(s)..]
  }

  /** `lstrip` keeps a suffix of `s` and removes whitespace only. */
  lemma LStripRemovesSpace(s: string)
    ensures LStrip(s) == s[|s| - |LStrip(s)|..]
    ensures AllSpace(s[..|s| - |LStrip(s)|])
  {
    LeadingSpacesAreSpace(s);
  }

  /** `s.rstrip()`: the prefix of `s` left once its trailing whitespace is gone. */
  function RStrip(s: string): (r: string)
    ensures |r| <= |s|
    ensures r == [] || !IsSpace(r[|r| - 1])
  {
    s[..|s| - TrailingSpaces(s)]
  }

  /** `rstrip` keeps a prefix of `s` and removes whitespace only. */
  lemma RStripRemovesSpace(s: string)
    ensures RStrip(s) == s[..|RStrip(s)|]
    ensures AllSpace(s[|RStrip(s)|..])
  {
    TrailingSpacesAreSpace(s);
  }

  /** `s.strip()`: `s` without whitespace at either end. */
  function Strip(s: string): (r: string)
    ensures |r| <= |s|
    ensures r == [] || (!IsSpace(r[0]) && !IsSpace(r[|r| - 1]))
  {
    RStrip(LStrip(s))
  }

  /** `strip` keeps a contiguous piece of `s` and removes whitespace only, on both sides. */
  lemma StripRemovesSpace(s: string)
    ensures exists i | 0 <= i <= |s| - |Strip(s)| ::
      s[i..i + |Strip(s)|] == Strip(s) && AllSpace(s[..i]) && AllSpace(s[i + |Strip(s)|..])
  {
    var left := LStrip(s);
    var i := |s| - |left|;
    var r := RStrip(left);
    LeadingSpacesAreSpace(s);
    TrailingSpacesAreSpace(left);
    assert s[i..i + |r|] == r;
    assert s[i + |r|..] == left[|r|..];
  }

  /** Stripping twice is stripping once. */
  lemma {:induction false} StripIdempotent(s: string)
    ensures Strip(Strip(s)) == Strip(s)
  {
    var t := Strip(s);
    assert LeadingSpaces(t) == 0;
    assert LStrip(t) == t;
    assert TrailingSpaces(t) == 0;
  }

  /** `s.rfind(c)`: the index of the last occurrence of `c` in `s`, or -1. */
  function RFind(s: string, c: char): (r: int)
    ensures -1 <= r < |s|
    ensures r >= 0 ==> s[r] == c
  {
    if s == [] then -1
    else if s[|s| - 1] == c then |s| - 1
    else RFind(s[..|s| - 1], c)
  }

  /** `rfind` fails exactly when `c` does not occur, and otherwise finds the last occurrence. */
  lemma {:induction false} RFindIsLast(s: string, c: char)
    ensures RFind(s, c) == -1 <==> c !in s
    ensures RFind(s, c) >= 0 ==> c !in s[RFind(s, c) + 1..]
  {
    if s != [] && s[|s| - 1] != c {
      var init := s[..|s| - 1];
      RFindIsLast(init, c);
      assert s == init + [s[|s| - 1]];
      var r := RFind(init, c);
      assert r >= 0 ==> s[r + 1..] == init[r + 1..] + [s[|s| - 1]];
    }
  }

  /** Total length of the strings in `xs`. */
  function TotalLength(xs: seq<string>): nat {
    if xs == [] then 0 else |xs[0]| + TotalLength(xs[1..])
  }

  /** `sep.join(xs)`: every string of `xs` kept, one separator between each two. */
  function JoinWith(sep: string, xs: seq<string>): (r: string)
    ensures |r| == TotalLength(xs) + (if xs == [] then 0 else (|xs| - 1) * |sep|)
  {
    if xs == [] then ""
    else if |xs| == 1 then xs[0]
    else xs[0] + sep + JoinWith(sep, xs[1..])
  }

  /** The joined text starts with the first string and ends with the last one. */
  lemma {:induction false} JoinEnds(sep: string, xs: seq<string>)
    requires xs != []
    ensures xs[0] != [] ==> JoinWith(sep, xs) != [] && JoinWith(sep, xs)[0] == xs[0][0]
    ensures var last := xs[|xs| - 1];
      last != [] ==> JoinWith(sep, xs) != [] && JoinWith(sep, xs)[|JoinWith(sep, xs)| - 1] == last[|last| - 1]
  {
    if |xs| > 1 {
      JoinEnds(sep, xs[1..]);
      var rest := JoinWith(sep, xs[1..]);
      assert JoinWith(sep, xs) == xs[0] + sep + rest;
    }
  }

  /**
   * Joining stripped strings with newlines gives a stripped text when the
   * first and the last string are not empty.
   */
  lemma {:induction false} JoinOfStrippedIsStripped(parts: seq<string>)
    requires parts != [] && parts[0] != [] && parts[|parts| - 1] != []
    requires forall i | 0 <= i < |parts| :: parts[i] == Strip(parts[i])
    ensures Strip(JoinWith("\n", parts)) == JoinWith("\n", parts)
  {
    var s := JoinWith("\n", parts);
    var first, last := parts[0], parts[|parts| - 1];
    JoinEnds("\n", parts);
    assert !IsSpace(s[0]) by {
      assert first == Strip(first);
    }
    assert !IsSpace(s[|s| - 1]) by {
      assert last == Strip(last);
    }
    TrimmedIsStripped(s);
  }

  /** A text that neither starts nor ends with whitespace is its own `strip()`. */
  lemma {:induction false} TrimmedIsStripped(s: string)
    requires s == [] || (!IsSpace(s[0]) && !IsSpace(s[|s| - 1]))
    ensures Strip(s) == s
  {
    assert LeadingSpaces(s) == 0;
    assert TrailingSpaces(s) == 0;
  }

  /**
   * An empty first part leaves a newline at the front of the joined text,
   * and `strip()` then gives what it gives for the other parts alone.
   */
  lemma {:induction false} EmptyFirstPartNeedsStrip(parts: seq<string>)
    requires |parts| > 1 && parts[0] == []
    ensures JoinWith("\n", parts) == "\n" + JoinWith("\n", parts[1..])
    ensures Strip(JoinWith("\n", parts)) == Strip(JoinWith("\n", parts[1..]))
  {
    var s, rest := JoinWith("\n", parts), JoinWith("\n", parts[1..]);
    assert s == "\n" + rest;
    assert s[1..] == rest;
    assert LeadingSpaces(s) == 1 + LeadingSpaces(rest);
    assert LStrip(s) == LStrip(rest);
  }

  /**
   * An empty last part leaves a newline at the end of the joined text,
   * and `strip()` then gives what it gives for the other parts alone.
   */
  lemma {:induction false} EmptyLastPartNeedsStrip(parts: seq<string>)
    requires |parts| > 1 && parts[|parts| - 1] == []
    ensures JoinWith("\n", parts) == JoinWith("\n", parts[..|parts| - 1]) + "\n"
    ensures Strip(JoinWith("\n", parts)) == Strip(JoinWith("\n", parts[..|parts| - 1]))
  {
    JoinDropsEmptyLast(parts);
    StripIgnoresTrailingSpace(JoinWith("\n", parts[..|parts| - 1]), '\n');
  }

  lemma {:induction false} JoinDropsEmptyLast(parts: seq<string>)
    requires |parts| > 1 && parts[|parts| - 1] == []
    ensures JoinWith("\n", parts) == JoinWith("\n", parts[..|parts| - 1]) + "\n"
  {
    var init := parts[..|parts| - 1];
    if |parts| == 2 {
      assert JoinWith("\n", parts) == parts[0] + "\n" + JoinWith("\n", parts[1..]);
      assert JoinWith("\n", init) == parts[0];
    } else {
      JoinDropsEmptyLast(parts[1..]);
      assert init[1..] == parts[1..][..|parts| - 2];
      assert JoinWith("\n", init) == parts[0] + "\n" + JoinWith("\n", init[1..]);
    }
  }

  /** One more whitespace character at the end does not change `strip()`. */
  lemma {:induction false} StripIgnoresTrailingSpace(t: string, c: char)
    requires IsSpace(c)
    ensures Strip(t + [c]) == Strip(t)
  {
    var u := t + [c];
    LeadingSpacesAppend(t, c);
    if LeadingSpaces(t) == |t| {
      assert LStrip(u) == [];
      assert LStrip(t) == [];
    } else {
      var x := LStrip(t);
      assert LStrip(u) == x + [c];
      TrailingSpacesAppend(x, c);
    }
  }

  lemma {:induction false} LeadingSpacesAppend(t: string, c: char)
    requires IsSpace(c)
    ensures LeadingSpaces(t + [c]) == if LeadingSpaces(t) == |t| then |t| + 1 else LeadingSpaces(t)
  {
    var u := t + [c];
    if t == [] {
      assert u == [c];
      assert LeadingSpaces(u[1..]) == 0;
    } else {
      assert u[0] == t[0];
      assert u[1..] == t[1..] + [c];
      LeadingSpacesAppend(t[1..], c);
    }
  }

  lemma TrailingSpacesAppend(x: string, c: char)
    requires IsSpace(c)
    ensures TrailingSpaces(x + [c]) == 1 + TrailingSpaces(x)
  {
    assert (x + [c])[..|x|] == x;
  }

  /** The line boundaries of `str.splitlines` (`"\r\n"` is one boundary made of two of them). */
  predicate IsLineBreak(c: char) {
    c == '\n' || c == '\r' || c == '\U{0B}' || c == '\U{0C}'
    || c == '\U{1C}' || c == '\U{1D}' || c == '\U{1E}' || c == '\U{85}'
    || c == '\U{2028}' || c == '\U{2029}'
  }

  predicate NoLineBreak(s: string) {
    forall i | 0 <= i < |s| :: !IsLineBreak(s[i])
  }

  /** Index of the first line-break character of `s`, or `|s|` if there is none. */
  function FirstBreak(s: string): (k: nat)
    ensures k <= |s| && NoLineBreak(s[..k])
    ensures k < |s| ==> IsLineBreak(s[k])
  {
    if s == [] || IsLineBreak(s[0]) then 0 else 1 + FirstBreak(s[1..])
  }

  /**
   * `s.splitlines()`: the lines of `s` without their terminators; a final
   * terminator does not open an empty last line, and `"\r\n"` ends one line.
   */
  function SplitLines(s: string): (lines: seq<string>)
    ensures forall i | 0 <= i < |lines| :: NoLineBreak(lines[i])
    ensures lines == [] <==> s == []
    decreases |s|
  {
    if s == [] then []
    else
      var k := FirstBreak(s);
      if k == |s| then [s]
      else
        var width := if s[k] == '\r' && k + 1 < |s| && s[k + 1] == '\n' then 2 else 1;
        [s[..k]] + SplitLines(s[k + width..])
  }

  /** Splitting the newline-joined lines gives them back, when none holds a break and the last is not empty. */
  lemma {:induction false} SplitLinesOfJoin(xs: seq<string>)
    requires forall i | 0 <= i < |xs| :: NoLineBreak(xs[i])
    requires xs == [] || xs[|xs| - 1] != []
    ensures SplitLines(JoinWith("\n", xs)) == xs
  {
    if |xs| == 1 {
      FirstBreakAt(xs[0], |xs[0]|);
    } else if |xs| > 1 {
      var s := JoinWith("\n", xs);
      var k := |xs[0]|;
      var rest := JoinWith("\n", xs[1..]);
      JoinHead(xs);
      FirstBreakAt(s, k);
      assert SplitLines(s) == [xs[0]] + SplitLines(rest);
      SplitLinesOfJoin(xs[1..]);
    }
  }

  /** The newline-joined text starts with the first string and its newline. */
  lemma JoinHead(xs: seq<string>)
    requires |xs| > 1
    ensures var s, k := JoinWith("\n", xs), |xs[0]|;
      k < |s| && s[..k] == xs[0] && s[k] == '\n' && s[k + 1..] == JoinWith("\n", xs[1..])
  {
    var rest := JoinWith("\n", xs[1..]);
    assert JoinWith("\n", xs) == xs[0] + "\n" + rest;
  }

  /** The first break is at `k` when `s[k]` is a break and nothing before it is. */
  lemma {:induction false} FirstBreakAt(s: string, k: nat)
    requires k <= |s| && NoLineBreak(s[..k])
    requires k < |s| ==> IsLineBreak(s[k])
    ensures FirstBreak(s) == k
  {
    if k > 0 {
      var head, tail := s[..k], s[1..][..k - 1];
      assert head[0] == s[0];
      forall i | 0 <= i < |tail| ensures !IsLineBreak(tail[i]) {
        assert tail[i] == head[i + 1];
      }
      FirstBreakAt(s[1..], k - 1);
    }
  }

  /**
   * The text with every line boundary replaced by `c`, except a boundary
   * that ends the text, which is dropped; `"\r\n"` is one boundary.
   */
  function ReplaceBreaks(s: string, c: char): string
    decreases |s|
  {
    if s == [] then []
    else if IsLineBreak(s[0]) then
      var width := if s[0] == '\r' && 1 < |s| && s[1] == '\n' then 2 else 1;
      if |s| == width then [] else [c] + ReplaceBreaks(s[width..], c)
    else [s[0]] + ReplaceBreaks(s[1..], c)
  }

  /** A break-free prefix passes through `ReplaceBreaks` unchanged. */
  lemma {:induction false} ReplaceBreaksKeepsPrefix(s: string, k: nat, c: char)
    requires k <= |s| && NoLineBreak(s[..k])
    ensures ReplaceBreaks(s, c) == s[..k] + ReplaceBreaks(s[k..], c)
  {
    if k > 0 {
      var head, tail := s[..k], s[1..][..k - 1];
      assert head[0] == s[0];
      forall i | 0 <= i < |tail| ensures !IsLineBreak(tail[i]) {
        assert tail[i] == head[i + 1];
      }
      ReplaceBreaksKeepsPrefix(s[1..], k - 1, c);
      assert s[1..][k - 1..] == s[k..];
      assert head == [s[0]] + tail;
    }
  }

  /**
   * What `splitlines` returns, for every text: joined with any one
   * character `c`, the lines are the text with each line boundary replaced
   * by `c` and a boundary at the very end dropped.
   */
  lemma {:induction false} SplitLinesContents(s: string, c: char)
    ensures JoinWith([c], SplitLines(s)) == ReplaceBreaks(s, c)
    decreases |s|
  {
    if s != [] {
      var k := FirstBreak(s);
      if k < |s| {
        var width := if s[k] == '\r' && k + 1 < |s| && s[k + 1] == '\n' then 2 else 1;
        SplitLinesContents(s[k + width..], c);
        SplitLinesContentsStep(s, k, width, c);
      } else {
        ReplaceBreaksKeepsPrefix(s, k, c);
      }
    }
  }

  /** One line of `SplitLinesContents`: from the rest after the first boundary to the whole text. */
  lemma {:induction false} SplitLinesContentsStep(s: string, k: nat, width: nat, c: char)
    requires s != [] && k == FirstBreak(s) && k < |s|
    requires width == if s[k] == '\r' && k + 1 < |s| && s[k + 1] == '\n' then 2 else 1
    requires JoinWith([c], SplitLines(s[k + width..])) == ReplaceBreaks(s[k + width..], c)
    ensures JoinWith([c], SplitLines(s)) == ReplaceBreaks(s, c)
  {
    var head, rest := s[..k], s[k + width..];
    var lines := SplitLines(rest);
    ReplaceBreaksFirstLine(s, k, width, c);
    assert SplitLines(s) == [head] + lines;
    if lines == [] {
      assert [head] + lines == [head];
    } else {
      JoinCons([c], head, lines);
    }
  }

  /** `ReplaceBreaks` keeps the first line and turns its boundary into `c`, unless the text ends there. */
  lemma {:induction false} ReplaceBreaksFirstLine(s: string, k: nat, width: nat, c: char)
    requires s != [] && k == FirstBreak(s) && k < |s|
    requires width == if s[k] == '\r' && k + 1 < |s| && s[k + 1] == '\n' then 2 else 1
    ensures ReplaceBreaks(s, c) == if k + width == |s| then s[..k] else s[..k] + [c] + ReplaceBreaks(s[k + width..], c)
  {
    ReplaceBreaksKeepsPrefix(s, k, c);
    ReplaceBreaksAtBreak(s, k, c);
    if k + width < |s| {
      assert s[..k] + ([c] + ReplaceBreaks(s[k + width..], c)) == s[..k] + [c] + ReplaceBreaks(s[k + width..], c);
    }
  }

  /** `ReplaceBreaks` at a boundary starting at index `k`. */
  lemma {:induction false} ReplaceBreaksAtBreak(s: string, k: nat, c: char)
    requires k < |s| && IsLineBreak(s[k])
    ensures var width := if s[k] == '\r' && k + 1 < |s| && s[k + 1] == '\n' then 2 else 1;
      ReplaceBreaks(s[k..], c) == if |s| == k + width then [] else [c] + ReplaceBreaks(s[k + width..], c)
  {
    var t := s[k..];
    assert t[0] == s[k];
    if k + 1 < |s| {
      assert t[1] == s[k + 1];
      assert t[2..] == s[k + 2..];
    }
    assert t[1..] == s[k + 1..];
  }

  /** Joining a string in front of a non-empty list. */
  lemma {:induction false} JoinCons(sep: string, x: string, xs: seq<string>)
    requires xs != []
    ensures JoinWith(sep, [x] + xs) == x + sep + JoinWith(sep, xs)
  {
    assert ([x] + xs)[1..] == xs;
  }

  /** Joining break-free strings with a break-free separator leaves no line break. */
  lemma {:induction false} JoinKeepsNoLineBreak(sep: string, xs: seq<string>)
    requires NoLineBreak(sep)
    requires forall i | 0 <= i < |xs| :: NoLineBreak(xs[i])
    ensures NoLineBreak(JoinWith(sep, xs))
  {
    if |xs| > 1 {
      JoinKeepsNoLineBreak(sep, xs[1..]);
      var rest := JoinWith(sep, xs[1..]);
      var s := xs[0] + sep + rest;
      forall i | 0 <= i < |s| ensures !IsLineBreak(s[i]) {
        if i < |xs[0]| {
          assert s[i] == xs[0][i];
        } else if i < |xs[0]| + |sep| {
          assert s[i] == sep[i - |xs[0]|];
        } else {
          assert s[i] == rest[i - |xs[0]| - |sep|];
        }
      }
    }
  }
}
