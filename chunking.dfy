/** The rule by which `Processor.Write` splits outbound text into message
    events (processor.go:84-133). One step of the rule is `NextCut`; the
    whole split of a text is `Cuts`. */
module Chunking {
  import opened Strings

  const MaxMessageSize: nat := 4000
  const MaxMessageLines: nat := 25

  const Newline: Byte := 10

  /** The bytes of "\n\t .,/\\-(){}[]|=+*&", where a word may be broken. */
  const WordBreaks: set<Byte> := {
    10 /* \n */, 9 /* \t */, 32 /* space */, 46 /* . */, 44 /* , */, 47 /* / */,
    92 /* \ */, 45 /* - */, 40 /* ( */, 41 /* ) */, 123 /* { */, 125 /* } */,
    91 /* [ */, 93 /* ] */, 124 /* | */, 61 /* = */, 43 /* + */, 42 /* * */, 38 /* & */
  }

  /** Text that may be sent as one message: the test of processor.go:87. */
  predicate WithinLimits(s: seq<Byte>) {
    |s| <= MaxMessageSize && Count(s, Newline) <= MaxMessageLines
  }

  /** The position just past the `n`-th newline of `s` (meaningful when `s`
      has that many newlines; see `LineEndCount`). */
  function LineEnd(s: seq<Byte>, n: nat): (r: nat)
    ensures r <= |s|
  {
    if n == 0 || s == [] then 0
    else 1 + if s[0] == Newline then LineEnd(s[1..], n - 1) else LineEnd(s[1..], n)
  }

  /** When `s` has `n` newlines, `LineEnd(s, n)` is just past a newline and
      the text before it holds exactly `n` newlines; the end of any line but
      the last newline's lies inside the text. */
  lemma {:induction false} LineEndCount(s: seq<Byte>, n: nat)
    requires n <= Count(s, Newline)
    ensures 0 < n ==> 0 < LineEnd(s, n) && s[LineEnd(s, n) - 1] == Newline
    ensures Count(s[..LineEnd(s, n)], Newline) == n
    ensures n < Count(s, Newline) ==> LineEnd(s, n) < |s|
    decreases |s|
  {
    var r := LineEnd(s, n);
    if n > 0 {
      var t := s[1..];
      assert s == [s[0]] + t;
      var n' := if s[0] == Newline then n - 1 else n;
      LineEndCount(t, n');
      assert r == LineEnd(t, n') + 1;
      assert s[..r] == [s[0]] + t[..r - 1];
      assert s[..r][1..] == t[..r - 1];
    }
    assert r == |s| ==> s[..r] == s;
  }

  /** One search for the next newline, started just past the `n`-th one,
      ends just past the `n+1`-th one: the inner loop of `Write`
      (processor.go:104-110) walks `LineEnd`. */
  lemma {:induction false} LineEndStep(s: seq<Byte>, n: nat)
    requires n < Count(s, Newline)
    ensures Index(s[LineEnd(s, n)..], Newline) >= 0
    ensures LineEnd(s, n + 1) == LineEnd(s, n) + Index(s[LineEnd(s, n)..], Newline) + 1
    decreases |s|
  {
    if n == 0 {
      assert s[0..] == s;
      FirstLineEnd(s);
    } else if s[0] == Newline {
      LineEndStepTail(s, n, n - 1);
    } else {
      LineEndStepTail(s, n, n);
    }
  }

  /** The first line ends just past the first newline. */
  lemma {:induction false} FirstLineEnd(s: seq<Byte>)
    requires 0 < Count(s, Newline)
    ensures Index(s, Newline) >= 0 && LineEnd(s, 1) == Index(s, Newline) + 1
    decreases |s|
  {
    if s[0] != Newline {
      FirstLineEnd(s[1..]);
    }
  }

  /** The inductive step of `LineEndStep`: past the first byte, `s` has `m`
      newlines left to skip. */
  lemma {:induction false} LineEndStepTail(s: seq<Byte>, n: nat, m: nat)
    requires 0 < n < Count(s, Newline)
    requires m == if s[0] == Newline then n - 1 else n
    ensures Index(s[LineEnd(s, n)..], Newline) >= 0
    ensures LineEnd(s, n + 1) == LineEnd(s, n) + Index(s[LineEnd(s, n)..], Newline) + 1
    decreases |s|, 0
  {
    var t := s[1..];
    assert Count(s, Newline) == (if s[0] == Newline then 1 else 0) + Count(t, Newline);
    LineEndStep(t, m);
    var j := LineEnd(t, m);
    assert LineEnd(s, n) == j + 1;
    assert LineEnd(s, n + 1) == LineEnd(t, m + 1) + 1;
    assert s[j + 1..] == t[j..];
  }

  /** A prefix that already holds `n` newlines ends its `n`-th line where the
      whole text does. */
  lemma {:induction false} LineEndPrefix(s: seq<Byte>, k: nat, n: nat)
    requires k <= |s| && n <= Count(s[..k], Newline)
    ensures n <= Count(s, Newline)
    ensures LineEnd(s, n) == LineEnd(s[..k], n)
    decreases |s|
  {
    CountPrefix(s, k, Newline);
    if n > 0 {
      assert s == [s[0]] + s[1..];
      assert s[..k] == [s[0]] + s[1..][..k - 1];
      assert s[..k][1..] == s[1..][..k - 1];
      LineEndPrefix(s[1..], k - 1, if s[0] == Newline then n - 1 else n);
    }
  }

  /** Where the break points are searched for. The code as written searches the
      whole remaining text; `Windowed` is the evidently intended first
      `MaxMessageSize` bytes (see the findings in README.md). */
  datatype Scan = AsWritten | Windowed

  function SearchWindow(text: seq<Byte>, scan: Scan): (w: seq<Byte>)
    ensures |w| <= |text| && w == text[..|w|]
    ensures scan == Windowed ==> |w| <= MaxMessageSize
  {
    if scan == Windowed && |text| > MaxMessageSize then text[..MaxMessageSize] else text
  }

  /** `lines` once the split branch has recounted it (processor.go:86, 97-100):
      the newlines of the first `MaxMessageSize` bytes of a longer text. */
  function CountedLines(text: seq<Byte>): (n: nat)
    ensures n <= Count(text, Newline)
    ensures |text| <= MaxMessageSize ==> n == Count(text, Newline)
  {
    if |text| > MaxMessageSize then
      CountPrefix(text, MaxMessageSize, Newline);
      Count(text[..MaxMessageSize], Newline)
    else Count(text, Newline)
  }

  /** `breakIndex` as chosen at processor.go:102-118. */
  function BreakIndex(text: seq<Byte>, scan: Scan): (b: nat)
    requires !WithinLimits(text)
    ensures b <= |text|
    ensures CountedLines(text) > MaxMessageLines ==> 0 < b
    ensures CountedLines(text) <= MaxMessageLines && b != MaxMessageSize ==>
              b < |text| && text[b] in WordBreaks
  {
    var window := SearchWindow(text, scan);
    var lines := CountedLines(text);
    if lines > MaxMessageLines then
      assert MaxMessageLines <= Count(window, Newline) by {
        if |text| > MaxMessageSize {
          CountPrefix(text, MaxMessageSize, Newline);
          assert window == text || window == text[..MaxMessageSize];
        }
      }
      LineEnd(window, MaxMessageLines)
    else if LastIndex(window, Newline) > -1 then LastIndex(window, Newline)
    else if LastIndexAny(window, WordBreaks) > -1 then LastIndexAny(window, WordBreaks)
    else MaxMessageSize
  }

  /** One message's worth of text: `chunk` is sent, the break byte in
      `skipped` (if any) is dropped, and `rest` is split next. */
  datatype Cut = Cut(chunk: seq<Byte>, skipped: seq<Byte>, rest: seq<Byte>)

  /** A single break byte, or nothing, is dropped at a cut. */
  predicate DropsAtMostABreak(c: Cut) {
    c.skipped == [] || (|c.skipped| == 1 && c.skipped[0] in WordBreaks)
  }

  /** One iteration of the loop at processor.go:85-130. */
  function NextCut(text: seq<Byte>, scan: Scan): (c: Cut)
    requires text != []
    ensures text == c.chunk + c.skipped + c.rest
    ensures |c.rest| < |text|
    ensures DropsAtMostABreak(c)
  {
    if WithinLimits(text) then Cut(text, [], [])
    else
      var b := BreakIndex(text, scan);
      if b != MaxMessageSize && CountedLines(text) <= MaxMessageLines then
        assert text == text[..b] + [text[b]] + text[b + 1..];
        Cut(text[..b], [text[b]], text[b + 1..])
      else
        assert text == text[..b] + text[b..];
        Cut(text[..b], [], text[b..])
  }

  /** The chunk and the dropped bytes of each cut, in order. */
  function Rejoin(cuts: seq<Cut>): seq<Byte> {
    if cuts == [] then [] else cuts[0].chunk + cuts[0].skipped + Rejoin(cuts[1..])
  }

  /** Every cut `Write` makes of `text`, in the order the messages are sent;
      never more cuts than bytes, as each cut consumes at least one byte. */
  function Cuts(text: seq<Byte>, scan: Scan): (cs: seq<Cut>)
    ensures |cs| <= |text|
    decreases |text|
  {
    if text == [] then []
    else
      var c := NextCut(text, scan);
      [c] + Cuts(c.rest, scan)
  }

  /** The cuts rebuild the text exactly: nothing but the dropped break bytes
      is left out of the messages, and nothing is sent twice. */
  lemma {:induction false} CutsRebuildText(text: seq<Byte>, scan: Scan)
    ensures Rejoin(Cuts(text, scan)) == text
    ensures forall i :: 0 <= i < |Cuts(text, scan)| ==> DropsAtMostABreak(Cuts(text, scan)[i])
    decreases |text|
  {
    if text != [] {
      var c := NextCut(text, scan);
      var cs := Cuts(text, scan);
      CutsRebuildText(c.rest, scan);
      assert cs == [c] + Cuts(c.rest, scan);
      assert cs[1..] == Cuts(c.rest, scan);
      assert Rejoin(cs) == c.chunk + c.skipped + c.rest;
    }
  }

  /** Empty text yields no message; text within both limits yields one
      message carrying it unchanged (processor.go:85-91). */
  lemma WholeTextIsOneCut(text: seq<Byte>, scan: Scan)
    ensures text == [] ==> Cuts(text, scan) == []
    ensures text != [] && WithinLimits(text) ==> Cuts(text, scan) == [Cut(text, [], [])]
  {
  }

  /** Too many lines: the chunk runs up to and including the 25th newline,
      stays within the size limit, and nothing is dropped
      (processor.go:102-111, 124). */
  lemma LineLimitCut(text: seq<Byte>, scan: Scan)
    requires !WithinLimits(text) && CountedLines(text) > MaxMessageLines
    ensures var c := NextCut(text, scan);
      && 0 < |c.chunk| <= MaxMessageSize
      && c.chunk[|c.chunk| - 1] == Newline
      && Count(c.chunk, Newline) == MaxMessageLines
      && c.skipped == []
  {
    var window := SearchWindow(text, scan);
    var b := BreakIndex(text, scan);
    assert MaxMessageLines <= Count(window, Newline) by {
      if |text| > MaxMessageSize {
        CountPrefix(text, MaxMessageSize, Newline);
        assert window == text || window == text[..MaxMessageSize];
      }
    }
    assert b == LineEnd(window, MaxMessageLines);
    LineEndCount(window, MaxMessageLines);
    assert window[..b] == text[..b];
    if |text| > MaxMessageSize {
      LineEndPrefix(text, MaxMessageSize, MaxMessageLines);
      if scan == AsWritten {
        assert b == LineEnd(text[..MaxMessageSize], MaxMessageLines);
      }
    }
  }

  /** No newline and no break byte to search: a hard cut after exactly
      `MaxMessageSize` bytes, dropping nothing (processor.go:116-117, 124). */
  lemma HardBreakCut(text: seq<Byte>, scan: Scan)
    requires |text| > MaxMessageSize
    requires forall i :: 0 <= i < |SearchWindow(text, scan)| ==> SearchWindow(text, scan)[i] !in WordBreaks
    ensures NextCut(text, scan) == Cut(text[..MaxMessageSize], [], text[MaxMessageSize..])
  {
    var window := SearchWindow(text, scan);
    assert Newline !in text[..MaxMessageSize] by {
      assert forall i :: 0 <= i < MaxMessageSize ==> text[..MaxMessageSize][i] == window[i];
    }
    assert LastIndex(window, Newline) == -1;
  }

  /** Within the line limit and with a newline to search: the chunk stops at
      the last newline searched, which is dropped unless it sits exactly at
      `MaxMessageSize` (processor.go:112-113, 120-128). */
  lemma LastNewlineCut(text: seq<Byte>, scan: Scan)
    requires !WithinLimits(text) && CountedLines(text) <= MaxMessageLines
    requires Newline in SearchWindow(text, scan)
    ensures var k := LastIndex(SearchWindow(text, scan), Newline);
      && 0 <= k
      && NextCut(text, scan).chunk == text[..k]
      && (k != MaxMessageSize ==> NextCut(text, scan).skipped == [Newline])
      && (k == MaxMessageSize ==> NextCut(text, scan).skipped == [] && NextCut(text, scan).rest[0] == Newline)
  {
  }

  /** No newline to search, but a break byte: the chunk stops at the last one,
      which is dropped unless it sits exactly at `MaxMessageSize`
      (processor.go:114-115, 120-128). */
  lemma LastWordBreakCut(text: seq<Byte>, scan: Scan)
    requires !WithinLimits(text) && CountedLines(text) <= MaxMessageLines
    requires Newline !in SearchWindow(text, scan)
    requires exists i :: 0 <= i < |SearchWindow(text, scan)| && SearchWindow(text, scan)[i] in WordBreaks
    ensures var k := LastIndexAny(SearchWindow(text, scan), WordBreaks);
      && 0 <= k
      && NextCut(text, scan).chunk == text[..k]
      && (k != MaxMessageSize ==> NextCut(text, scan).skipped == [text[k]])
      && (k == MaxMessageSize ==> NextCut(text, scan).skipped == [])
  {
  }

  // ---------------------------------------------------------------------
  // Finding: the size limit is not kept as written.

  /** As written, a break byte beyond the first `MaxMessageSize` bytes is still
      chosen. When the only break byte of a text lies past offset 4000, the
      first message runs up to it: 9000 bytes without a newline and with one
      space at offset 4500 are first sent as a single 4500-byte message. The
      windowed search cuts at exactly `MaxMessageSize` instead. */
  lemma AsWrittenChunkExceedsSize(text: seq<Byte>, k: nat)
    requires MaxMessageSize < k < |text| && text[k] in WordBreaks
    requires forall i :: 0 <= i < |text| && i != k ==> text[i] !in WordBreaks
    ensures NextCut(text, AsWritten) == Cut(text[..k], [text[k]], text[k + 1..])
    ensures |NextCut(text, AsWritten).chunk| > MaxMessageSize
    ensures NextCut(text, Windowed) == Cut(text[..MaxMessageSize], [], text[MaxMessageSize..])
  {
    OnlyBreakCut(text, k);
    WindowedHardBreak(text);
  }

  /** As written, the only break byte of the text is where it is cut. */
  lemma OnlyBreakCut(text: seq<Byte>, k: nat)
    requires MaxMessageSize < k < |text| && text[k] in WordBreaks
    requires forall i :: 0 <= i < |text| && i != k ==> text[i] !in WordBreaks
    ensures NextCut(text, AsWritten) == Cut(text[..k], [text[k]], text[k + 1..])
  {
    NoNewlineInWindow(text);
    LastIndexAnyAt(text, WordBreaks, k);
    if text[k] == Newline {
      LastIndexAnyAt(text, {Newline}, k);
    } else {
      assert forall i :: 0 <= i < |text| ==> text[i] != Newline;
    }
    SplitAtBreak(text, AsWritten, k);
  }

  /** No break byte in the first `MaxMessageSize` bytes: the windowed search
      makes a hard cut. */
  lemma WindowedHardBreak(text: seq<Byte>)
    requires |text| > MaxMessageSize
    requires forall i :: 0 <= i < MaxMessageSize ==> text[i] !in WordBreaks
    ensures NextCut(text, Windowed) == Cut(text[..MaxMessageSize], [], text[MaxMessageSize..])
  {
    assert SearchWindow(text, Windowed) == text[..MaxMessageSize];
    assert forall i :: 0 <= i < MaxMessageSize ==> text[..MaxMessageSize][i] == text[i];
    HardBreakCut(text, Windowed);
  }

  /** As written, the line limit is not kept either: newlines past the first
      `MaxMessageSize` bytes are not recounted, yet the last of them is chosen.
      When the first 4000 bytes hold no newline and the last newline of the
      text follows more than 25 others, the first message holds all of them:
      4001 bytes without a newline, 30 newlines and one more byte are first
      sent with 29 newlines. */
  lemma AsWrittenChunkExceedsLines(text: seq<Byte>, k: nat)
    requires MaxMessageSize < k < |text| && text[k] == Newline
    requires forall i :: 0 <= i < MaxMessageSize ==> text[i] != Newline
    requires forall i :: k < i < |text| ==> text[i] != Newline
    requires Count(text[..k], Newline) > MaxMessageLines
    ensures NextCut(text, AsWritten) == Cut(text[..k], [Newline], text[k + 1..])
    ensures Count(NextCut(text, AsWritten).chunk, Newline) > MaxMessageLines
  {
    NoNewlineInWindow(text);
    LastIndexAnyAt(text, {Newline}, k);
    SplitAtBreak(text, AsWritten, k);
  }

  /** No newline among the first `MaxMessageSize` bytes: the recount finds
      no line. */
  lemma NoNewlineInWindow(text: seq<Byte>)
    requires |text| > MaxMessageSize
    requires forall i :: 0 <= i < MaxMessageSize ==> text[i] != Newline
    ensures CountedLines(text) == 0
  {
    assert forall i :: 0 <= i < MaxMessageSize ==> text[..MaxMessageSize][i] == text[i];
  }

  /** A break chosen within the line limit away from offset 4000 drops the
      break byte. */
  lemma SplitAtBreak(text: seq<Byte>, scan: Scan, k: nat)
    requires !WithinLimits(text) && CountedLines(text) <= MaxMessageLines
    requires || (LastIndex(SearchWindow(text, scan), Newline) > -1 && k == LastIndex(SearchWindow(text, scan), Newline))
             || (LastIndex(SearchWindow(text, scan), Newline) == -1 && k == LastIndexAny(SearchWindow(text, scan), WordBreaks))
    requires k != MaxMessageSize
    ensures BreakIndex(text, scan) == k
    ensures k < |text| && NextCut(text, scan) == Cut(text[..k], [text[k]], text[k + 1..])
  {
  }

  /** With the windowed search, every message stays within both limits. */
  lemma WindowedCutWithinLimits(text: seq<Byte>)
    requires text != []
    ensures WithinLimits(NextCut(text, Windowed).chunk)
  {
    if !WithinLimits(text) {
      var window := SearchWindow(text, Windowed);
      var b := BreakIndex(text, Windowed);
      var lines := CountedLines(text);
      if lines > MaxMessageLines {
        LineLimitCut(text, Windowed);
      } else {
        assert Count(window, Newline) == lines;
        assert text[..b] == window[..b] || b == MaxMessageSize;
        if b != MaxMessageSize {
          CountPrefix(window, b, Newline);
        } else {
          assert text[..b] == window;
        }
      }
    }
  }

  /** The split the code evidently intends: every message within both limits,
      the text rebuilt exactly. */
  lemma {:induction false} WindowedCutsWithinLimits(text: seq<Byte>)
    ensures Rejoin(Cuts(text, Windowed)) == text
    ensures forall i :: 0 <= i < |Cuts(text, Windowed)| ==> WithinLimits(Cuts(text, Windowed)[i].chunk)
    decreases |text|
  {
    if text != [] {
      var c := NextCut(text, Windowed);
      WindowedCutWithinLimits(text);
      WindowedCutsWithinLimits(c.rest);
      CutsRebuildText(text, Windowed);
      assert Cuts(text, Windowed) == [c] + Cuts(c.rest, Windowed);
    }
  }
}
