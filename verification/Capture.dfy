/**
 * One output stream from its masked bytes to what is captured of it: routed, cut into lines, shortened and
 * bounded.  Which bytes of the result are copied, from where, and why no pattern survives in them.
 */
module Capture {
  import opened Bytes
  import opened Emission
  import opened LineCuts
  import opened LineLimiter
  import opened LineRouter
  import opened Masking
  import opened Utf8
  import opened WholeRunes
  import BoundedOutput
  import AnsiStripper
  import SecretPatterns
  import SecretVariants
  import StructuredRedaction
  import Utf8Normalizer

  // ---- Copied and inserted bytes ----

  /** The position is masked, or it is not the end of a line. */
  predicate WithinLine(stream: Stream, q: nat)
    requires q < |stream|
  {
    stream[q].masked || stream[q].value != NEWLINE
  }

  /** What may be missing before the copy of `y`: lines that are routed away, and the end of the line cut short at `y`. */
  ghost predicate Passed(prefix: Text, stream: Stream, q: nat, y: nat, drops: bool)
    requires q < |stream| && y < |stream|
  {
    Structured(prefix, stream, q) || (drops && stream[y].value == NEWLINE && WithinLine(stream, q))
  }

  ghost predicate Follows(prefix: Text, stream: Stream, x: int, y: int, drops: bool) {
    0 <= x < y < |stream| && forall q :: x < q < y ==> Passed(prefix, stream, q, y, drops)
  }

  /** Every byte is inserted (-1) or a copy of an unmasked one, and copies follow each other. */
  ghost predicate Excerpt(prefix: Text, stream: Stream, out: Text, origins: seq<int>, drops: bool) {
    && |origins| == |out|
    && (forall k :: 0 <= k < |out| && origins[k] != -1 ==>
         0 <= origins[k] < |stream| && !stream[origins[k]].masked && out[k] == stream[origins[k]].value)
    && (forall k :: 0 < k < |out| && origins[k - 1] != -1 && origins[k] != -1 ==>
         Follows(prefix, stream, origins[k - 1], origins[k], drops))
  }

  lemma ExcerptLength(prefix: Text, stream: Stream, out: Text, origins: seq<int>, drops: bool)
    requires Excerpt(prefix, stream, out, origins, drops)
    ensures |origins| == |out|
  {
  }

  lemma ExcerptPart(prefix: Text, stream: Stream, out: Text, origins: seq<int>, drops: bool, a: nat, b: nat)
    requires Excerpt(prefix, stream, out, origins, drops) && a <= b <= |out|
    ensures Excerpt(prefix, stream, out[a..b], origins[a..b], drops)
  {
    hide Follows;
  }

  lemma ExcerptNote(prefix: Text, stream: Stream, out: Text, origins: seq<int>, drops: bool, note: Text)
    requires Excerpt(prefix, stream, out, origins, drops)
    ensures Excerpt(prefix, stream, out + note, origins + Inserted(|note|), drops)
  {
    hide Follows;
  }

  lemma ExcerptByte(prefix: Text, stream: Stream, out: Text, origins: seq<int>, drops: bool, position: nat)
    requires Excerpt(prefix, stream, out, origins, drops) && position < |stream| && !stream[position].masked
    requires out != [] && origins[|out| - 1] != -1 ==> Follows(prefix, stream, origins[|out| - 1], position, drops)
    ensures Excerpt(prefix, stream, out + [stream[position].value], origins + [position], drops)
  {
    hide Follows;
  }

  ghost predicate OverlapsInsertion(origins: seq<int>, i: nat, n: nat) {
    exists k :: i <= k < i + n && k < |origins| && origins[k] == -1
  }

  /** Two neighbours in this range were apart in the stream. */
  ghost predicate Jumps(origins: seq<int>, i: nat, n: nat) {
    exists k :: i < k < i + n && k < |origins| && origins[k - 1] != -1 && origins[k] != -1 && origins[k - 1] + 1 != origins[k]
  }

  /** At such a place, something was routed away or the end of a line was left out. */
  lemma JumpsOverSomething(prefix: Text, stream: Stream, out: Text, origins: seq<int>, drops: bool, k: nat)
    requires Excerpt(prefix, stream, out, origins, drops) && 0 < k < |out|
    requires origins[k - 1] != -1 && origins[k] != -1 && origins[k - 1] + 1 != origins[k]
    ensures 0 <= origins[k - 1] + 1 < origins[k] < |stream|
    ensures forall q :: origins[k - 1] < q < origins[k] ==> Passed(prefix, stream, q, origins[k], drops)
  {
    hide Passed;
    assert Follows(prefix, stream, origins[k - 1], origins[k], drops);
  }

  /** Without a prefix, and where every line is valid text, there is no such place. */
  lemma NeverJumps(stream: Stream, out: Text, origins: seq<int>, i: nat, n: nat)
    requires Excerpt([], stream, out, origins, false)
    ensures !Jumps(origins, i, n)
  {
    hide Excerpt, Passed;
    if Jumps(origins, i, n) {
      ExcerptLength([], stream, out, origins, false);
      var k :| i < k < i + n && k < |origins| && origins[k - 1] != -1 && origins[k] != -1 && origins[k - 1] + 1 != origins[k];
      JumpsOverSomething([], stream, out, origins, false, k);
      NothingPassed(stream, origins[k - 1] + 1, origins[k]);
      assert false;
    }
  }

  lemma NothingPassed(stream: Stream, q: nat, y: nat)
    requires q < |stream| && y < |stream|
    ensures !Passed([], stream, q, y, false)
  {
  }

  lemma {:induction false} CopiesFollow(origins: seq<int>, i: nat, n: nat)
    requires i + n <= |origins| && !Jumps(origins, i, n)
    requires forall k :: i <= k < i + n ==> origins[k] != -1
    ensures forall k :: i <= k < i + n ==> origins[k] == origins[i] + (k - i)
  {
    if n > 0 {
      NoJumpsShorter(origins, i, n);
      CopiesFollow(origins, i, n - 1);
      var k := i + n - 1;
      assert n > 1 ==> origins[k - 1] != -1 && origins[k] == origins[k - 1] + 1;
    }
  }

  lemma NoJumpsShorter(origins: seq<int>, i: nat, n: nat)
    requires n > 0 && !Jumps(origins, i, n)
    ensures !Jumps(origins, i, n - 1)
  {
  }

  /** A pattern overlaps something inserted, or spans a place where something is missing: it is never a copy. */
  lemma PatternsOverlapInsertions(
    patterns: set<Text>, text: Text, prefix: Text, out: Text, origins: seq<int>, drops: bool, p: Text, i: nat)
    requires Excerpt(prefix, Mask(patterns, text), out, origins, drops)
    requires p in patterns && p != [] && OccursAt(p, out, i)
    ensures OverlapsInsertion(origins, i, |p|) || Jumps(origins, i, |p|)
  {
    hide Follows, Jumps;
    if !Jumps(origins, i, |p|) && forall k :: i <= k < i + |p| ==> origins[k] != -1 {
      assert forall k :: i <= k < i + |p| ==> out[k] == p[k - i];
      CopiesFollow(origins, i, |p|);
      var s := origins[i];
      forall j | 0 <= j < |p|
        ensures s + j < |text| && text[s + j] == p[j]
      {
        assert origins[i + j] == s + j;
        assert out[i + j] == p[j];
      }
      assert origins[i + (|p| - 1)] == s + (|p| - 1) < |text|;
      assert text[s..s + |p|] == p;
      OccurrenceIsMasked(patterns, text, p, s);
      assert false;
    }
  }

  // ---- The raw limiter's input ----

  /** Where each byte of the rendered raw pieces comes from. */
  ghost function RawOrigins(prefix: Text, stream: Stream, n: nat): seq<int>
    requires n <= |stream|
  {
    if n == 0 then []
    else
      var i := n - 1;
      RawOrigins(prefix, stream, i) +
      if Structured(prefix, stream, i) then []
      else if !stream[i].masked then [i]
      else if Announced(prefix, stream, i) then []
      else Inserted(|REDACTION_MARKER|)
  }

  /** Since the last copy everything was routed away, and a written marker is the last thing written. */
  ghost predicate RawEnd(prefix: Text, stream: Stream, n: nat, out: Text, origins: seq<int>)
    requires n <= |stream| && |origins| == |out|
  {
    && (out != [] && origins[|out| - 1] != -1 ==>
          0 <= origins[|out| - 1] < n && forall q :: origins[|out| - 1] < q < n ==> Structured(prefix, stream, q))
    && (Announced(prefix, stream, n) ==> out != [] && origins[|out| - 1] == -1)
  }

  /** Whatever is missing between a copy and the end of its line is routed away or within the line. */
  ghost predicate LineOpen(prefix: Text, stream: Stream, n: nat, out: Text, origins: seq<int>, u: nat)
    requires n <= |stream| && |origins| == |out| && u < |out|
  {
    origins[u] != -1 && (forall w :: u < w < |out| ==> out[w] != NEWLINE) ==>
      0 <= origins[u] < n && forall q :: origins[u] < q < n ==> Structured(prefix, stream, q) || WithinLine(stream, q)
  }

  /** The same between two copies of one line. */
  ghost predicate SameLineApart(prefix: Text, stream: Stream, out: Text, origins: seq<int>, u: nat, v: nat)
    requires |origins| == |out| && u < v < |out|
  {
    origins[u] != -1 && origins[v] != -1 && (forall w :: u < w < v ==> out[w] != NEWLINE) ==>
      && 0 <= origins[u] < origins[v] < |stream|
      && forall q :: origins[u] < q < origins[v] ==> Structured(prefix, stream, q) || WithinLine(stream, q)
  }

  ghost predicate LinesKept(prefix: Text, stream: Stream, n: nat, out: Text, origins: seq<int>)
    requires n <= |stream| && |origins| == |out|
  {
    && (forall u :: 0 <= u < |out| ==> LineOpen(prefix, stream, n, out, origins, u))
    && (forall u, v :: 0 <= u < v < |out| ==> SameLineApart(prefix, stream, out, origins, u, v))
  }

  lemma KeptByte(prefix: Text, stream: Stream, i: nat, out: Text, origins: seq<int>)
    requires i < |stream| && |origins| == |out| && LinesKept(prefix, stream, i, out, origins) && !stream[i].masked
    ensures LinesKept(prefix, stream, i + 1, out + [stream[i].value], origins + [i])
  {
    hide Structured;
    var after, o, m := out + [stream[i].value], origins + [i], i + 1;
    forall u | 0 <= u < |after|
      ensures LineOpen(prefix, stream, m, after, o, u)
    {
      if u < |out| && o[u] != -1 && forall w :: u < w < |after| ==> after[w] != NEWLINE {
        assert after[|out|] != NEWLINE;
        assert forall w :: u < w < |out| ==> after[w] == out[w];
        assert LineOpen(prefix, stream, i, out, origins, u);
      }
    }
    forall u, v | 0 <= u < v < |after|
      ensures SameLineApart(prefix, stream, after, o, u, v)
    {
      assert forall w :: 0 <= w < |out| ==> after[w] == out[w];
      if v < |out| {
        assert SameLineApart(prefix, stream, out, origins, u, v);
      } else {
        assert LineOpen(prefix, stream, i, out, origins, u);
      }
    }
  }

  lemma KeptMarker(prefix: Text, stream: Stream, i: nat, out: Text, origins: seq<int>, note: Text)
    requires i < |stream| && |origins| == |out| && LinesKept(prefix, stream, i, out, origins)
    requires Structured(prefix, stream, i) || stream[i].masked
    ensures LinesKept(prefix, stream, i + 1, out + note, origins + Inserted(|note|))
  {
    hide Structured;
    var after, o, m := out + note, origins + Inserted(|note|), i + 1;
    assert forall w :: 0 <= w < |out| ==> after[w] == out[w];
    forall u | 0 <= u < |after|
      ensures LineOpen(prefix, stream, m, after, o, u)
    {
      if u < |out| {
        assert LineOpen(prefix, stream, i, out, origins, u);
      }
    }
    forall u, v | 0 <= u < v < |after|
      ensures SameLineApart(prefix, stream, after, o, u, v)
    {
      if v < |out| {
        assert SameLineApart(prefix, stream, out, origins, u, v);
      }
    }
  }

  lemma EndByte(prefix: Text, stream: Stream, i: nat, out: Text, origins: seq<int>)
    requires i < |stream| && Excerpt(prefix, stream, out, origins, false) && RawEnd(prefix, stream, i, out, origins)
    requires !Structured(prefix, stream, i) && !stream[i].masked
    ensures Excerpt(prefix, stream, out + [stream[i].value], origins + [i], false)
    ensures RawEnd(prefix, stream, i + 1, out + [stream[i].value], origins + [i])
  {
    hide Structured, Announced;
    ExcerptByte(prefix, stream, out, origins, false, i);
    AnnouncedStep(prefix, stream, i);
  }

  lemma EndMarker(prefix: Text, stream: Stream, i: nat, out: Text, origins: seq<int>)
    requires i < |stream| && Excerpt(prefix, stream, out, origins, false) && RawEnd(prefix, stream, i, out, origins)
    ensures Excerpt(prefix, stream, out + REDACTION_MARKER, origins + Inserted(|REDACTION_MARKER|), false)
    ensures RawEnd(prefix, stream, i + 1, out + REDACTION_MARKER, origins + Inserted(|REDACTION_MARKER|))
  {
    hide Structured, Announced;
    ExcerptNote(prefix, stream, out, origins, false, REDACTION_MARKER);
  }

  lemma EndNothing(prefix: Text, stream: Stream, i: nat, out: Text, origins: seq<int>)
    requires i < |stream| && |origins| == |out| && RawEnd(prefix, stream, i, out, origins)
    requires Structured(prefix, stream, i) || (stream[i].masked && Announced(prefix, stream, i))
    ensures RawEnd(prefix, stream, i + 1, out, origins)
  {
    hide Structured, Announced;
    AnnouncedStep(prefix, stream, i);
  }

  /** What is true of the raw output so far. */
  ghost predicate RawTrace(prefix: Text, stream: Stream, n: nat, out: Text, origins: seq<int>)
    requires n <= |stream|
  {
    && Excerpt(prefix, stream, out, origins, false) && |origins| == |out|
    && RawEnd(prefix, stream, n, out, origins) && LinesKept(prefix, stream, n, out, origins)
  }

  lemma RawStepByte(prefix: Text, stream: Stream, i: nat, out: Text, origins: seq<int>)
    requires i < |stream| && RawTrace(prefix, stream, i, out, origins) && !Structured(prefix, stream, i) && !stream[i].masked
    ensures RawTrace(prefix, stream, i + 1, out + [stream[i].value], origins + [i])
  {
    hide Excerpt, RawEnd, LinesKept, Structured;
    EndByte(prefix, stream, i, out, origins);
    KeptByte(prefix, stream, i, out, origins);
  }

  lemma RawStepMarker(prefix: Text, stream: Stream, i: nat, out: Text, origins: seq<int>)
    requires i < |stream| && RawTrace(prefix, stream, i, out, origins) && stream[i].masked
    ensures RawTrace(prefix, stream, i + 1, out + REDACTION_MARKER, origins + Inserted(|REDACTION_MARKER|))
  {
    hide Excerpt, RawEnd, LinesKept, Structured;
    EndMarker(prefix, stream, i, out, origins);
    KeptMarker(prefix, stream, i, out, origins, REDACTION_MARKER);
  }

  lemma RawStepNothing(prefix: Text, stream: Stream, i: nat, out: Text, origins: seq<int>)
    requires i < |stream| && RawTrace(prefix, stream, i, out, origins)
    requires Structured(prefix, stream, i) || (stream[i].masked && Announced(prefix, stream, i))
    ensures RawTrace(prefix, stream, i + 1, out, origins)
  {
    hide Excerpt, RawEnd, LinesKept, Structured, Announced;
    EndNothing(prefix, stream, i, out, origins);
    KeptMarker(prefix, stream, i, out, origins, []);
    assert out + [] == out && origins + Inserted(0) == origins;
  }

  lemma {:induction false} RawIsExcerpt(prefix: Text, stream: Stream, n: nat)
    requires n <= |stream|
    ensures RawTrace(prefix, stream, n, Render(RawPieces(prefix, stream, n)), RawOrigins(prefix, stream, n))
  {
    if n > 0 {
      hide RawTrace, Structured, Announced, Render, Inserted;
      var i := n - 1;
      RawIsExcerpt(prefix, stream, i);
      var pieces := RawPieces(prefix, stream, i);
      if Structured(prefix, stream, i) || (stream[i].masked && Announced(prefix, stream, i)) {
        assert RawPieces(prefix, stream, n) == pieces && RawOrigins(prefix, stream, n) == RawOrigins(prefix, stream, i);
        RawStepNothing(prefix, stream, i, Render(pieces), RawOrigins(prefix, stream, i));
      } else if !stream[i].masked {
        RenderedPiece(pieces, Literal(stream[i].value));
        RawStepByte(prefix, stream, i, Render(pieces), RawOrigins(prefix, stream, i));
      } else {
        RenderedPiece(pieces, Marker);
        RawStepMarker(prefix, stream, i, Render(pieces), RawOrigins(prefix, stream, i));
      }
    } else {
      NothingRaw(prefix, stream);
    }
  }

  lemma NothingRaw(prefix: Text, stream: Stream)
    ensures RawTrace(prefix, stream, 0, Render(RawPieces(prefix, stream, 0)), RawOrigins(prefix, stream, 0))
  {
  }

  /**
   * In the raw output, any pattern overlaps a marker or spans a place where structured lines were routed away; without a
   * prefix it always overlaps a marker.
   */
  lemma RawPatternsOverlap(patterns: set<Text>, text: Text, prefix: Text, p: Text, i: nat)
    requires p in patterns && p != []
    requires OccursAt(p, Render(RawPieces(prefix, Mask(patterns, text), |text|)), i)
    ensures var origins := RawOrigins(prefix, Mask(patterns, text), |text|);
      OverlapsInsertion(origins, i, |p|) || (prefix != [] && Jumps(origins, i, |p|))
  {
    hide Excerpt, OverlapsInsertion, Jumps, OccursAt, RawEnd, LinesKept, RawPieces, RawOrigins, Render;
    var stream := Mask(patterns, text);
    RawIsExcerpt(prefix, stream, |text|);
    var out, origins := Render(RawPieces(prefix, stream, |text|)), RawOrigins(prefix, stream, |text|);
    PatternsOverlapInsertions(patterns, text, prefix, out, origins, false, p, i);
    if prefix == [] {
      NeverJumps(stream, out, origins, i, |p|);
    }
  }

  // ---- The recorded lines ----

  /** Where a copy of a copy comes from. */
  function Composed(index: seq<int>, origins: seq<int>): seq<int> {
    seq(|index|, k requires 0 <= k < |index| => if 0 <= index[k] < |origins| then origins[index[k]] else -1)
  }

  lemma FollowsAnyway(prefix: Text, stream: Stream, x: int, y: int, drops: bool)
    requires Follows(prefix, stream, x, y, false)
    ensures Follows(prefix, stream, x, y, drops)
  {
    hide Structured;
    forall q | x < q < y
      ensures Passed(prefix, stream, q, y, drops)
    {
      assert Passed(prefix, stream, q, y, false);
    }
  }

  lemma ComposedFollows(prefix: Text, stream: Stream, raw: Text, origins: seq<int>, u: int, v: int, drops: bool)
    requires RawTrace(prefix, stream, |stream|, raw, origins) && Adjacent(raw, u, v, drops)
    requires origins[u] != -1 && origins[v] != -1
    ensures Follows(prefix, stream, origins[u], origins[v], drops)
  {
    hide Structured;
    if v == u + 1 {
      assert origins[v - 1] == origins[u];
      FollowsAnyway(prefix, stream, origins[u], origins[v], drops);
    } else {
      forall w | u < w < v
        ensures raw[w] != NEWLINE
      {
        assert raw[w] == raw[u + 1..v][w - u - 1];
      }
      assert SameLineApart(prefix, stream, raw, origins, u, v);
    }
  }

  lemma ComposedIsExcerpt(prefix: Text, stream: Stream, raw: Text, origins: seq<int>, out: Text, index: seq<int>, drops: bool)
    requires RawTrace(prefix, stream, |stream|, raw, origins) && Sliced(raw, out, index, drops)
    ensures Excerpt(prefix, stream, out, Composed(index, origins), drops)
  {
    hide Adjacent, Follows, RawEnd, LinesKept;
    var all := Composed(index, origins);
    forall k | 0 < k < |out| && all[k - 1] != -1 && all[k] != -1
      ensures Follows(prefix, stream, all[k - 1], all[k], drops)
    {
      assert Adjacent(raw, index[k - 1], index[k], drops);
      ComposedFollows(prefix, stream, raw, origins, index[k - 1], index[k], drops);
    }
  }

  ghost function RawText(prefix: Text, stream: Stream): Text {
    Render(RawPieces(prefix, stream, |stream|))
  }

  /** Where the bytes of all recorded lines come from. */
  ghost function StreamOrigins(prefix: Text, stream: Stream, lines: seq<Line>, texts: seq<Text>): seq<int>
    requires |texts| == |lines| == |Bodies(RawText(prefix, stream))| <= |Starts(RawText(prefix, stream))|
  {
    Composed(Flatten(Indexes(RawText(prefix, stream), lines, texts)), RawOrigins(prefix, stream, |stream|))
  }

  /** What is recorded of a whole stream consists of copies of unmasked bytes and of insertions. */
  lemma StreamIsExcerpt(prefix: Text, stream: Stream, limit: nat, maximum: nat, touched: set<nat>, lines: seq<Line>, texts: seq<Text>)
    requires Lined(RawText(prefix, stream), limit, maximum, touched, lines, texts)
    ensures |texts| == |lines| == |Bodies(RawText(prefix, stream))| <= |Starts(RawText(prefix, stream))|
    ensures Excerpt(
      prefix, stream, Flatten(texts), StreamOrigins(prefix, stream, lines, texts), Malformed(RawText(prefix, stream)))
  {
    hide Excerpt, RawTrace, RawPieces, RawOrigins, Render, Sliced, Lined, Starts, Malformed;
    var raw, origins := RawText(prefix, stream), RawOrigins(prefix, stream, |stream|);
    RawIsExcerpt(prefix, stream, |stream|);
    LinesAreSliced(raw, limit, maximum, touched, lines, texts);
    ComposedIsExcerpt(prefix, stream, raw, origins, Flatten(texts), Flatten(Indexes(raw, lines, texts)), Malformed(raw));
  }

  /** What the raw limiter is given for each piece. */
  function Writes(pieces: seq<Piece>): seq<(Text, bool)> {
    if pieces == [] then []
    else
      var n := |pieces| - 1;
      Writes(pieces[..n]) + [match pieces[n] { case Literal(value) => ([value], false) case Marker => (REDACTION_MARKER, true) }]
  }

  lemma {:induction false} WritesRender(pieces: seq<Piece>)
    ensures Contents(Writes(pieces)) == Render(pieces)
  {
    if pieces != [] {
      var n := |pieces| - 1;
      WritesRender(pieces[..n]);
      assert Writes(pieces)[..|Writes(pieces)| - 1] == Writes(pieces[..n]);
    }
  }

  lemma LimitedIsValid(lines: seq<Line>, text: Text, touched: set<nat>, limit: nat, n: nat)
    requires n < |lines| == |Bodies(text)|
    requires forall k :: 0 <= k < |Lines(text).closed| ==> Rendered(lines[k], Lines(text).closed[k], true, k in touched, limit)
    requires Lines(text).last != [] ==>
      Rendered(lines[|Lines(text).closed|], Lines(text).last, false, |Lines(text).closed| in touched, limit)
    ensures ValidUtf8(lines[n].text)
  {
    hide Rendered, ValidUtf8, Lines;
    RenderedIsSafe(lines[n], Bodies(text)[n], n < |Lines(text).closed|, n in touched, limit);
  }

  /** A stream in any chunks, up to the lines that are recorded. */
  method EmitStream(variants: seq<Text>, prefix: Text, chunks: seq<Text>, limit: nat, maximum: nat)
    returns (refused: bool, lines: seq<Line>, texts: seq<Text>, ghost touched: set<nat>)
    requires NEWLINE !in prefix
    ensures refused <==> SecretPatterns.ExceedsLimits(SecretPatterns.DistinctPatterns(variants))
    ensures !refused ==> Lined(RawText(prefix, Mask(PatternSet(variants), Flatten(chunks))), limit, maximum, touched, lines, texts)
    ensures forall n :: 0 <= n < |texts| ==> ValidUtf8(texts[n])
  {
    hide Rendered, Recorded, ValidUtf8, RawPieces, Lines, Touched, Render, Mask;
    lines, texts, touched := [], [], {};
    var raw, structured;
    refused, raw, structured := StructuredRedaction.ProcessStream(variants, prefix, chunks);
    if refused {
      return;
    }
    WritesRender(raw);
    lines := LimitLines(Writes(raw), limit);
    touched := Touched(Writes(raw));
    forall n | 0 <= n < |lines|
      ensures ValidUtf8(lines[n].text)
    {
      LimitedIsValid(lines, Render(raw), touched, limit, n);
    }
    texts := RecordLines(lines, maximum);
  }

  method RecordLines(lines: seq<Line>, maximum: nat) returns (texts: seq<Text>)
    requires forall n :: 0 <= n < |lines| ==> ValidUtf8(lines[n].text)
    ensures |texts| == |lines|
    ensures forall n :: 0 <= n < |lines| ==> Recorded(lines[n].text, texts[n], maximum) && ValidUtf8(texts[n])
  {
    hide Recorded, ValidUtf8;
    texts := [];
    for i := 0 to |lines|
      invariant |texts| == i
      invariant forall n :: 0 <= n < i ==> Recorded(lines[n].text, texts[n], maximum) && ValidUtf8(texts[n])
    {
      var text := RecordLine(lines[i].text, maximum);
      texts := texts + [text];
    }
  }

  // ---- The bounded output ----

  /** What is captured of a history: its first `a` bytes, then those from `b` to `c`, then a note. */
  datatype Cut = Cut(a: nat, b: nat, c: nat, note: Text)

  ghost predicate CutOf(captured: Text, history: Text, cut: Cut, maximum: nat) {
    && (cut.note == [] || cut.note == BoundedOutput.MarkerFor(maximum))
    && cut.a <= cut.b <= cut.c <= |history|
    && captured == history[..cut.a] + history[cut.b..cut.c] + cut.note
    && (cut.a == cut.b || cut.c <= cut.b + 3)
  }

  lemma {:induction false} HistoryGrows(appends: seq<BoundedOutput.Append>, j: nat, stream: BoundedOutput.Stream)
    requires j < |appends|
    ensures BoundedOutput.History(appends[..j], stream) <= BoundedOutput.History(appends, stream)
    ensures appends[j].stream == stream ==>
      BoundedOutput.History(appends[..j], stream) + appends[j].content <= BoundedOutput.History(appends, stream)
    decreases |appends|
  {
    var n := |appends| - 1;
    if j < n {
      HistoryGrows(appends[..n], j, stream);
      assert appends[..n][..j] == appends[..j];
    }
  }

  lemma CutOfOverflow(history: Text, before: Text, content: Text, after: Text, other: nat, maximum: nat) returns (cut: Cut)
    requires before + content <= history && BoundedOutput.Overflowed(before, content, after, other, maximum)
    ensures CutOf(after, history, cut, maximum)
  {
    hide ValidUtf8;
    var kept: Text, prefix: Text :| BoundedOutput.CutInto(before, content, after, kept, prefix, other, maximum);
    cut := Cut(|kept|, |before|, |before| + |prefix|, BoundedOutput.MarkerFor(maximum));
    assert history[..|kept|] == kept;
    assert history[|before|..|before| + |prefix|] == prefix;
  }

  /** However the two streams interleave, what is captured of one is such a cut of what was recorded of it. */
  lemma CapturedCut(
    appends: seq<BoundedOutput.Append>, stdout: Text, stderr: Text, truncated: bool, maximum: nat, stream: BoundedOutput.Stream)
    returns (cut: Cut)
    requires BoundedOutput.Outcome(appends, stdout, stderr, truncated, maximum)
    ensures CutOf(if stream.Stdout? then stdout else stderr, BoundedOutput.History(appends, stream), cut, maximum)
  {
    hide BoundedOutput.Overflowed, BoundedOutput.History;
    var captured, history := if stream.Stdout? then stdout else stderr, BoundedOutput.History(appends, stream);
    if !truncated {
      cut := Cut(|history|, |history|, |history|, []);
    } else {
      var j :| 0 <= j < |appends| && BoundedOutput.CutAt(appends, j, stdout, stderr, maximum);
      HistoryGrows(appends, j, stream);
      var before := BoundedOutput.History(appends[..j], stream);
      if appends[j].stream == stream {
        cut := CutOfOverflow(history, before, appends[j].content, captured, if stream.Stdout? then |stderr| else |stdout|, maximum);
      } else {
        cut := Cut(|captured|, |captured|, |captured|, []);
      }
    }
  }

  function CapturedOrigins(origins: seq<int>, cut: Cut): seq<int>
    requires cut.a <= cut.b <= cut.c <= |origins|
  {
    origins[..cut.a] + origins[cut.b..cut.c] + Inserted(|cut.note|)
  }

  /** Something was dropped before the last few bytes, and the pattern reaches over the gap. */
  predicate ReachesOver(cut: Cut, i: nat, n: nat) {
    cut.a < cut.b < cut.c && i < cut.a < i + n
  }

  /** The pattern overlaps something inserted, or spans a place where something is missing. */
  ghost predicate Touches(origins: seq<int>, i: nat, n: nat) {
    OverlapsInsertion(origins, i, n) || Jumps(origins, i, n)
  }

  lemma NotInPart(
    patterns: set<Text>, text: Text, prefix: Text, out: Text, origins: seq<int>, drops: bool, a: nat, b: nat, note: Text, p: Text, i: nat)
    requires Excerpt(prefix, Mask(patterns, text), out, origins, drops) && a <= b <= |out|
    requires p in patterns && p != [] && OccursAt(p, out[a..b] + note, i)
    ensures |origins| == |out| && Touches(origins[a..b] + Inserted(|note|), i, |p|)
  {
    hide Masked, Mask, Excerpt, OccursAt, OverlapsInsertion, Jumps;
    var stream := Mask(patterns, text);
    ExcerptLength(prefix, stream, out, origins, drops);
    ExcerptPart(prefix, stream, out, origins, drops, a, b);
    ExcerptNote(prefix, stream, out[a..b], origins[a..b], drops, note);
    PatternsOverlapInsertions(patterns, text, prefix, out[a..b] + note, origins[a..b] + Inserted(|note|), drops, p, i);
  }

  lemma SameWithin(origins: seq<int>, before: seq<int>, after: seq<int>, k: nat)
    requires k < |origins|
    ensures |before| + k < |before + origins + after| && (before + origins + after)[|before| + k] == origins[k]
  {
  }

  lemma TouchesWithin(origins: seq<int>, before: seq<int>, after: seq<int>, i: nat, n: nat)
    requires Touches(origins, i, n)
    ensures Touches(before + origins + after, |before| + i, n)
  {
    if OverlapsInsertion(origins, i, n) {
      var k :| i <= k < i + n && k < |origins| && origins[k] == -1;
      SameWithin(origins, before, after, k);
    } else {
      var k :| i < k < i + n && k < |origins| && origins[k - 1] != -1 && origins[k] != -1 && origins[k - 1] + 1 != origins[k];
      SameWithin(origins, before, after, k - 1);
      SameWithin(origins, before, after, k);
      JumpsAt(before + origins + after, |before| + k, |before| + i, n);
    }
  }

  lemma JumpsAt(origins: seq<int>, k: nat, i: nat, n: nat)
    requires i < k < i + n && k < |origins| && origins[k - 1] != -1 && origins[k] != -1 && origins[k - 1] + 1 != origins[k]
    ensures Jumps(origins, i, n)
  {
  }

  lemma OccursWithin(p: Text, before: Text, part: Text, after: Text, i: nat)
    requires OccursAt(p, before + part + after, |before| + i) && i + |p| <= |part|
    ensures OccursAt(p, part, i)
  {
    assert part[i..i + |p|] == (before + part + after)[|before| + i..|before| + i + |p|];
  }

  lemma InRange(p: Text, text: Text, i: nat)
    requires OccursAt(p, text, i)
    ensures i + |p| <= |text|
  {
  }

  /** What is captured, as the history and the cut give it. */
  function Shown(history: Text, cut: Cut): Text
    requires cut.a <= cut.b <= cut.c <= |history|
  {
    history[..cut.a] + history[cut.b..cut.c] + cut.note
  }

  lemma NotAcross(
    patterns: set<Text>, text: Text, prefix: Text, history: Text, origins: seq<int>, drops: bool, cut: Cut, p: Text, i: nat)
    requires Excerpt(prefix, Mask(patterns, text), history, origins, drops) && cut.a <= cut.b <= cut.c <= |history| == |origins|
    requires p in patterns && p != [] && OccursAt(p, Shown(history, cut), i) && (cut.a == cut.b || cut.b == cut.c)
    ensures Touches(CapturedOrigins(origins, cut), i, |p|)
  {
    hide Masked, Mask, Excerpt, OccursAt, Touches, Inserted;
    var end := if cut.a == cut.b then cut.c else cut.a;
    assert history[..cut.a] + history[cut.b..cut.c] == history[0..end] && origins[..cut.a] + origins[cut.b..cut.c] == origins[0..end];
    NotInPart(patterns, text, prefix, history, origins, drops, 0, end, cut.note, p, i);
  }

  lemma NotBefore(
    patterns: set<Text>, text: Text, prefix: Text, history: Text, origins: seq<int>, drops: bool, cut: Cut, p: Text, i: nat)
    requires Excerpt(prefix, Mask(patterns, text), history, origins, drops) && cut.a <= cut.b <= cut.c <= |history| == |origins|
    requires p in patterns && p != [] && OccursAt(p, Shown(history, cut), i) && i + |p| <= cut.a
    ensures Touches(CapturedOrigins(origins, cut), i, |p|)
  {
    hide Masked, Mask, Excerpt, OccursAt, Touches;
    var first, rest := history[0..cut.a] + [], history[cut.b..cut.c] + cut.note;
    assert Shown(history, cut) == [] + first + rest;
    OccursWithin(p, [], first, rest, i);
    NotInPart(patterns, text, prefix, history, origins, drops, 0, cut.a, [], p, i);
    var x, y := origins[0..cut.a] + Inserted(0), origins[cut.b..cut.c] + Inserted(|cut.note|);
    TouchesWithin(x, [], y, i, |p|);
    assert CapturedOrigins(origins, cut) == [] + x + y;
  }

  lemma NotAfter(
    patterns: set<Text>, text: Text, prefix: Text, history: Text, origins: seq<int>, drops: bool, cut: Cut, p: Text, i: nat)
    requires Excerpt(prefix, Mask(patterns, text), history, origins, drops) && cut.a <= cut.b <= cut.c <= |history| == |origins|
    requires p in patterns && p != [] && OccursAt(p, Shown(history, cut), i) && cut.a <= i
    ensures Touches(CapturedOrigins(origins, cut), i, |p|)
  {
    hide Masked, Mask, Excerpt, OccursAt, Touches;
    var first, rest := history[..cut.a], history[cut.b..cut.c] + cut.note;
    InRange(p, Shown(history, cut), i);
    assert Shown(history, cut) == first + rest + [];
    OccursWithin(p, first, rest, [], i - cut.a);
    NotInPart(patterns, text, prefix, history, origins, drops, cut.b, cut.c, cut.note, p, i - cut.a);
    var x, y := origins[..cut.a], origins[cut.b..cut.c] + Inserted(|cut.note|);
    TouchesWithin(y, x, [], i - cut.a, |p|);
    assert CapturedOrigins(origins, cut) == x + y + [];
  }

  /**
   * In what is captured, any pattern overlaps something inserted or spans a place where something was routed away or left
   * out of a line, unless it reaches over the one gap that the total limit can leave.
   */
  lemma NoPatternSurvives(
    patterns: set<Text>, text: Text, prefix: Text, history: Text, origins: seq<int>, drops: bool, captured: Text, cut: Cut, maximum: nat,
    p: Text, i: nat)
    requires Excerpt(prefix, Mask(patterns, text), history, origins, drops) && CutOf(captured, history, cut, maximum)
    requires p in patterns && p != [] && OccursAt(p, captured, i) && !ReachesOver(cut, i, |p|)
    ensures |origins| == |history| && Touches(CapturedOrigins(origins, cut), i, |p|)
  {
    hide Masked, Mask, Excerpt, OccursAt, Touches, CapturedOrigins;
    ExcerptLength(prefix, Mask(patterns, text), history, origins, drops);
    assert captured == Shown(history, cut);
    if cut.a == cut.b || cut.b == cut.c {
      NotAcross(patterns, text, prefix, history, origins, drops, cut, p, i);
    } else if i + |p| <= cut.a {
      NotBefore(patterns, text, prefix, history, origins, drops, cut, p, i);
    } else {
      NotAfter(patterns, text, prefix, history, origins, drops, cut, p, i);
    }
  }

  lemma CapturedAt(origins: seq<int>, cut: Cut, k: nat)
    requires cut.a <= cut.b <= cut.c <= |origins| && k < |CapturedOrigins(origins, cut)|
    ensures CapturedOrigins(origins, cut)[k] ==
      if k < cut.a then origins[k] else if k - cut.a < cut.c - cut.b then origins[k - cut.a + cut.b] else -1
  {
  }

  /** Where nothing is missing between copies, nothing is missing in what is captured, except at the gap. */
  lemma NoJumpsCaptured(stream: Stream, history: Text, origins: seq<int>, cut: Cut, i: nat, n: nat)
    requires Excerpt([], stream, history, origins, false) && cut.a <= cut.b <= cut.c <= |history| == |origins|
    requires Jumps(CapturedOrigins(origins, cut), i, n)
    ensures ReachesOver(cut, i, n)
  {
    hide Excerpt, CapturedOrigins;
    var all := CapturedOrigins(origins, cut);
    var k :| i < k < i + n && k < |all| && all[k - 1] != -1 && all[k] != -1 && all[k - 1] + 1 != all[k];
    hide Jumps;
    CapturedAt(origins, cut, k - 1);
    CapturedAt(origins, cut, k);
    if k != cut.a || cut.a == cut.b {
      var j := if k < cut.a then k else k - cut.a + cut.b;
      JumpsAt(origins, j, j - 1, 2);
      NeverJumps(stream, history, origins, j - 1, 2);
      assert false;
    }
  }

  /**
   * Every byte captured of a stream is accounted for, and no pattern in it is a copy: it overlaps something inserted,
   * spans a place where lines were routed away or the end of a malformed line was left out, or reaches over the gap.
   * Without a prefix, and with valid lines, it overlaps something inserted or reaches over the gap.
   */
  ghost predicate Explained(
    patterns: set<Text>, text: Text, prefix: Text, lines: seq<Line>, texts: seq<Text>, captured: Text, cut: Cut, total: nat)
  {
    var stream := Mask(patterns, text);
    var raw := RawText(prefix, stream);
    && |texts| == |lines| == |Bodies(raw)| <= |Starts(raw)|
    && Excerpt(prefix, stream, Flatten(texts), StreamOrigins(prefix, stream, lines, texts), Malformed(raw))
    && CutOf(captured, Flatten(texts), cut, total)
    && (forall p: Text, i: nat :: p in patterns && p != [] && OccursAt(p, captured, i) ==>
          Survives(prefix, stream, lines, texts, cut, i, |p|, prefix == [] && !Malformed(raw)))
  }

  /** What can be said of an occurrence of a pattern. */
  ghost predicate Survives(
    prefix: Text, stream: Stream, lines: seq<Line>, texts: seq<Text>, cut: Cut, i: nat, n: nat, whole: bool)
    requires |texts| == |lines| == |Bodies(RawText(prefix, stream))| <= |Starts(RawText(prefix, stream))|
    requires cut.a <= cut.b <= cut.c <= |StreamOrigins(prefix, stream, lines, texts)|
  {
    var origins := CapturedOrigins(StreamOrigins(prefix, stream, lines, texts), cut);
    OverlapsInsertion(origins, i, n) || ReachesOver(cut, i, n) || (!whole && Jumps(origins, i, n))
  }

  /** This holds for each stream, however its lines interleave with those of the other one. */
  lemma PatternsOverlapInCapture(
    patterns: set<Text>, text: Text, prefix: Text, limit: nat, maximum: nat, touched: set<nat>, lines: seq<Line>, texts: seq<Text>,
    appends: seq<BoundedOutput.Append>, stdout: Text, stderr: Text, truncated: bool, total: nat, stream: BoundedOutput.Stream)
    returns (cut: Cut)
    requires Lined(RawText(prefix, Mask(patterns, text)), limit, maximum, touched, lines, texts)
    requires BoundedOutput.Outcome(appends, stdout, stderr, truncated, total)
    requires BoundedOutput.History(appends, stream) == Flatten(texts)
    ensures Explained(patterns, text, prefix, lines, texts, if stream.Stdout? then stdout else stderr, cut, total)
  {
    hide Excerpt, Lined, Masked, RawText, OccursAt, OverlapsInsertion, Jumps, BoundedOutput.Outcome, BoundedOutput.History, Malformed,
      Starts, StreamOrigins, CapturedOrigins;
    var reports := Mask(patterns, text);
    var raw := RawText(prefix, reports);
    StreamIsExcerpt(prefix, reports, limit, maximum, touched, lines, texts);
    var origins := StreamOrigins(prefix, reports, lines, texts);
    ExcerptLength(prefix, reports, Flatten(texts), origins, Malformed(raw));
    cut := CapturedCut(appends, stdout, stderr, truncated, total, stream);
    var captured := if stream.Stdout? then stdout else stderr;
    forall p: Text, i: nat | p in patterns && p != [] && OccursAt(p, captured, i)
      ensures Survives(prefix, reports, lines, texts, cut, i, |p|, prefix == [] && !Malformed(raw))
    {
      if !ReachesOver(cut, i, |p|) {
        NoPatternSurvives(patterns, text, prefix, Flatten(texts), origins, Malformed(raw), captured, cut, total, p, i);
        if prefix == [] && !Malformed(raw) && Jumps(CapturedOrigins(origins, cut), i, |p|) {
          NoJumpsCaptured(reports, Flatten(texts), origins, cut, i, |p|);
        }
      }
    }
  }

  /**
   * A caller can see beforehand that this is so: the text is valid, every pattern is, and there is no prefix.  Then a
   * pattern overlaps something inserted, or reaches over the gap that the total limit can leave.
   */
  lemma ValidStreamsOverlap(
    patterns: set<Text>, text: Text, lines: seq<Line>, texts: seq<Text>, captured: Text, cut: Cut, total: nat, p: Text, i: nat)
    requires Explained(patterns, text, [], lines, texts, captured, cut, total) && ValidUtf8(text) && AllValid(patterns)
    requires p in patterns && p != [] && OccursAt(p, captured, i)
    ensures OverlapsInsertion(CapturedOrigins(StreamOrigins([], Mask(patterns, text), lines, texts), cut), i, |p|) || ReachesOver(cut, i, |p|)
  {
    hide Excerpt, Masked, Malformed, OccursAt, OverlapsInsertion, Jumps, ValidUtf8, AllValid, Starts, StreamOrigins, CapturedOrigins;
    ValidTextIsWellFormed(patterns, text, []);
    ExcerptLength([], Mask(patterns, text), Flatten(texts), StreamOrigins([], Mask(patterns, text), lines, texts), false);
    assert Survives([], Mask(patterns, text), lines, texts, cut, i, |p|, true);
  }

  // ---- Both streams ----

  lemma HistoryAppend(appends: seq<BoundedOutput.Append>, last: BoundedOutput.Append, stream: BoundedOutput.Stream)
    ensures BoundedOutput.History(appends + [last], stream) ==
      BoundedOutput.History(appends, stream) + if last.stream == stream then last.content else []
  {
    assert (appends + [last])[..|appends|] == appends;
  }

  /** The recorded lines of both streams, in any order that keeps the order of each. */
  method Interleave(first: seq<Text>, second: seq<Text>, order: seq<bool>) returns (appends: seq<BoundedOutput.Append>)
    requires forall n :: 0 <= n < |first| ==> ValidUtf8(first[n])
    requires forall n :: 0 <= n < |second| ==> ValidUtf8(second[n])
    ensures BoundedOutput.History(appends, BoundedOutput.Stdout) == Flatten(first)
    ensures BoundedOutput.History(appends, BoundedOutput.Stderr) == Flatten(second)
    ensures forall n :: 0 <= n < |appends| ==> ValidUtf8(appends[n].content)
  {
    hide ValidUtf8, BoundedOutput.History;
    appends := [];
    NoAppends();
    var i, j, k := 0, 0, 0;
    while i < |first| || j < |second|
      invariant i <= |first| && j <= |second|
      invariant BoundedOutput.History(appends, BoundedOutput.Stdout) == Flatten(first[..i])
      invariant BoundedOutput.History(appends, BoundedOutput.Stderr) == Flatten(second[..j])
      invariant forall n :: 0 <= n < |appends| ==> ValidUtf8(appends[n].content)
      decreases |first| - i + |second| - j
    {
      var takesFirst := j == |second| || (i < |first| && (k >= |order| || order[k]));
      k := k + 1;
      var next := if takesFirst then BoundedOutput.Append(BoundedOutput.Stdout, first[i]) else BoundedOutput.Append(BoundedOutput.Stderr, second[j]);
      HistoryAppend(appends, next, BoundedOutput.Stdout);
      HistoryAppend(appends, next, BoundedOutput.Stderr);
      if takesFirst {
        FlattenAppend(first[..i], first[i]);
        assert first[..i + 1] == first[..i] + [first[i]];
        i := i + 1;
      } else {
        FlattenAppend(second[..j], second[j]);
        assert second[..j + 1] == second[..j] + [second[j]];
        j := j + 1;
      }
      appends := appends + [next];
    }
    assert first[..|first|] == first && second[..|second|] == second;
  }

  lemma NoAppends()
    ensures BoundedOutput.History([], BoundedOutput.Stdout) == [] && BoundedOutput.History([], BoundedOutput.Stderr) == []
  {
  }

  /** What the normalizer and the stripper make of a job's writes. */
  function CleanedChunks(chunks: seq<Text>): Text {
    AnsiStripper.Stripped(
      AnsiStripper.START, Utf8Normalizer.Written([], chunks) + Utf8Normalizer.Tail(Utf8Normalizer.Left([], chunks)))
  }

  lemma OneChunk(text: Text)
    ensures Flatten([text]) == text
  {
    assert [text][1..] == [];
  }

  method CleanChunks(chunks: seq<Text>) returns (clean: Text)
    ensures clean == CleanedChunks(chunks)
  {
    var normalized := Utf8Normalizer.NormalizeStream(chunks);
    OneChunk(normalized);
    clean := AnsiStripper.StripStream([normalized]);
  }

  /** These are the recorded lines of the text, masked and routed. */
  ghost predicate Recording(
    patterns: set<Text>, text: Text, prefix: Text, limit: nat, maximum: nat, lines: seq<Line>, texts: seq<Text>)
  {
    exists touched: set<nat> :: Lined(RawText(prefix, Mask(patterns, text)), limit, maximum, touched, lines, texts)
  }

  /** One captured stream: its recorded lines, and what is left of them. */
  datatype Captured = Captured(lines: seq<Line>, texts: seq<Text>, text: Text)

  /**
   * The whole way of both streams of a job, from its writes and the configured secrets.  Only stdout has structured
   * lines.  `order` says how the lines of the two streams interleave.
   */
  method CollectStreams(
    secrets: seq<Text>, encoders: seq<Text -> Text>, prefix: Text, stdoutChunks: seq<Text>, stderrChunks: seq<Text>,
    order: seq<bool>, limit: nat, maximum: nat, total: nat)
    returns (refused: bool, stdout: Captured, stderr: Captured, ghost variants: seq<Text>, ghost cuts: (Cut, Cut))
    requires NEWLINE !in prefix
    ensures forall w :: w in variants <==> SecretVariants.Variant(w, secrets, encoders)
    ensures refused <==> SecretPatterns.ExceedsLimits(SecretPatterns.DistinctPatterns(variants))
    ensures |stdout.text| + |stderr.text| <= total && ValidUtf8(stdout.text) && ValidUtf8(stderr.text)
    ensures !refused ==>
      && Explained(PatternSet(variants), CleanedChunks(stdoutChunks), prefix, stdout.lines, stdout.texts, stdout.text, cuts.0, total)
      && Explained(PatternSet(variants), CleanedChunks(stderrChunks), [], stderr.lines, stderr.texts, stderr.text, cuts.1, total)
    ensures !refused ==>
      && Recording(PatternSet(variants), CleanedChunks(stdoutChunks), prefix, limit, maximum, stdout.lines, stdout.texts)
      && Recording(PatternSet(variants), CleanedChunks(stderrChunks), [], maximum, maximum, stderr.lines, stderr.texts)
  {
    hide SecretVariants.Variant, Explained, ValidUtf8, CleanedChunks, Lined, RawText, Mask, PatternSet, BoundedOutput.Outcome,
      BoundedOutput.History;
    var none := Captured([], [], []);
    stdout, stderr, cuts := none, none, (Cut(0, 0, 0, []), Cut(0, 0, 0, []));
    var all := SecretVariants.ExpandAll(secrets, encoders);
    variants := all;
    var cleanOut := CleanChunks(stdoutChunks);
    var cleanErr := CleanChunks(stderrChunks);
    OneChunk(cleanOut);
    OneChunk(cleanErr);
    var outLines, outTexts, errLines, errTexts;
    ghost var outTouched, errTouched;
    NothingIsValid();
    refused, outLines, outTexts, outTouched := EmitStream(all, prefix, [cleanOut], limit, maximum);
    if refused {
      return;
    }
    refused, errLines, errTexts, errTouched := EmitStream(all, [], [cleanErr], maximum, maximum);
    var appends := Interleave(outTexts, errTexts, order);
    var out, err, truncated := BoundedOutput.CollectOutput(total, appends);
    stdout, stderr := Captured(outLines, outTexts, out), Captured(errLines, errTexts, err);
    ghost var outCut := PatternsOverlapInCapture(
      PatternSet(all), cleanOut, prefix, limit, maximum, outTouched, outLines, outTexts, appends, out, err, truncated, total,
      BoundedOutput.Stdout);
    ghost var errCut := PatternsOverlapInCapture(
      PatternSet(all), cleanErr, [], maximum, maximum, errTouched, errLines, errTexts, appends, out, err, truncated, total,
      BoundedOutput.Stderr);
    cuts := (outCut, errCut);
  }

  lemma NothingIsValid()
    ensures ValidUtf8([])
  {
  }

  // ---- Where it does not hold ----

  /** A structured line between two raw ones is routed away, and they follow each other. */
  lemma RoutedAway(stream: Stream)
    requires |stream| == 5 && forall k :: 0 <= k < 5 ==> !stream[k].masked
    requires stream[0].value == 97 && stream[1].value == NEWLINE == stream[3].value && stream[2].value == 64 && stream[4].value == 98
    ensures Render(RawPieces([64], stream, 5)) == [97, NEWLINE, 98]
  {
    hide Structured, Render, RawPieces;
    var prefix: Text := [64];
    RoutedLines(stream, prefix);
    NoPieces(prefix, stream);
    for i := 0 to 5
      invariant RawPieces(prefix, stream, i) ==
        if i == 0 then [] else if i == 1 then [] + [Literal(97)] else if i < 5 then [] + [Literal(97)] + [Literal(NEWLINE)]
        else [] + [Literal(97)] + [Literal(NEWLINE)] + [Literal(98)]
    {
      NextPiece(prefix, stream, i);
    }
    RenderedPiece([], Literal(97));
    RenderedPiece([] + [Literal(97)], Literal(NEWLINE));
    RenderedPiece([] + [Literal(97)] + [Literal(NEWLINE)], Literal(98));
  }

  lemma NoPieces(prefix: Text, stream: Stream)
    ensures RawPieces(prefix, stream, 0) == [] && Render([]) == []
  {
  }

  lemma NextPiece(prefix: Text, stream: Stream, i: nat)
    requires i < |stream| && !stream[i].masked
    ensures RawPieces(prefix, stream, i + 1) ==
      RawPieces(prefix, stream, i) + if Structured(prefix, stream, i) then [] else [Literal(stream[i].value)]
  {
    hide Structured;
  }

  lemma RoutedLines(stream: Stream, prefix: Text)
    requires |stream| == 5 && prefix == [64]
    requires stream[0].value == 97 && stream[1].value == NEWLINE == stream[3].value && stream[2].value == 64 && stream[4].value == 98
    ensures !Structured(prefix, stream, 0) && !Structured(prefix, stream, 1) && !Structured(prefix, stream, 4)
    ensures Structured(prefix, stream, 2) && Structured(prefix, stream, 3)
  {
    assert LineStart(stream, 1) == 0 && LineStart(stream, 2) == LineStart(stream, 3) == 2 && LineStart(stream, 4) == 4;
    assert prefix[0] == stream[2 + 0].value && prefix[0] != stream[0 + 0].value && prefix[0] != stream[4 + 0].value;
  }

  /** So a pattern with a newline can appear where it was not in the text. */
  lemma RoutingJoinsLines()
    ensures var p: Text, text: Text := [97, NEWLINE, 98], [97, NEWLINE, 64, NEWLINE, 98];
      && (forall i :: !OccursAt(p, text, i))
      && Render(RawPieces([64], Mask({p}, text), |text|)) == p
  {
    var p: Text, text: Text := [97, NEWLINE, 98], [97, NEWLINE, 64, NEWLINE, 98];
    assert text[0..3][2] == 64 && text[1..4][0] == NEWLINE && text[2..5][0] == 64;
    forall i
      ensures !OccursAt(p, text, i)
    {
      assert i < 0 || i == 0 || i == 1 || i == 2 || i > 2;
    }
    RoutedAway(Mask({p}, text));
  }

  const SMILE_LINE: Text := [97, 0xF0, 0x9F, 0x98, 0x80, NEWLINE] // a letter, a rune of four bytes, a line end

  lemma SmileIsValid()
    ensures ValidUtf8(SMILE_LINE)
    ensures forall n :: 1 < n < 5 ==> !ValidUtf8(SMILE_LINE[..n])
  {
    var rest: Text := SMILE_LINE[1..];
    assert RuneLength(SMILE_LINE) == 1 && RuneLength(rest) == 4 && rest[4..] == [NEWLINE];
    assert RuneLength([NEWLINE]) == 1 && [NEWLINE][1..] == [];
    assert ValidUtf8([NEWLINE]) && ValidUtf8(rest);
    forall n | 1 < n < 5
      ensures !ValidUtf8(SMILE_LINE[..n])
    {
      assert RuneLength(SMILE_LINE[..n]) == 1;
      assert RuneLength(SMILE_LINE[..n][1..]) == 0;
    }
  }

  const NEXT_LINE: Text := [98] + seq(BoundedOutput.MARKER_BYTES + 4, _ => 99)

  /** The letters `ab`, which are not in these two lines. */
  const APART: Text := [97, 98]

  lemma NotInLines(i: int)
    ensures !OccursAt(APART, SMILE_LINE + NEXT_LINE, i)
  {
    var text := SMILE_LINE + NEXT_LINE;
    if 0 <= i && i + 2 <= |text| {
      assert text[i..i + 2][0] == text[i] && text[i..i + 2][1] == text[i + 1];
    }
  }

  /**
   * The total limit can make a pattern out of text that does not hold it: the rune between two letters went, and the next
   * line filled its place.  No byte of it is inserted; it reaches over the gap.
   */
  method TruncationJoinsText() returns (output: BoundedOutput.BoundedOutput, ghost cut: Cut)
    ensures fresh(output) && output.truncated && OccursAt(APART, output.stdout, 0)
    ensures forall i :: !OccursAt(APART, SMILE_LINE + NEXT_LINE, i)
    ensures CutOf(output.stdout, SMILE_LINE + NEXT_LINE, cut, output.maximum) && ReachesOver(cut, 0, |APART|)
    ensures !OverlapsInsertion(CapturedOrigins(Range(0, |SMILE_LINE + NEXT_LINE|), cut), 0, |APART|)
  {
    hide ValidUtf8, BoundedOutput.BoundedOutput.Recorded, BoundedOutput.MarkerFor, OverlapsInsertion, CapturedOrigins;
    output := new BoundedOutput.BoundedOutput(BoundedOutput.MARKER_BYTES + 4);
    SmileIsValid();
    AsciiIsValid(NEXT_LINE);
    AsciiIsValid(NEXT_LINE[..3]);
    output.Append(BoundedOutput.Stdout, SMILE_LINE);
    assert output.stdout == SMILE_LINE;
    output.Append(BoundedOutput.Stdout, NEXT_LINE);
    ghost var kept: Text, prefix: Text :|
      BoundedOutput.CutInto(SMILE_LINE, NEXT_LINE, output.stdout, kept, prefix, |output.stderr|, output.maximum);
    BoundedOutput.MarkerIsWhole(output.maximum);
    assert output.stderr == [];
    assert kept == SMILE_LINE[..|kept|] && |kept| == 1;
    assert |prefix| >= 3 && prefix[0] == NEXT_LINE[0];
    assert output.stdout[..2] == APART;
    cut := Cut(1, |SMILE_LINE|, |SMILE_LINE| + |prefix|, BoundedOutput.MarkerFor(output.maximum));
    GapIsCut(output.stdout, prefix, cut, output.maximum);
    forall i {
      NotInLines(i);
    }
  }

  lemma GapIsCut(captured: Text, prefix: Text, cut: Cut, maximum: nat)
    requires 0 < |prefix| <= 3 && prefix <= NEXT_LINE && captured == SMILE_LINE[..1] + prefix + cut.note
    requires cut == Cut(1, |SMILE_LINE|, |SMILE_LINE| + |prefix|, BoundedOutput.MarkerFor(maximum))
    ensures CutOf(captured, SMILE_LINE + NEXT_LINE, cut, maximum)
    ensures !OverlapsInsertion(CapturedOrigins(Range(0, |SMILE_LINE + NEXT_LINE|), cut), 0, |APART|)
  {
    var text := SMILE_LINE + NEXT_LINE;
    assert text[..1] == SMILE_LINE[..1] && text[cut.b..cut.c] == prefix;
    var origins := CapturedOrigins(Range(0, |text|), cut);
    assert origins[0] == 0 && origins[1] == |SMILE_LINE|;
  }

  /** What is left of a line of this kind: a letter, half a rune and a marker. */
  lemma HalfRuneDropped(line: Line, redacted: bool, limit: nat)
    requires |[97, 0xC3] + REDACTION_MARKER| <= limit && Rendered(line, [97, 0xC3] + REDACTION_MARKER, true, redacted, limit)
    ensures line.text == [97, NEWLINE]
  {
    var body: Text := [97, 0xC3] + REDACTION_MARKER;
    var shown: Text :| ShownOf(shown, body, limit) && line.text == shown + Ending(line.truncated, true);
    assert body[..|body|] == body;
    assert ValidUtf8(body[..1]) by {
      AsciiIsValid(body[..1]);
    }
    if |shown| > 1 {
      HalfRuneInvalid(shown, body);
      assert false;
    }
    assert shown == [97];
  }

  lemma HalfRuneInvalid(s: Text, body: Text)
    requires |s| > 1 && s <= body && |body| > 2 && body[0] == 97 && body[1] == 0xC3 && body[2] == 91
    ensures !ValidUtf8(s)
  {
    assert RuneLength(s) == 1 && RuneLength(s[1..]) == 0 && s[1..] != [];
    assert !ValidUtf8(s[1..]);
  }

  /**
   * So a pattern can also come about where another pattern masks half a rune: the rest of such a line is left out without a
   * marker, and its line end follows.
   */
  lemma MalformedLineJoins()
    ensures var p: Text, text: Text := [97, NEWLINE], [97, 0xC3, 0xA9, NEWLINE];
      && (forall i :: !OccursAt(p, text, i))
      && RawText([], Mask({p, [0xA9]}, text)) == [97, 0xC3] + REDACTION_MARKER + [NEWLINE]
  {
    var p: Text, q: Text, text: Text := [97, NEWLINE], [0xA9], [97, 0xC3, 0xA9, NEWLINE];
    forall i
      ensures !OccursAt(p, text, i)
    {
      if 0 <= i && i + 2 <= |text| {
        assert text[i..i + 2][0] == text[i] && text[i..i + 2][1] == text[i + 1];
      }
    }
    var stream := Mask({p, q}, text);
    OnlyHalfMasked(p, q, text);
    HalfMaskedPieces(stream);
  }

  lemma OnlyHalfMasked(p: Text, q: Text, text: Text)
    requires q == [0xA9] && text == [97, 0xC3, 0xA9, NEWLINE] && forall i :: !OccursAt(p, text, i)
    ensures forall k :: 0 <= k < 4 ==> Mask({p, q}, text)[k] == Report(text[k], k == 2)
  {
    var stream := Mask({p, q}, text);
    assert text[2..3] == q && OccursAt(q, text, 2);
    OccurrenceIsMasked({p, q}, text, q, 2);
    forall k | 0 <= k < 4 && k != 2
      ensures !Masked({p, q}, text, k)
    {
      assert text[k..k + 1][0] == text[k];
    }
  }

  lemma HalfMaskedPieces(stream: Stream)
    requires |stream| == 4 && stream[0] == Report(97, false) && stream[1] == Report(0xC3, false)
    requires stream[2] == Report(0xA9, true) && stream[3] == Report(NEWLINE, false)
    ensures RawText([], stream) == [97, 0xC3] + REDACTION_MARKER + [NEWLINE]
  {
    hide Render, RawPieces;
    NoPieces([], stream);
    NextPiece([], stream, 0);
    NextPiece([], stream, 1);
    OnePiece([], stream, 2);
    NextPiece([], stream, 3);
    assert !Announced([], stream, 2);
    OnePiece([], stream, 0);
    OnePiece([], stream, 1);
    OnePiece([], stream, 3);
  }
}
