/** What is inserted into the recorded text of a stream: nothing but markers, or beginnings of them where a limit cuts. */
module Insertions {
  import opened Bytes
  import opened Masking
  import opened Emission
  import opened LineLimiter
  import opened LineRouter
  import opened LineCuts
  import opened Capture
  import opened Utf8
  import opened WholeRunes

  const MARKERS: set<Text> := {REDACTION_MARKER, LINE_TRUNCATION_MARKER}

  /** The bytes from `a` to `k` are inserted, and they are the first ones of this marker. */
  ghost predicate Spells(out: Text, origins: seq<int>, a: nat, k: nat, marker: Text) {
    && a <= k < |out| && |origins| == |out| && k - a < |marker|
    && forall j :: a <= j <= k ==> origins[j] == -1 && out[j] == marker[j - a]
  }

  ghost predicate InMarker(out: Text, origins: seq<int>, k: nat) {
    exists a: nat, marker: Text :: marker in MARKERS && Spells(out, origins, a, k, marker)
  }

  /** Every inserted byte belongs to a marker, of which everything before it is there too. */
  ghost predicate Noted(out: Text, origins: seq<int>) {
    |origins| == |out| && forall k: nat :: k < |out| && origins[k] == -1 ==> InMarker(out, origins, k)
  }

  /** No marker has a line end in it. */
  lemma NoLineEnd(out: Text, origins: seq<int>, a: nat, k: nat, marker: Text, j: int)
    requires marker in MARKERS && Spells(out, origins, a, k, marker) && a <= j <= k
    ensures out[j] != NEWLINE
  {
    assert marker == REDACTION_MARKER || marker == LINE_TRUNCATION_MARKER;
    assert out[j] == marker[j - a];
  }

  lemma LineEndIsCopied(out: Text, origins: seq<int>, k: nat)
    requires Noted(out, origins) && k < |out| && out[k] == NEWLINE
    ensures origins[k] != -1
  {
    if InMarker(out, origins, k) {
      var a: nat, marker: Text :| marker in MARKERS && Spells(out, origins, a, k, marker);
      NoLineEnd(out, origins, a, k, marker, k);
    }
  }

  /** A marker stays where it is when text comes before and after. */
  lemma InMarkerWithin(out: Text, origins: seq<int>, k: nat, before: Text, earlier: seq<int>, after: Text, later: seq<int>)
    requires InMarker(out, origins, k) && |before| == |earlier| && |after| == |later|
    ensures InMarker(before + out + after, earlier + origins + later, |before| + k)
  {
    var a: nat, marker: Text :| marker in MARKERS && Spells(out, origins, a, k, marker);
    var text, all := before + out + after, earlier + origins + later;
    forall j | |before| + a <= j <= |before| + k
      ensures all[j] == -1 && text[j] == marker[j - (|before| + a)]
    {
      assert all[j] == origins[j - |before|] && text[j] == out[j - |before|];
    }
    assert Spells(text, all, |before| + a, |before| + k, marker);
  }

  lemma NotedConcat(a: Text, x: seq<int>, b: Text, y: seq<int>)
    requires Noted(a, x) && Noted(b, y)
    ensures Noted(a + b, x + y)
  {
    forall k: nat | k < |a + b| && (x + y)[k] == -1
      ensures InMarker(a + b, x + y, k)
    {
      if k < |a| {
        InMarkerWithin(a, x, k, [], [], b, y);
        assert [] + a + b == a + b && [] + x + y == x + y;
      } else {
        InMarkerWithin(b, y, k - |a|, a, x, [], []);
        assert a + b + [] == a + b && x + y + [] == x + y;
      }
    }
  }

  /** The text may be cut off anywhere, and may begin at the beginning of a line. */
  lemma NotedPart(out: Text, origins: seq<int>, start: nat, end: nat)
    requires Noted(out, origins) && start <= end <= |out| && (start == 0 || out[start - 1] == NEWLINE)
    ensures Noted(out[start..end], origins[start..end])
  {
    forall k: nat | k < end - start && origins[start..end][k] == -1
      ensures InMarker(out[start..end], origins[start..end], k)
    {
      assert InMarker(out, origins, start + k);
      var a: nat, marker: Text :| marker in MARKERS && Spells(out, origins, a, start + k, marker);
      StartsLater(out, origins, a, start + k, marker, start);
      assert Spells(out[start..end], origins[start..end], a - start, k, marker);
    }
  }

  lemma StartsLater(out: Text, origins: seq<int>, a: nat, k: nat, marker: Text, start: nat)
    requires marker in MARKERS && Spells(out, origins, a, k, marker) && start <= k && (start == 0 || out[start - 1] == NEWLINE)
    ensures start <= a
  {
    if a < start {
      NoLineEnd(out, origins, a, k, marker, start - 1);
    }
  }

  lemma MarkerNoted(marker: Text)
    requires marker in MARKERS
    ensures Noted(marker, Inserted(|marker|))
  {
    forall k: nat | k < |marker|
      ensures InMarker(marker, Inserted(|marker|), k)
    {
      assert Spells(marker, Inserted(|marker|), 0, k, marker);
    }
  }

  lemma ByteNoted(value: byte, position: nat)
    ensures Noted([value], [position])
  {
  }

  lemma OneOrigin(prefix: Text, stream: Stream, k: nat)
    requires k < |stream|
    ensures RawOrigins(prefix, stream, k + 1) == RawOrigins(prefix, stream, k) +
      if Structured(prefix, stream, k) || (stream[k].masked && Announced(prefix, stream, k)) then []
      else if stream[k].masked then Inserted(|REDACTION_MARKER|) else [k]
  {
    hide Structured, Announced;
  }

  lemma NothingNoted(prefix: Text, stream: Stream)
    ensures Noted(Render(RawPieces(prefix, stream, 0)), RawOrigins(prefix, stream, 0))
  {
  }

  /** The raw text: only redaction markers are inserted. */
  lemma {:induction false} RawIsNoted(prefix: Text, stream: Stream, n: nat)
    requires n <= |stream|
    ensures Noted(Render(RawPieces(prefix, stream, n)), RawOrigins(prefix, stream, n))
  {
    hide Structured, Announced, RawPieces, RawOrigins, Render, Noted;
    if n == 0 {
      NothingNoted(prefix, stream);
    } else {
      var i := n - 1;
      RawIsNoted(prefix, stream, i);
      OnePiece(prefix, stream, i);
      OneOrigin(prefix, stream, i);
      var out, origins := Render(RawPieces(prefix, stream, i)), RawOrigins(prefix, stream, i);
      if Structured(prefix, stream, i) || (stream[i].masked && Announced(prefix, stream, i)) {
        assert origins + [] == origins;
      } else if stream[i].masked {
        MarkerNoted(REDACTION_MARKER);
        NotedConcat(out, origins, REDACTION_MARKER, Inserted(|REDACTION_MARKER|));
      } else {
        ByteNoted(stream[i].value, i);
        NotedConcat(out, origins, [stream[i].value], [i]);
      }
    }
  }

  /** An unmasked byte of a raw line is a copy of itself. */
  lemma {:induction false} CopyIsTraced(prefix: Text, stream: Stream, i: nat, n: nat)
    requires i < n <= |stream| && !Structured(prefix, stream, i) && !stream[i].masked
    ensures |RawOrigins(prefix, stream, i)| < |RawOrigins(prefix, stream, n)|
    ensures RawOrigins(prefix, stream, n)[|RawOrigins(prefix, stream, i)|] == i
    decreases n
  {
    hide Structured, Announced, RawOrigins;
    OneOrigin(prefix, stream, n - 1);
    if i < n - 1 {
      CopyIsTraced(prefix, stream, i, n - 1);
    }
  }

  // ---- The recorded lines ----

  lemma ComposedCut(index: seq<int>, origins: seq<int>, shown: int, note: nat, newline: bool)
    ensures Composed(CutIndex(index, shown, note, newline), origins) == CutIndex(Composed(index, origins), shown, note, newline)
  {
  }

  lemma ComposedRange(start: nat, n: nat, origins: seq<int>)
    requires start + n <= |origins|
    ensures Composed(Range(start, n), origins) == origins[start..start + n]
  {
  }

  lemma ComposedConcat(a: seq<int>, b: seq<int>, origins: seq<int>)
    ensures Composed(a + b, origins) == Composed(a, origins) + Composed(b, origins)
  {
  }

  /** A limit leaves a beginning, perhaps its marker, and the line end. */
  lemma CutNoted(text: Text, origins: seq<int>, shown: nat, truncated: bool, newline: bool)
    requires Noted(text, origins) && shown <= |text| && (newline ==> EndsLine(text))
    ensures Noted(text[..shown] + Ending(truncated, newline), CutIndex(origins, shown, NoteLength(truncated), newline))
  {
    hide InMarker;
    var note: Text := if truncated then LINE_TRUNCATION_MARKER else [];
    NotedPart(text, origins, 0, shown);
    assert text[0..shown] == text[..shown] && origins[0..shown] == origins[..shown];
    if truncated {
      MarkerNoted(note);
    }
    NotedConcat(text[..shown], origins[..shown], note, Inserted(|note|));
    var end: Text, last: seq<int> := if newline then [NEWLINE] else [], if newline then [origins[|text| - 1]] else [];
    if newline {
      LineEndIsCopied(text, origins, |text| - 1);
    }
    assert Noted(end, last);
    NotedConcat(text[..shown] + note, origins[..shown] + Inserted(|note|), end, last);
    assert text[..shown] + note + end == text[..shown] + (note + end);
  }

  lemma LimitedNoted(raw: Text, origins: seq<int>, start: nat, body: Text, newline: bool, shown: Text, truncated: bool)
    requires Noted(raw, origins) && LineAt(raw, start, body, newline) && (start == 0 || raw[start - 1] == NEWLINE) && shown <= body
    ensures Noted(
      shown + Ending(truncated, newline),
      Composed(CutIndex(Range(start, |body| + if newline then 1 else 0), |shown|, NoteLength(truncated), newline), origins))
  {
    hide CutIndex, Composed, Ending;
    var length := |body| + if newline then 1 else 0;
    var whole := raw[start..start + length];
    NotedLength(raw, origins);
    NotedPart(raw, origins, start, start + length);
    hide Noted;
    ComposedRange(start, length, origins);
    assert whole[..|body|] == body && whole[..|shown|] == shown by {
      assert raw[start..start + |body|] == whole[..|body|];
    }
    CutNoted(whole, origins[start..start + length], |shown|, truncated, newline);
    ComposedCut(Range(start, length), origins, |shown|, NoteLength(truncated), newline);
  }

  lemma ShortenedNoted(text: Text, index: seq<int>, origins: seq<int>, part: Text)
    requires Noted(text, Composed(index, origins)) && part <= text
    ensures Noted(
      part + Ending(true, EndsLine(text)), Composed(CutIndex(index, |part|, NoteLength(true), EndsLine(text)), origins))
  {
    hide Noted, CutIndex, Composed, Ending;
    assert text[..|part|] == part;
    CutNoted(text, Composed(index, origins), |part|, true, EndsLine(text));
    ComposedCut(index, origins, |part|, NoteLength(true), EndsLine(text));
  }

  /** So a recorded line has only markers inserted, or beginnings of them. */
  lemma LineIsNoted(
    raw: Text, origins: seq<int>, start: nat, body: Text, newline: bool, line: Line, out: Text, redacted: bool, limit: nat, maximum: nat)
    requires Noted(raw, origins) && LineAt(raw, start, body, newline) && (start == 0 || raw[start - 1] == NEWLINE)
    requires Rendered(line, body, newline, redacted, limit) && Recorded(line.text, out, maximum)
    ensures Noted(out, Composed(LineIndex(out, line, start, |body|), origins))
  {
    hide Noted, ValidUtf8, CutIndex, Composed, LineAt;
    var shown: Text :| ShownOf(shown, body, limit) && line.text == shown + Ending(line.truncated, newline);
    LimitedNoted(raw, origins, start, body, newline, shown, line.truncated);
    if out != line.text {
      var limited := CutIndex(Range(start, |body| + if newline then 1 else 0), |shown|, NoteLength(line.truncated), newline);
      var part: Text :| ShownOf(part, line.text[..maximum], maximum) && out == part + Ending(true, EndsLine(line.text));
      ShortenedNoted(line.text, limited, origins, part);
    }
  }

  lemma NotedLength(out: Text, origins: seq<int>)
    requires Noted(out, origins)
    ensures |origins| == |out|
  {
  }

  lemma LinedOneNoted(
    raw: Text, origins: seq<int>, limit: nat, maximum: nat, touched: set<nat>, lines: seq<Line>, texts: seq<Text>, n: nat)
    requires Noted(raw, origins) && Lined(raw, limit, maximum, touched, lines, texts) && n < |texts|
    ensures |texts| == |lines| == |Bodies(raw)| <= |Starts(raw)|
    ensures Noted(texts[n], Composed(Indexes(raw, lines, texts)[n], origins))
  {
    hide Noted, LineIndex, Rendered, Recorded, Lines, Starts, Composed;
    LinesAt(raw);
    AfterLineEnd(raw, n);
    hide LineAt;
    var newline := n < |Lines(raw).closed|;
    LineIsNoted(raw, origins, Starts(raw)[n], Bodies(raw)[n], newline, lines[n], texts[n], n in touched, limit, maximum);
  }

  /** A line begins where the text does, or after a line end. */
  lemma AfterLineEnd(raw: Text, n: nat)
    requires n < |Starts(raw)|
    ensures Starts(raw)[n] == 0 || (Starts(raw)[n] <= |raw| && raw[Starts(raw)[n] - 1] == NEWLINE)
  {
    hide Lines, Starts;
    LinesAt(raw);
    if n > 0 {
      assert LineAt(raw, Starts(raw)[n - 1], Lines(raw).closed[n - 1], true) && Starts(raw)[n - 1 + 1] > 0;
    }
  }

  lemma {:induction false} LinesNoted(
    raw: Text, origins: seq<int>, limit: nat, maximum: nat, touched: set<nat>, lines: seq<Line>, texts: seq<Text>, m: nat)
    requires Noted(raw, origins) && Lined(raw, limit, maximum, touched, lines, texts) && m <= |texts|
    ensures |texts| == |lines| == |Bodies(raw)| <= |Starts(raw)|
    ensures Noted(Flatten(texts[..m]), Composed(Flatten(Indexes(raw, lines, texts)[..m]), origins))
    decreases m
  {
    hide Noted, LineIndex, Lined, Starts, Flatten, Bodies, Composed;
    LinedCounts(raw, limit, maximum, touched, lines, texts);
    var all := Indexes(raw, lines, texts);
    if m == 0 {
      NothingFlat(texts, all);
      EmptyNoted(origins);
    } else {
      LinesNoted(raw, origins, limit, maximum, touched, lines, texts, m - 1);
      LinedOneNoted(raw, origins, limit, maximum, touched, lines, texts, m - 1);
      FlattenAppend(texts[..m - 1], texts[m - 1]);
      FlattenAppend(all[..m - 1], all[m - 1]);
      assert texts[..m] == texts[..m - 1] + [texts[m - 1]] && all[..m] == all[..m - 1] + [all[m - 1]];
      ComposedConcat(Flatten(all[..m - 1]), all[m - 1], origins);
      NotedConcat(
        Flatten(texts[..m - 1]), Composed(Flatten(all[..m - 1]), origins), texts[m - 1], Composed(all[m - 1], origins));
    }
  }

  lemma EmptyNoted(origins: seq<int>)
    ensures Noted([], Composed([], origins))
  {
  }

  /** In everything recorded of a stream, each byte that is not a copy belongs to a marker. */
  lemma StreamIsNoted(prefix: Text, stream: Stream, limit: nat, maximum: nat, touched: set<nat>, lines: seq<Line>, texts: seq<Text>)
    requires Lined(RawText(prefix, stream), limit, maximum, touched, lines, texts)
    ensures |texts| == |lines| == |Bodies(RawText(prefix, stream))| <= |Starts(RawText(prefix, stream))|
    ensures Noted(Flatten(texts), StreamOrigins(prefix, stream, lines, texts))
  {
    hide Noted, Lined, Starts, Bodies, RawPieces, RawOrigins, Render, Flatten, Composed;
    var raw := RawText(prefix, stream);
    RawIsNoted(prefix, stream, |stream|);
    LinesNoted(raw, RawOrigins(prefix, stream, |stream|), limit, maximum, touched, lines, texts, |texts|);
    var all := Indexes(raw, lines, texts);
    assert texts[..|texts|] == texts && all[..|texts|] == all;
  }

  /** Hence in every recording that a job's streams go through. */
  lemma RecordingIsNoted(patterns: set<Text>, text: Text, prefix: Text, limit: nat, maximum: nat, lines: seq<Line>, texts: seq<Text>)
    requires Recording(patterns, text, prefix, limit, maximum, lines, texts)
    ensures var stream := Mask(patterns, text);
      && |texts| == |lines| == |Bodies(RawText(prefix, stream))| <= |Starts(RawText(prefix, stream))|
      && Noted(Flatten(texts), StreamOrigins(prefix, stream, lines, texts))
  {
    hide Noted, Lined, Starts, Bodies, RawText, StreamOrigins, Masked;
    var stream := Mask(patterns, text);
    var touched: set<nat> :| Lined(RawText(prefix, stream), limit, maximum, touched, lines, texts);
    StreamIsNoted(prefix, stream, limit, maximum, touched, lines, texts);
  }
}
