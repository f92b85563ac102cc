/** What the two line limits leave of a text: which byte of it each recorded byte copies. */
module LineCuts {
  import opened Bytes
  import opened LineLimiter
  import opened Utf8

  function Inserted(n: nat): seq<int> {
    seq(n, _ => -1)
  }

  function Range(start: nat, n: nat): seq<int> {
    seq(n, k requires 0 <= k => start + k)
  }

  /** One byte of the text follows another in the output: it is the next one, or the end of a line cut short. */
  predicate Adjacent(raw: Text, u: int, v: int, drops: bool) {
    0 <= u < v < |raw| && (v == u + 1 || (drops && raw[v] == NEWLINE && NEWLINE !in raw[u + 1..v]))
  }

  /** Every byte is inserted (-1) or a copy, and copies follow each other. */
  ghost predicate Sliced(raw: Text, out: Text, index: seq<int>, drops: bool) {
    && |index| == |out|
    && (forall k :: 0 <= k < |out| && index[k] != -1 ==> 0 <= index[k] < |raw| && out[k] == raw[index[k]])
    && (forall k :: 0 < k < |out| && index[k - 1] != -1 && index[k] != -1 ==> Adjacent(raw, index[k - 1], index[k], drops))
  }

  lemma SlicedRange(raw: Text, start: nat, n: nat, drops: bool)
    requires start + n <= |raw|
    ensures Sliced(raw, raw[start..start + n], Range(start, n), drops)
  {
  }

  lemma SlicedPrefix(raw: Text, out: Text, index: seq<int>, n: nat, drops: bool)
    requires Sliced(raw, out, index, drops) && n <= |out|
    ensures Sliced(raw, out[..n], index[..n], drops)
  {
    hide Adjacent;
  }

  lemma SlicedNote(raw: Text, out: Text, index: seq<int>, note: Text, drops: bool)
    requires Sliced(raw, out, index, drops)
    ensures Sliced(raw, out + note, index + Inserted(|note|), drops)
  {
    hide Adjacent;
  }

  lemma SlicedByte(raw: Text, out: Text, index: seq<int>, v: nat, drops: bool)
    requires Sliced(raw, out, index, drops) && v < |raw|
    requires out != [] && index[|out| - 1] != -1 ==> Adjacent(raw, index[|out| - 1], v, drops)
    ensures Sliced(raw, out + [raw[v]], index + [v], drops)
  {
    hide Adjacent;
  }

  lemma SlicedLength(raw: Text, out: Text, index: seq<int>, drops: bool)
    requires Sliced(raw, out, index, drops)
    ensures |index| == |out|
  {
  }

  // ---- Lines and where they are ----

  /** Where each line begins, the unfinished one included. */
  function Starts(text: Text): seq<nat> {
    if text == [] then [0]
    else
      var before := Starts(text[..|text| - 1]);
      if text[|text| - 1] == NEWLINE then before + [|text|] else before
  }

  /** The line is at this place of the text. */
  predicate LineAt(text: Text, start: nat, body: Text, newline: bool) {
    && start + |body| + (if newline then 1 else 0) <= |text|
    && text[start..start + |body|] == body && NEWLINE !in body
    && (newline ==> text[start + |body|] == NEWLINE)
  }

  lemma LineAtStays(text: Text, value: byte, start: nat, body: Text, newline: bool)
    requires LineAt(text, start, body, newline)
    ensures LineAt(text + [value], start, body, newline)
  {
    assert (text + [value])[start..start + |body|] == text[start..start + |body|];
  }

  /** These lines are one after the other in the text, from these places on. */
  predicate Placed(text: Text, s: Split, t: seq<nat>) {
    && |t| == |s.closed| + 1 && t[0] == 0
    && (forall n :: 0 <= n < |s.closed| ==> LineAt(text, t[n], s.closed[n], true) && t[n + 1] == t[n] + |s.closed[n]| + 1)
    && LineAt(text, t[|s.closed|], s.last, false) && t[|s.closed|] + |s.last| == |text|
  }

  lemma PlacedNewline(text: Text, s: Split, t: seq<nat>)
    requires Placed(text, s, t)
    ensures Placed(text + [NEWLINE], Split(s.closed + [s.last], []), t + [|text| + 1])
  {
    hide LineAt;
    var longer := text + [NEWLINE];
    forall n | 0 <= n < |s.closed|
      ensures LineAt(longer, t[n], s.closed[n], true)
    {
      LineAtStays(text, NEWLINE, t[n], s.closed[n], true);
    }
    LineAtEnd(text, t[|s.closed|], s.last);
  }

  lemma LineAtEnd(text: Text, start: nat, body: Text)
    requires LineAt(text, start, body, false) && start + |body| == |text|
    ensures LineAt(text + [NEWLINE], start, body, true) && LineAt(text + [NEWLINE], |text| + 1, [], false)
  {
    assert (text + [NEWLINE])[start..start + |body|] == text[start..start + |body|];
  }

  lemma PlacedByte(text: Text, s: Split, t: seq<nat>, value: byte)
    requires Placed(text, s, t) && value != NEWLINE
    ensures Placed(text + [value], s.(last := s.last + [value]), t)
  {
    hide LineAt;
    forall n | 0 <= n < |s.closed|
      ensures LineAt(text + [value], t[n], s.closed[n], true)
    {
      LineAtStays(text, value, t[n], s.closed[n], true);
    }
    LineAtLonger(text, t[|s.closed|], s.last, value);
  }

  lemma LineAtLonger(text: Text, start: nat, body: Text, value: byte)
    requires LineAt(text, start, body, false) && start + |body| == |text| && value != NEWLINE
    ensures LineAt(text + [value], start, body + [value], false)
  {
    assert (text + [value])[start..start + |body| + 1] == text[start..start + |body|] + [value];
  }

  /** The lines of a text are one after the other in it. */
  lemma {:induction false} LinesAt(text: Text)
    ensures Placed(text, Lines(text), Starts(text))
  {
    if text != [] {
      hide Placed, Lines, Starts;
      var n := |text| - 1;
      var rest, value := text[..n], text[n];
      LinesAt(rest);
      assert text == rest + [value];
      LinesAppend(rest, value);
      StartsAppend(rest, value);
      if value == NEWLINE {
        PlacedNewline(rest, Lines(rest), Starts(rest));
      } else {
        PlacedByte(rest, Lines(rest), Starts(rest), value);
      }
    }
  }

  lemma StartsAppend(text: Text, value: byte)
    ensures Starts(text + [value]) == if value == NEWLINE then Starts(text) + [|text| + 1] else Starts(text)
  {
    assert (text + [value])[..|text|] == text;
  }

  /** The bodies of all lines, the unfinished one included. */
  function Bodies(text: Text): seq<Text> {
    Lines(text).closed + if Lines(text).last == [] then [] else [Lines(text).last]
  }

  /** Some line is not valid text, so that its end may be left out without a marker. */
  ghost predicate Malformed(text: Text) {
    exists n :: 0 <= n < |Bodies(text)| && !ValidUtf8(Bodies(text)[n])
  }

  // ---- One line ----

  /** The length of a line without its line end. */
  function ContentLength(line: Text): nat {
    var n := if line != [] && line[|line| - 1] == NEWLINE then |line| - 1 else |line|;
    if n > 0 && line[n - 1] == CARRIAGE_RETURN then n - 1 else n
  }

  predicate EndsLine(line: Text) {
    line != [] && line[|line| - 1] == NEWLINE
  }

  /** The line as it is recorded: whole, or valid text within the limit and as much of it as possible, marked as cut. */
  ghost predicate Recorded(line: Text, out: Text, maximum: nat) {
    if ContentLength(line) <= maximum then out == line
    else exists shown: Text :: ShownOf(shown, line[..maximum], maximum) && out == shown + Ending(true, EndsLine(line))
  }

  method RecordLine(line: Text, maximum: nat) returns (out: Text)
    requires ValidUtf8(line)
    ensures Recorded(line, out, maximum) && ValidUtf8(out)
  {
    hide ValidUtf8;
    if ContentLength(line) <= maximum {
      return line;
    }
    var shown := TrimToValid(line[..maximum]);
    assert line[..maximum][..Min(|line[..maximum]|, maximum)] == line[..maximum];
    assert ShownOf(shown, line[..maximum], maximum);
    out := shown + LINE_TRUNCATION_MARKER;
    if EndsLine(line) {
      out := out + [NEWLINE];
    }
    assert out == shown + Ending(true, EndsLine(line));
    EndingIsValid(true, EndsLine(line));
    ValidConcat(shown, Ending(true, EndsLine(line)));
  }

  /** A beginning, an inserted note, and the line end that was there. */
  function CutIndex(index: seq<int>, shown: int, note: nat, newline: bool): seq<int> {
    (if 0 <= shown <= |index| then index[..shown] else []) + Inserted(note)
    + if newline && index != [] then [index[|index| - 1]] else []
  }

  function NoteLength(truncated: bool): nat {
    if truncated then |LINE_TRUNCATION_MARKER| else 0
  }

  /** Where the bytes of a recorded line come from; the line is at `start` with this many bytes. */
  function LineIndex(out: Text, line: Line, start: nat, length: nat): seq<int> {
    var whole := Range(start, length + if line.partial then 0 else 1);
    var limited := CutIndex(
      whole, |line.text| - |Ending(line.truncated, !line.partial)|, NoteLength(line.truncated), !line.partial);
    if out == line.text then limited
    else CutIndex(limited, |out| - |Ending(true, EndsLine(line.text))|, NoteLength(true), EndsLine(line.text))
  }

  /** Nothing but the rest of the line, from its beginning on, is left out before the first byte. */
  predicate Begins(raw: Text, index: seq<int>, start: nat, drops: bool) {
    index == [] || index[0] == -1 || index[0] == start
    || (drops && start < index[0] < |raw| && raw[index[0]] == NEWLINE && NEWLINE !in raw[start..index[0]])
  }

  lemma EndFollows(raw: Text, start: nat, body: Text, shown: nat, drops: bool)
    requires LineAt(raw, start, body, true) && 0 < shown <= |body| && (drops || shown == |body|)
    ensures Adjacent(raw, start + shown - 1, start + |body|, drops)
  {
    assert raw[start + shown..start + |body|] == body[shown..];
  }

  lemma FirstOfLine(raw: Text, start: nat, body: Text, newline: bool, shown: nat, note: nat, drops: bool)
    requires LineAt(raw, start, body, newline) && shown <= |body| && (shown == |body| || note > 0 || drops)
    ensures Begins(raw, Range(start, shown) + Inserted(note) + if newline then [start + |body|] else [], start, drops)
  {
    if shown == 0 && note == 0 && newline {
      assert raw[start..start + |body|] == body;
    }
  }

  /** A part of the text's line at `start`, up to the line end at `end` if there is one. */
  ghost predicate LineSlice(raw: Text, out: Text, index: seq<int>, start: nat, end: int, drops: bool) {
    && Sliced(raw, out, index, drops) && Begins(raw, index, start, drops)
    && (end >= 0 ==> index != [] && index[|index| - 1] == end)
  }

  lemma WithNote(raw: Text, shown: Text, note: Text, index: seq<int>, drops: bool)
    requires Sliced(raw, shown, index, drops)
    ensures Sliced(raw, shown + note, index + Inserted(|note|), drops)
    ensures note != [] ==> (index + Inserted(|note|))[|shown + note| - 1] == -1
  {
    SlicedNote(raw, shown, index, note, drops);
  }

  /** The first limit. */
  lemma LimitedIsSliced(raw: Text, start: nat, body: Text, newline: bool, shown: Text, truncated: bool, drops: bool)
    requires LineAt(raw, start, body, newline) && shown <= body && (shown == body || truncated || drops)
    ensures LineSlice(
      raw, shown + Ending(truncated, newline),
      CutIndex(Range(start, |body| + if newline then 1 else 0), |shown|, NoteLength(truncated), newline),
      start, if newline then start + |body| else -1, drops)
  {
    hide Sliced, Adjacent, Begins;
    var note := if truncated then LINE_TRUNCATION_MARKER else [];
    var index := Range(start, |shown|);
    assert Range(start, |body| + if newline then 1 else 0)[..|shown|] == index;
    SlicedRange(raw, start, |shown|, drops);
    assert raw[start..start + |shown|] == shown by {
      assert raw[start..start + |body|][..|shown|] == shown;
    }
    SlicedNote(raw, shown, index, note, drops);
    FirstOfLine(raw, start, body, newline, |shown|, |note|, drops);
    assert shown + Ending(truncated, newline) == (shown + note) + if newline then [NEWLINE] else [];
    var all := index + Inserted(|note|);
    if newline {
      if !truncated && shown != [] {
        EndFollows(raw, start, body, |shown|, drops);
      }
      SlicedByte(raw, shown + note, all, start + |body|, drops);
    } else {
      assert all + [] == all && (shown + note) + [] == shown + note;
    }
  }

  lemma BeginsShorter(raw: Text, index: seq<int>, start: nat, drops: bool, n: nat, rest: seq<int>)
    requires Begins(raw, index, start, drops) && n <= |index| && rest != [] && rest[0] == -1
    ensures Begins(raw, index[..n] + rest, start, drops)
  {
  }

  /** The second limit: a beginning, the marker, and the line end. */
  lemma ShortenedIsSliced(raw: Text, text: Text, index: seq<int>, start: nat, end: int, shown: Text, drops: bool)
    requires LineSlice(raw, text, index, start, end, drops) && shown <= text
    requires EndsLine(text) <==> end >= 0
    ensures LineSlice(
      raw, shown + Ending(true, EndsLine(text)), CutIndex(index, |shown|, NoteLength(true), EndsLine(text)), start, end, drops)
  {
    hide Adjacent, Begins;
    var note, newline := LINE_TRUNCATION_MARKER, EndsLine(text);
    SlicedLength(raw, text, index, drops);
    SlicedPrefix(raw, text, index, |shown|, drops);
    assert text[..|shown|] == shown;
    LineEndCopied(raw, text, index, drops, end);
    hide Sliced;
    var part := index[..|shown|];
    WithNote(raw, shown, note, part, drops);
    var all := part + Inserted(|note|);
    assert shown + Ending(true, newline) == (shown + note) + if newline then [NEWLINE] else [];
    BeginsShorter(raw, index, start, drops, |shown|, Inserted(|note|) + if newline then [end] else []);
    assert part + (Inserted(|note|) + if newline then [end] else []) == all + if newline then [end] else [];
    if newline {
      SlicedByte(raw, shown + note, all, end, drops);
    } else {
      assert all + [] == all && (shown + note) + [] == shown + note;
    }
  }

  lemma LineEndCopied(raw: Text, text: Text, index: seq<int>, drops: bool, end: int)
    requires Sliced(raw, text, index, drops) && (EndsLine(text) <==> end >= 0)
    requires end >= 0 ==> index != [] && index[|index| - 1] == end
    ensures end >= 0 ==> end < |raw| && raw[end] == NEWLINE
  {
    hide Adjacent;
  }

  lemma LineIsSliced(
    raw: Text, start: nat, body: Text, newline: bool, line: Line, out: Text, redacted: bool, limit: nat, maximum: nat, drops: bool)
    requires LineAt(raw, start, body, newline) && (drops || ValidUtf8(body))
    requires Rendered(line, body, newline, redacted, limit) && Recorded(line.text, out, maximum)
    ensures LineSlice(raw, out, LineIndex(out, line, start, |body|), start, if newline then start + |body| else -1, drops)
  {
    hide LineSlice, ValidUtf8, CutIndex, LineAt;
    var shown: Text :| ShownOf(shown, body, limit) && line.text == shown + Ending(line.truncated, newline);
    if !line.truncated && !drops {
      WholeIsShown(shown, body, limit);
    }
    LimitedIsSliced(raw, start, body, newline, shown, line.truncated, drops);
    if out != line.text {
      var limited := CutIndex(Range(start, |body| + if newline then 1 else 0), |shown|, NoteLength(line.truncated), newline);
      var part: Text :| ShownOf(part, line.text[..maximum], maximum) && out == part + Ending(true, EndsLine(line.text));
      OnlyLineEnd(raw, start, body, newline, shown, line.truncated);
      ShortenedIsSliced(raw, line.text, limited, start, if newline then start + |body| else -1, part, drops);
    }
  }

  lemma OnlyLineEnd(raw: Text, start: nat, body: Text, newline: bool, shown: Text, truncated: bool)
    requires LineAt(raw, start, body, newline) && shown <= body
    ensures EndsLine(shown + Ending(truncated, newline)) <==> newline
  {
    if shown != [] {
      assert shown[|shown| - 1] in body;
    }
  }

  lemma WholeIsShown(shown: Text, body: Text, maximum: nat)
    requires ShownOf(shown, body, maximum) && |body| <= maximum && ValidUtf8(body)
    ensures shown == body
  {
    hide ValidUtf8;
    assert body[..|body|] == body;
  }

  // ---- All lines ----

  /** The lines of a text as the limiter hands them on, and as they are recorded. */
  ghost predicate Lined(raw: Text, limit: nat, maximum: nat, touched: set<nat>, lines: seq<Line>, texts: seq<Text>) {
    var split := Lines(raw);
    && |lines| == |texts| == |split.closed| + (if split.last != [] then 1 else 0)
    && (forall n :: 0 <= n < |split.closed| ==> Rendered(lines[n], split.closed[n], true, n in touched, limit))
    && (split.last != [] ==> Rendered(lines[|split.closed|], split.last, false, |split.closed| in touched, limit))
    && (forall n :: 0 <= n < |lines| ==> Recorded(lines[n].text, texts[n], maximum))
  }

  /** Where the bytes of each recorded line come from. */
  function Indexes(raw: Text, lines: seq<Line>, texts: seq<Text>): seq<seq<int>>
    requires |texts| == |lines| == |Bodies(raw)| <= |Starts(raw)|
  {
    seq(|texts|, n requires 0 <= n < |texts| => LineIndex(texts[n], lines[n], Starts(raw)[n], |Bodies(raw)[n]|))
  }

  /** Where the line ends, or -1 if it does not. */
  function LineEnd(raw: Text, n: nat): int {
    if n < |Lines(raw).closed| && n + 1 < |Starts(raw)| then (Starts(raw)[n + 1] as int) - 1 else -1
  }

  lemma LineCounts(raw: Text)
    ensures |Bodies(raw)| <= |Starts(raw)| == |Lines(raw).closed| + 1
  {
    LinesAt(raw);
  }

  lemma LinedOne(raw: Text, limit: nat, maximum: nat, touched: set<nat>, lines: seq<Line>, texts: seq<Text>, n: nat)
    requires Lined(raw, limit, maximum, touched, lines, texts) && n < |texts|
    ensures |texts| == |lines| == |Bodies(raw)| <= |Starts(raw)| == |Lines(raw).closed| + 1
    ensures LineSlice(
      raw, texts[n], Indexes(raw, lines, texts)[n], Starts(raw)[n], LineEnd(raw, n), Malformed(raw))
  {
    hide LineSlice, LineIndex, Rendered, Recorded, Lines, Starts, LineAt, ValidUtf8;
    LinesAt(raw);
    var newline := n < |Lines(raw).closed|;
    assert Malformed(raw) || ValidUtf8(Bodies(raw)[n]);
    LineIsSliced(raw, Starts(raw)[n], Bodies(raw)[n], newline, lines[n], texts[n], n in touched, limit, maximum, Malformed(raw));
  }

  lemma JoinLine(raw: Text, out: Text, index: seq<int>, start: nat, text: Text, more: seq<int>, end: int, drops: bool)
    requires Sliced(raw, out, index, drops) && LineSlice(raw, text, more, start, end, drops)
    requires out != [] ==> index[|index| - 1] + 1 == start
    ensures Sliced(raw, out + text, index + more, drops)
    ensures end >= 0 ==> out + text != [] && (index + more)[|index + more| - 1] == end
  {
    if out != [] && text != [] && more[0] != -1 && start > 0 {
      assert Adjacent(raw, start - 1, more[0], drops);
    }
    hide Adjacent;
  }

  lemma {:induction false} LinesJoin(raw: Text, limit: nat, maximum: nat, touched: set<nat>, lines: seq<Line>, texts: seq<Text>, m: nat)
    requires Lined(raw, limit, maximum, touched, lines, texts) && m <= |texts|
    ensures |texts| == |lines| == |Bodies(raw)| <= |Starts(raw)| == |Lines(raw).closed| + 1
    ensures var out, index := Flatten(texts[..m]), Flatten(Indexes(raw, lines, texts)[..m]);
      && Sliced(raw, out, index, Malformed(raw))
      && |index| == |out| && (m <= |Lines(raw).closed| && out != [] ==> index[|index| - 1] + 1 == Starts(raw)[m])
    decreases m
  {
    hide Sliced, LineSlice, LineIndex, Lined, Lines, Starts, Malformed, Flatten, Bodies;
    LinedCounts(raw, limit, maximum, touched, lines, texts);
    if m == 0 {
      NothingSliced(raw, Malformed(raw));
      NothingFlat(texts, Indexes(raw, lines, texts));
    } else {
      LinesJoin(raw, limit, maximum, touched, lines, texts, m - 1);
      LinedOne(raw, limit, maximum, touched, lines, texts, m - 1);
      var all := Indexes(raw, lines, texts);
      FlattenAppend(texts[..m - 1], texts[m - 1]);
      FlattenAppend(all[..m - 1], all[m - 1]);
      assert texts[..m] == texts[..m - 1] + [texts[m - 1]] && all[..m] == all[..m - 1] + [all[m - 1]];
      JoinLine(
        raw, Flatten(texts[..m - 1]), Flatten(all[..m - 1]), Starts(raw)[m - 1], texts[m - 1], all[m - 1],
        LineEnd(raw, m - 1), Malformed(raw));
      if m <= |Lines(raw).closed| {
        PositiveStart(raw, m);
      }
      SlicedLength(raw, Flatten(texts[..m]), Flatten(all[..m]), Malformed(raw));
    }
  }

  lemma PositiveStart(raw: Text, m: nat)
    requires 0 < m <= |Lines(raw).closed| && m < |Starts(raw)|
    ensures Starts(raw)[m] > 0
  {
    LinesAt(raw);
    assert m - 1 + 1 == m;
    assert LineAt(raw, Starts(raw)[m - 1], Lines(raw).closed[m - 1], true) && Starts(raw)[m - 1 + 1] > 0;
  }

  lemma LinedCounts(raw: Text, limit: nat, maximum: nat, touched: set<nat>, lines: seq<Line>, texts: seq<Text>)
    requires Lined(raw, limit, maximum, touched, lines, texts)
    ensures |texts| == |lines| == |Bodies(raw)| <= |Starts(raw)| == |Lines(raw).closed| + 1
  {
    LineCounts(raw);
  }

  lemma NothingFlat(texts: seq<Text>, indexes: seq<seq<int>>)
    ensures Flatten(texts[..0]) == [] && Flatten(indexes[..0]) == []
  {
  }

  lemma NothingSliced(raw: Text, drops: bool)
    ensures Sliced(raw, [], [], drops)
  {
  }

  /** Everything recorded of a text, line after line. */
  lemma LinesAreSliced(raw: Text, limit: nat, maximum: nat, touched: set<nat>, lines: seq<Line>, texts: seq<Text>)
    requires Lined(raw, limit, maximum, touched, lines, texts)
    ensures |texts| == |lines| == |Bodies(raw)| <= |Starts(raw)|
    ensures Sliced(raw, Flatten(texts), Flatten(Indexes(raw, lines, texts)), Malformed(raw))
  {
    hide Sliced, LineIndex, Lined, Lines, Starts, Malformed;
    LinesJoin(raw, limit, maximum, touched, lines, texts, |texts|);
    assert texts[..|texts|] == texts;
    var all := Indexes(raw, lines, texts);
    assert all[..|texts|] == all;
  }
}
