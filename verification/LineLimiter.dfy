/** Cuts a stream into lines of bounded length that are valid UTF-8. */
module LineLimiter {
  import opened Bytes
  import opened Utf8

  // "[... line truncated ...]"
  const LINE_TRUNCATION_MARKER: Text :=
    [0x5B, 0x2E, 0x2E, 0x2E, 0x20, 0x6C, 0x69, 0x6E, 0x65, 0x20, 0x74, 0x72, 0x75, 0x6E, 0x63, 0x61, 0x74, 0x65, 0x64,
     0x20, 0x2E, 0x2E, 0x2E, 0x5D]

  /** A line as it is handed on. */
  datatype Line = Line(text: Text, truncated: bool, partial: bool, redacted: bool)

  /** The complete lines of a text, without their newlines, and what follows the last newline. */
  datatype Split = Split(closed: seq<Text>, last: Text)

  function Lines(text: Text): Split {
    if text == [] then Split([], [])
    else
      var before := Lines(text[..|text| - 1]);
      var value := text[|text| - 1];
      if value == NEWLINE then Split(before.closed + [before.last], []) else before.(last := before.last + [value])
  }

  /** The lines of a text put together again are the text. */
  function Joined(lines: seq<Text>): Text {
    if lines == [] then [] else Joined(lines[..|lines| - 1]) + lines[|lines| - 1] + [NEWLINE]
  }

  lemma {:induction false} LinesRejoin(text: Text)
    ensures Joined(Lines(text).closed) + Lines(text).last == text
    ensures NEWLINE !in Lines(text).last && forall l :: l in Lines(text).closed ==> NEWLINE !in l
  {
    if text != [] {
      var before := Lines(text[..|text| - 1]);
      LinesRejoin(text[..|text| - 1]);
      assert (before.closed + [before.last])[..|before.closed|] == before.closed;
    }
  }

  lemma LinesAppend(text: Text, value: byte)
    ensures Lines(text + [value]) ==
      if value == NEWLINE then Split(Lines(text).closed + [Lines(text).last], [])
      else Lines(text).(last := Lines(text).last + [value])
  {
    assert (text + [value])[..|text|] == text;
  }

  /** What is shown of a line: valid text within the limit, and as much of it as possible. */
  ghost predicate ShownOf(shown: Text, body: Text, maximum: nat) {
    var cut := body[..Min(|body|, maximum)];
    shown <= cut && ValidUtf8(shown) && forall n :: 0 <= n <= |cut| && ValidUtf8(cut[..n]) ==> n <= |shown|
  }

  /** The line is handed on as it should be. */
  ghost predicate Rendered(l: Line, body: Text, newline: bool, redacted: bool, maximum: nat) {
    && l.truncated == (|body| > maximum) && l.partial == !newline && l.redacted == redacted
    && exists shown: Text :: ShownOf(shown, body, maximum) && l.text == shown + Ending(l.truncated, newline)
  }

  /** What follows the shown part of a line. */
  function Ending(truncated: bool, newline: bool): Text {
    (if truncated then LINE_TRUNCATION_MARKER else []) + (if newline then [NEWLINE] else [])
  }

  lemma EndingIsValid(truncated: bool, newline: bool)
    ensures ValidUtf8(Ending(truncated, newline)) && |Ending(truncated, newline)| <= |LINE_TRUNCATION_MARKER| + 1
  {
    hide ValidUtf8;
    AsciiIsValid(Ending(truncated, newline));
  }

  /** Every line handed on is valid and bounded, and a valid line within the limit is handed on unchanged. */
  lemma RenderedIsSafe(l: Line, body: Text, newline: bool, redacted: bool, maximum: nat)
    requires Rendered(l, body, newline, redacted, maximum)
    ensures ValidUtf8(l.text) && |l.text| <= maximum + |LINE_TRUNCATION_MARKER| + 1
    ensures ValidUtf8(body) && |body| <= maximum ==> l.text == body + Ending(false, newline)
  {
    hide ValidUtf8, Ending;
    var shown: Text :| ShownOf(shown, body, maximum) && l.text == shown + Ending(l.truncated, newline);
    EndingIsValid(l.truncated, newline);
    ValidConcat(shown, Ending(l.truncated, newline));
    if ValidUtf8(body) && |body| <= maximum {
      assert body[..|body|] == body;
      assert shown == body;
    }
  }

  class LineLimiter {
    const maximum: nat
    var line: Text
    var discarding: bool
    var redacted: bool
    var emitted: seq<Line>

    /** Everything written so far, and the numbers of the lines that a redacted write touched. */
    ghost var text: Text
    ghost var touched: set<nat>

    ghost predicate Valid()
      reads this
    {
      var split := Lines(text);
      && line == split.last[..Min(|split.last|, maximum)]
      && discarding == (|split.last| > maximum)
      && redacted == (|split.closed| in touched)
      && (forall n :: n in touched ==> n <= |split.closed|)
      && |emitted| == |split.closed|
      && forall n :: 0 <= n < |emitted| ==> Rendered(emitted[n], split.closed[n], true, n in touched, maximum)
    }

    constructor (maximum: nat)
      ensures Valid() && this.maximum == maximum && text == [] && touched == {} && emitted == []
    {
      this.maximum, line, discarding, redacted, emitted := maximum, [], false, false, [];
      text, touched := [], {};
    }

    /** Hands the current line on and starts a new one. */
    method Flush(newline: bool, ghost body: Text)
      requires line == body[..Min(|body|, maximum)] && discarding == (|body| > maximum)
      modifies this`line, this`discarding, this`redacted, this`emitted
      ensures |emitted| == |old(emitted)| + 1 && emitted[..|old(emitted)|] == old(emitted)
      ensures Rendered(emitted[|old(emitted)|], body, newline, old(redacted), maximum)
      ensures line == [] && !discarding && !redacted
    {
      var shown := TrimToValid(line);
      assert ShownOf(shown, body, maximum);
      var output := shown;
      if discarding {
        output := output + LINE_TRUNCATION_MARKER;
      }
      if newline {
        output := output + [NEWLINE];
      }
      assert output == shown + Ending(discarding, newline);
      emitted := emitted + [Line(output, discarding, !newline, redacted)];
      line, discarding, redacted := [], false, false;
    }

    method WriteByte(value: byte)
      requires Valid()
      modifies this`line, this`discarding, this`redacted, this`emitted, this`text
      ensures Valid() && text == old(text) + [value]
    {
      hide Lines, Rendered;
      LinesAppend(text, value);
      ghost var split := Lines(text);
      text := text + [value];
      if value == NEWLINE {
        Flush(true, split.last);
      } else if discarding {
      } else if |line| >= maximum {
        discarding := true;
      } else {
        line := line + [value];
      }
    }

    /** A redacted write marks the line it begins in. */
    method Write(content: Text, redacts: bool)
      requires Valid()
      modifies this
      ensures Valid() && text == old(text) + content
      ensures touched == if redacts then old(touched) + {|Lines(old(text)).closed|} else old(touched)
    {
      hide Lines, Rendered;
      if redacts {
        redacted, touched := true, touched + {|Lines(text).closed|};
      }
      ghost var marked := touched;
      for i := 0 to |content|
        invariant Valid() && text == old(text) + content[..i] && touched == marked
      {
        assert content[..i + 1] == content[..i] + [content[i]];
        WriteByte(content[i]);
      }
      assert content[..|content|] == content;
    }

    /** The end of the stream: what follows the last newline is handed on as a partial line. */
    method Finish()
      requires Valid()
      modifies this`line, this`discarding, this`redacted, this`emitted
      ensures var split := Lines(text);
        && (split.last == [] ==> emitted == old(emitted))
        && (split.last != [] ==> |emitted| == |split.closed| + 1 && emitted[..|split.closed|] == old(emitted))
        && (split.last != [] ==> Rendered(emitted[|split.closed|], split.last, false, |split.closed| in touched, maximum))
    {
      hide Lines, Rendered;
      if |line| > 0 || discarding {
        Flush(false, Lines(text).last);
      }
    }
  }

  /** The contents of the writes. */
  function Contents(writes: seq<(Text, bool)>): Text {
    if writes == [] then [] else Contents(writes[..|writes| - 1]) + writes[|writes| - 1].0
  }

  /** The numbers of the lines that a redacted write begins in. */
  function Touched(writes: seq<(Text, bool)>): set<nat> {
    if writes == [] then {}
    else
      var before := writes[..|writes| - 1];
      Touched(before) + if writes[|writes| - 1].1 then {|Lines(Contents(before)).closed|} else {}
  }

  ghost function NewlinesIn(text: Text): set<nat> {
    set i: nat | i < |text| && text[i] == NEWLINE
  }

  /** There are as many closed lines as newlines. */
  lemma {:induction false} ClosedCounted(text: Text)
    ensures |Lines(text).closed| == |NewlinesIn(text)|
  {
    if text == [] {
      assert NewlinesIn(text) == {};
    } else {
      var n := |text| - 1;
      ClosedCounted(text[..n]);
      assert NewlinesIn(text) == NewlinesIn(text[..n]) + if text[n] == NEWLINE then {n} else {};
    }
  }

  /** A redacted write begins after this many newlines. */
  ghost predicate RedactedWrite(writes: seq<(Text, bool)>, k: nat, n: nat)
    requires k < |writes|
  {
    writes[k].1 && |NewlinesIn(Contents(writes[..k]))| == n
  }

  /** A line is marked as redacted exactly if a redacted write begins in it. */
  lemma {:induction false} TouchedExactly(writes: seq<(Text, bool)>, n: nat)
    ensures n in Touched(writes) <==> exists k: nat :: k < |writes| && RedactedWrite(writes, k, n)
  {
    if writes != [] {
      hide NewlinesIn, Lines;
      var m := |writes| - 1;
      TouchedExactly(writes[..m], n);
      ClosedCounted(Contents(writes[..m]));
      forall k: nat | k < m
        ensures RedactedWrite(writes, k, n) <==> RedactedWrite(writes[..m], k, n)
      {
        assert writes[..m][..k] == writes[..k];
      }
      if k: nat :| k < m && RedactedWrite(writes[..m], k, n) {
        assert RedactedWrite(writes, k, n);
      }
      assert RedactedWrite(writes, m, n) <==> writes[m].1 && |Lines(Contents(writes[..m])).closed| == n;
    }
  }

  /** For every way of writing a stream, one line is handed on for each line of it, in order. */
  method LimitLines(writes: seq<(Text, bool)>, maximum: nat) returns (lines: seq<Line>)
    ensures var split := Lines(Contents(writes));
      && |lines| == |split.closed| + (if split.last != [] then 1 else 0)
      && (forall n :: 0 <= n < |split.closed| ==> Rendered(lines[n], split.closed[n], true, n in Touched(writes), maximum))
      && (split.last != [] ==> Rendered(lines[|split.closed|], split.last, false, |split.closed| in Touched(writes), maximum))
  {
    hide Lines, Rendered;
    var limiter := new LineLimiter(maximum);
    for i := 0 to |writes|
      invariant limiter.Valid() && fresh(limiter) && limiter.maximum == maximum
      invariant limiter.text == Contents(writes[..i]) && limiter.touched == Touched(writes[..i])
    {
      assert writes[..i + 1][..i] == writes[..i];
      limiter.Write(writes[i].0, writes[i].1);
    }
    assert writes[..|writes|] == writes;
    limiter.Finish();
    lines := limiter.emitted;
  }
}
