/** What the two limiters get, said of the stream itself: each raw byte, each masked run of raw lines, each structured line. */
module RoutedLines {
  import opened Bytes
  import opened Masking
  import opened Emission
  import opened LineRouter
  import opened LineCuts
  import opened Capture
  import opened WholeRunes

  /** Where position `i` comes in the raw text, if anything of it does. */
  ghost function RawPlace(prefix: Text, stream: Stream, i: nat): nat
    requires i <= |stream|
  {
    |Render(RawPieces(prefix, stream, i))|
  }

  /** The first position of a masked run that belongs to a raw line. */
  ghost predicate Opens(prefix: Text, stream: Stream, i: nat)
    requires i < |stream|
  {
    && stream[i].masked && !Structured(prefix, stream, i)
    && forall j :: 0 <= j < i && !Structured(prefix, stream, j) ==> exists k :: j <= k < i && !stream[k].masked
  }

  lemma OpensOnce(prefix: Text, stream: Stream, i: nat)
    requires i < |stream|
    ensures Opens(prefix, stream, i) <==> stream[i].masked && !Structured(prefix, stream, i) && !Announced(prefix, stream, i)
  {
    hide Structured;
  }

  /** What comes from some positions stays when more follow. */
  lemma {:induction false} RawStays(prefix: Text, stream: Stream, i: nat, n: nat)
    requires i <= n <= |stream|
    ensures Render(RawPieces(prefix, stream, i)) <= Render(RawPieces(prefix, stream, n))
    decreases n
  {
    hide Structured, Announced, RawPieces, Render;
    if i < n {
      RawStays(prefix, stream, i, n - 1);
      OnePiece(prefix, stream, n - 1);
    }
  }

  /** An unmasked byte of a raw line is there as itself, and the first raw position of a masked run as one whole marker. */
  lemma RawIsPlaced(prefix: Text, stream: Stream, i: nat)
    requires i < |stream| && !Structured(prefix, stream, i) && (!stream[i].masked || Opens(prefix, stream, i))
    ensures var shown := if stream[i].masked then REDACTION_MARKER else [stream[i].value];
      var a, out := RawPlace(prefix, stream, i), RawText(prefix, stream);
      a + |shown| <= |out| && out[a..a + |shown|] == shown
  {
    hide Structured, Announced, RawPieces, Render, Opens;
    OpensOnce(prefix, stream, i);
    OnePiece(prefix, stream, i);
    RawStays(prefix, stream, i + 1, |stream|);
  }

  /** And there is nothing else, in any other place. */
  lemma {:induction false} NothingElseRaw(prefix: Text, stream: Stream, n: nat, k: nat) returns (i: nat)
    requires n <= |stream| && k < RawPlace(prefix, stream, n)
    ensures i < n && !Structured(prefix, stream, i) && (!stream[i].masked || Opens(prefix, stream, i))
    ensures var shown := if stream[i].masked then |REDACTION_MARKER| else 1;
      RawPlace(prefix, stream, i) <= k < RawPlace(prefix, stream, i) + shown <= RawPlace(prefix, stream, n)
  {
    NothingPlaced(prefix, stream);
    hide Structured, Announced, RawPieces, Render, Opens;
    i := n - 1;
    OnePiece(prefix, stream, n - 1);
    OpensOnce(prefix, stream, n - 1);
    if k < RawPlace(prefix, stream, n - 1) {
      i := NothingElseRaw(prefix, stream, n - 1, k);
    }
  }

  lemma NothingPlaced(prefix: Text, stream: Stream)
    ensures RawPlace(prefix, stream, 0) == 0
  {
  }

  /** The line end at `i` ends a structured line. */
  ghost predicate EndsStructured(prefix: Text, stream: Stream, i: nat)
    requires i < |stream|
  {
    stream[i].value == NEWLINE && PrefixAt(prefix, stream, LineStart(stream, i))
  }

  ghost function Ends(prefix: Text, stream: Stream, n: nat): set<nat>
    requires n <= |stream|
  {
    set i: nat | i < n && EndsStructured(prefix, stream, i)
  }

  lemma NoPrefixAcross(prefix: Text, stream: Stream, a: nat, i: nat)
    requires a <= i < |stream| && stream[i].value == NEWLINE && NEWLINE !in prefix && a + |prefix| > i
    ensures !PrefixAt(prefix, stream, a)
  {
    assert prefix[i - a] in prefix;
    assert stream[a + (i - a)].value != prefix[i - a];
  }

  lemma PrefixWithinLine(prefix: Text, stream: Stream, i: nat)
    requires i < |stream| && NEWLINE !in prefix && EndsStructured(prefix, stream, i)
    ensures LineStart(stream, i) + |prefix| <= i
  {
    if LineStart(stream, i) + |prefix| > i {
      NoPrefixAcross(prefix, stream, LineStart(stream, i), i);
    }
  }

  lemma EndsStep(prefix: Text, stream: Stream, i: nat)
    requires i < |stream|
    ensures |Ends(prefix, stream, i + 1)| == |Ends(prefix, stream, i)| + if EndsStructured(prefix, stream, i) then 1 else 0
  {
    hide EndsStructured;
    assert Ends(prefix, stream, i + 1) == Ends(prefix, stream, i) + if EndsStructured(prefix, stream, i) then {i} else {};
  }

  lemma NoEnds(prefix: Text, stream: Stream)
    requires NEWLINE !in prefix
    ensures |Ends(prefix, stream, 0)| == |ClosedLines(prefix, stream, 0)| == 0
  {
    assert Ends(prefix, stream, 0) == {};
  }

  lemma ClosedStep(prefix: Text, stream: Stream, i: nat)
    requires i < |stream| && NEWLINE !in prefix
    ensures var a := LineStart(stream, i);
      EndsStructured(prefix, stream, i) ==> a + |prefix| <= i
    ensures ClosedLines(prefix, stream, i + 1) == ClosedLines(prefix, stream, i) +
      if EndsStructured(prefix, stream, i) then
        var line := stream[LineStart(stream, i)..i + 1];
        [StructuredLine(Values(line), UnsafeLine(prefix, line))]
      else []
  {
    if EndsStructured(prefix, stream, i) {
      PrefixWithinLine(prefix, stream, i);
    }
  }

  /** There are as many closed lines as such line ends. */
  lemma {:induction false} LinesCounted(prefix: Text, stream: Stream, n: nat)
    requires n <= |stream| && NEWLINE !in prefix
    ensures |ClosedLines(prefix, stream, n)| == |Ends(prefix, stream, n)|
  {
    hide EndsStructured, ClosedLines, Ends, UnsafeLine, LineStart;
    if n == 0 {
      NoEnds(prefix, stream);
    } else {
      LinesCounted(prefix, stream, n - 1);
      EndsStep(prefix, stream, n - 1);
      ClosedStep(prefix, stream, n - 1);
    }
  }

  lemma {:induction false} ClosedStays(prefix: Text, stream: Stream, i: nat, n: nat)
    requires i <= n <= |stream| && NEWLINE !in prefix
    ensures ClosedLines(prefix, stream, i) <= ClosedLines(prefix, stream, n)
    decreases n
  {
    hide EndsStructured, ClosedLines;
    if i < n {
      ClosedStays(prefix, stream, i, n - 1);
      ClosedStep(prefix, stream, n - 1);
    }
  }

  /** The line that ends there is the next one after those that ended before, whole and with its verdict. */
  lemma LineIsListed(prefix: Text, stream: Stream, i: nat)
    requires i < |stream| && NEWLINE !in prefix && EndsStructured(prefix, stream, i)
    ensures var a, n := LineStart(stream, i), |Ends(prefix, stream, i)|;
      && a + |prefix| <= i && n < |AllLines(prefix, stream)|
      && AllLines(prefix, stream)[n] == StructuredLine(Values(stream[a..i + 1]), UnsafeLine(prefix, stream[a..i + 1]))
  {
    hide EndsStructured, ClosedLines;
    LinesCounted(prefix, stream, i);
    ClosedStep(prefix, stream, i);
    ClosedStays(prefix, stream, i + 1, |stream|);
  }

  /** After them comes only the line that the stream ends in, if it is structured. */
  lemma NothingElseListed(prefix: Text, stream: Stream)
    requires NEWLINE !in prefix
    ensures |AllLines(prefix, stream)| ==
      |Ends(prefix, stream, |stream|)| + if PrefixAt(prefix, stream, LineStart(stream, |stream|)) then 1 else 0
    ensures var a := LineStart(stream, |stream|);
      PrefixAt(prefix, stream, a) ==>
        && a + |prefix| <= |stream|
        && AllLines(prefix, stream)[|Ends(prefix, stream, |stream|)|] == StructuredLine(Values(stream[a..]), UnsafeLine(prefix, stream[a..]))
  {
    LinesCounted(prefix, stream, |stream|);
  }
}
