/**
 * Routing of matched bytes.  A line that starts with the configured prefix goes to the structured
 * limiter, every other line goes to the raw limiter with its masked runs replaced by markers.
 */
module LineRouter {
  import opened Bytes
  import opened Masking
  import opened JsonStrings

  type Stream = seq<Report>

  function Values(stream: Stream): (values: Text)
    ensures |values| == |stream|
    ensures forall k :: 0 <= k < |stream| ==> values[k] == stream[k].value
  {
    seq(|stream|, k requires 0 <= k < |stream| => stream[k].value)
  }

  /** Where the line begins that position `i` belongs to. */
  function LineStart(stream: Stream, i: nat): (a: nat)
    requires i <= |stream|
    ensures a <= i
    ensures a == 0 || stream[a - 1].value == NEWLINE
    ensures forall k :: a <= k < i ==> stream[k].value != NEWLINE
  {
    if i == 0 || stream[i - 1].value == NEWLINE then i else LineStart(stream, i - 1)
  }

  ghost predicate PrefixAt(prefix: Text, stream: Stream, a: nat) {
    && prefix != []
    && a + |prefix| <= |stream|
    && forall j :: 0 <= j < |prefix| ==> stream[a + j].value == prefix[j]
  }

  /** Position `i` belongs to a line that starts with the prefix. */
  ghost predicate Structured(prefix: Text, stream: Stream, i: nat)
    requires i <= |stream|
  {
    PrefixAt(prefix, stream, LineStart(stream, i))
  }

  /** The masked run that reaches `m` already touched a raw line, so its marker is written. */
  ghost predicate Announced(prefix: Text, stream: Stream, m: nat)
    requires m <= |stream|
  {
    exists j :: 0 <= j < m && !Structured(prefix, stream, j) && forall k :: j <= k < m ==> stream[k].masked
  }

  /** What the raw limiter must get for the first `n` positions. */
  ghost function RawPieces(prefix: Text, stream: Stream, n: nat): seq<Piece>
    requires n <= |stream|
  {
    if n == 0 then []
    else
      var i := n - 1;
      RawPieces(prefix, stream, i) +
      if Structured(prefix, stream, i) then []
      else if !stream[i].masked then [Literal(stream[i].value)]
      else if Announced(prefix, stream, i) then []
      else [Marker]
  }

  datatype StructuredLine = StructuredLine(content: Text, unsafe: bool)

  /** A masked byte in the prefix, or outside the string bodies of what follows it. */
  ghost predicate UnsafeLine(prefix: Text, line: Stream)
    requires |prefix| <= |line|
  {
    (exists k :: 0 <= k < |prefix| && line[k].masked) || UnsafeJson(line[|prefix|..])
  }

  /** The structured lines that end within the first `n` positions, each with its verdict. */
  ghost function ClosedLines(prefix: Text, stream: Stream, n: nat): seq<StructuredLine>
    requires n <= |stream| && NEWLINE !in prefix
  {
    if n == 0 then []
    else
      var i := n - 1;
      var a := LineStart(stream, i);
      ClosedLines(prefix, stream, i) +
      if PrefixAt(prefix, stream, a) && stream[i].value == NEWLINE && a + |prefix| <= n then
        [StructuredLine(Values(stream[a..n]), UnsafeLine(prefix, stream[a..n]))]
      else []
  }

  // ---- More bytes never change what is decided ----

  /** Enough of the line that begins at `a` is there to tell whether it starts with the prefix. */
  ghost predicate Decided(prefix: Text, stream: Stream, a: nat) {
    || prefix == []
    || PrefixAt(prefix, stream, a)
    || exists j :: 0 <= j < |prefix| && a + j < |stream| && stream[a + j].value != prefix[j]
  }

  ghost predicate AllDecided(prefix: Text, stream: Stream, m: nat)
    requires m <= |stream|
  {
    forall i :: 0 <= i < m ==> Decided(prefix, stream, LineStart(stream, i))
  }

  lemma {:induction false} LineStartStable(stream: Stream, r: Report, i: nat)
    requires i <= |stream|
    ensures LineStart(stream + [r], i) == LineStart(stream, i)
  {
    if i > 0 && stream[i - 1].value != NEWLINE {
      LineStartStable(stream, r, i - 1);
    }
  }

  lemma PrefixStable(prefix: Text, stream: Stream, r: Report, a: nat)
    requires Decided(prefix, stream, a)
    ensures PrefixAt(prefix, stream + [r], a) <==> PrefixAt(prefix, stream, a)
    ensures Decided(prefix, stream + [r], a)
  {
    var longer := stream + [r];
    if j :| 0 <= j < |prefix| && a + j < |stream| && stream[a + j].value != prefix[j] {
      assert longer[a + j].value != prefix[j];
    }
  }

  lemma StructuredStable(prefix: Text, stream: Stream, r: Report, m: nat, i: nat)
    requires i < m <= |stream| && AllDecided(prefix, stream, m)
    ensures Structured(prefix, stream + [r], i) <==> Structured(prefix, stream, i)
  {
    LineStartStable(stream, r, i);
    PrefixStable(prefix, stream, r, LineStart(stream, i));
  }

  lemma AllDecidedStable(prefix: Text, stream: Stream, r: Report, m: nat)
    requires m <= |stream| && AllDecided(prefix, stream, m)
    ensures AllDecided(prefix, stream + [r], m)
  {
    hide Decided;
    forall i | 0 <= i < m
      ensures Decided(prefix, stream + [r], LineStart(stream + [r], i))
    {
      LineStartStable(stream, r, i);
      PrefixStable(prefix, stream, r, LineStart(stream, i));
    }
  }

  lemma AnnouncedStable(prefix: Text, stream: Stream, r: Report, m: nat)
    requires m <= |stream| && AllDecided(prefix, stream, m)
    ensures Announced(prefix, stream + [r], m) <==> Announced(prefix, stream, m)
  {
    hide Structured;
    var longer := stream + [r];
    forall j | 0 <= j < m
      ensures Structured(prefix, longer, j) <==> Structured(prefix, stream, j)
    {
      StructuredStable(prefix, stream, r, m, j);
    }
    assert forall k :: 0 <= k < m ==> longer[k] == stream[k];
  }

  lemma {:induction false} OutputStable(prefix: Text, stream: Stream, r: Report, m: nat)
    requires NEWLINE !in prefix
    requires m <= |stream| && AllDecided(prefix, stream, m)
    ensures RawPieces(prefix, stream + [r], m) == RawPieces(prefix, stream, m)
    ensures ClosedLines(prefix, stream + [r], m) == ClosedLines(prefix, stream, m)
  {
    hide Announced;
    hide UnsafeLine;
    hide Decided;
    if m > 0 {
      var i := m - 1;
      OutputStable(prefix, stream, r, i);
      StructuredStable(prefix, stream, r, m, i);
      AnnouncedStable(prefix, stream, r, i);
      LineStartStable(stream, r, i);
      PrefixStable(prefix, stream, r, LineStart(stream, i));
      assert (stream + [r])[LineStart(stream, i)..m] == stream[LineStart(stream, i)..m];
    }
  }

  /** One position further in the raw output. */
  lemma AnnouncedStep(prefix: Text, stream: Stream, m: nat)
    requires m < |stream|
    ensures Announced(prefix, stream, m + 1) <==>
            stream[m].masked && (!Structured(prefix, stream, m) || Announced(prefix, stream, m))
  {
    hide Structured;
  }

  /** Both outputs are exact for the first `m` positions. */
  ghost predicate Exact(
    prefix: Text, stream: Stream, m: nat, raw: seq<Piece>, lines: seq<StructuredLine>, rawMasked: bool)
  {
    && NEWLINE !in prefix
    && m <= |stream|
    && raw == RawPieces(prefix, stream, m)
    && lines == ClosedLines(prefix, stream, m)
    && (rawMasked <==> Announced(prefix, stream, m))
  }

  lemma ExactStable(
    prefix: Text, stream: Stream, r: Report, m: nat, raw: seq<Piece>, lines: seq<StructuredLine>, rawMasked: bool)
    requires Exact(prefix, stream, m, raw, lines, rawMasked) && AllDecided(prefix, stream, m)
    ensures Exact(prefix, stream + [r], m, raw, lines, rawMasked) && AllDecided(prefix, stream + [r], m)
  {
    OutputStable(prefix, stream, r, m);
    AnnouncedStable(prefix, stream, r, m);
    AllDecidedStable(prefix, stream, r, m);
  }

  /** One position of a raw line. */
  lemma RawStep(
    prefix: Text, stream: Stream, m: nat, raw: seq<Piece>, lines: seq<StructuredLine>, rawMasked: bool)
    requires Exact(prefix, stream, m, raw, lines, rawMasked) && m < |stream|
    requires !Structured(prefix, stream, m)
    ensures Exact(prefix, stream, m + 1,
                  raw + if !stream[m].masked then [Literal(stream[m].value)] else if rawMasked then [] else [Marker],
                  lines, stream[m].masked)
  {
    AnnouncedStep(prefix, stream, m);
  }

  /** One position of a structured line: nothing for the raw output; a newline closes the line. */
  lemma StructuredStep(
    prefix: Text, stream: Stream, a: nat, m: nat, raw: seq<Piece>, lines: seq<StructuredLine>, rawMasked: bool)
    requires Exact(prefix, stream, m, raw, lines, rawMasked)
    requires a <= m < |stream| && a == LineStart(stream, m) && PrefixAt(prefix, stream, a)
    ensures stream[m].value == NEWLINE ==> a + |prefix| <= m
    ensures Exact(prefix, stream, m + 1, raw,
                  if stream[m].value == NEWLINE && a + |prefix| <= m then
                    lines + [StructuredLine(Values(stream[a..m + 1]), UnsafeLine(prefix, stream[a..m + 1]))]
                  else lines,
                  stream[m].masked && rawMasked)
  {
    AnnouncedStep(prefix, stream, m);
    if m < a + |prefix| {
      assert stream[a + (m - a)].value == prefix[m - a];
      assert prefix[m - a] in prefix;
    }
  }

  lemma {:induction false} SameLine(stream: Stream, a: nat, i: nat)
    requires a <= i <= |stream| && a == LineStart(stream, a)
    requires forall k :: a <= k < i ==> stream[k].value != NEWLINE
    ensures LineStart(stream, i) == a
  {
    if i > a {
      SameLine(stream, a, i - 1);
    }
  }

  /** A decided line decides every position on it. */
  lemma LineDecided(prefix: Text, stream: Stream, a: nat)
    requires a <= |stream| && a == LineStart(stream, a) && AllDecided(prefix, stream, a) && Decided(prefix, stream, a)
    requires forall k :: a <= k < |stream| - 1 ==> stream[k].value != NEWLINE
    ensures AllDecided(prefix, stream, |stream|)
  {
    hide Decided;
    forall i | a <= i < |stream|
      ensures LineStart(stream, i) == a
    {
      SameLine(stream, a, i);
    }
  }

  /** The structured lines of a whole stream: the closed ones, and an unfinished last one. */
  ghost function AllLines(prefix: Text, stream: Stream): seq<StructuredLine>
    requires NEWLINE !in prefix
  {
    var a := LineStart(stream, |stream|);
    ClosedLines(prefix, stream, |stream|) +
    if PrefixAt(prefix, stream, a) then [StructuredLine(Values(stream[a..]), UnsafeLine(prefix, stream[a..]))] else []
  }

  /** How the open structured line grows by its last byte. */
  lemma OpenLineStep(prefix: Text, stream: Stream, a: nat, m: nat)
    requires a + |prefix| <= m == |stream| - 1
    ensures Values(stream[a..]) == Values(stream[a..m]) + [stream[m].value]
    ensures ScanOf(stream[a + |prefix|..]) == Step(ScanOf(stream[a + |prefix|..m]), stream[m].value)
    ensures UnsafeLine(prefix, stream[a..]) <==>
            || UnsafeLine(prefix, stream[a..m])
            || (stream[m].masked &&
                var scan := ScanOf(stream[a + |prefix|..m]);
                !(scan.inString && (scan.escaped || stream[m].value != QUOTE)))
  {
    var line, rest := stream[a..m], stream[a + |prefix|..m];
    assert stream[a..] == line + [stream[m]];
    assert stream[a + |prefix|..] == rest + [stream[m]];
    assert (rest + [stream[m]])[..|rest|] == rest;
    assert line[|prefix|..] == rest && stream[a..][|prefix|..] == rest + [stream[m]];
    UnsafeJsonStep(rest, stream[m]);
    assert forall k :: 0 <= k < |prefix| ==> stream[a..][k] == line[k];
  }

  lemma NoNewlineInPrefix(
    prefix: Text, stream: Stream, m: nat, raw: seq<Piece>, lines: seq<StructuredLine>, rawMasked: bool)
    requires Exact(prefix, stream, m, raw, lines, rawMasked)
    ensures NEWLINE !in prefix && m <= |stream|
  {
  }

  lemma PrefixDecides(prefix: Text, stream: Stream, a: nat)
    requires PrefixAt(prefix, stream, a)
    ensures Decided(prefix, stream, a)
  {
  }

  lemma EverythingDecided(stream: Stream)
    ensures AllDecided([], stream, |stream|)
  {
  }

  lemma DecidedStep(prefix: Text, stream: Stream, m: nat)
    requires m < |stream| && AllDecided(prefix, stream, m) && Decided(prefix, stream, LineStart(stream, m))
    ensures AllDecided(prefix, stream, m + 1)
  {
  }

  /** A line that is just the prefix: unsafe exactly if the prefix was hit. */
  lemma PrefixOnlyLine(prefix: Text, stream: Stream, a: nat, hits: seq<bool>)
    requires PrefixAt(prefix, stream, a) && a + |prefix| == |stream| && |hits| == |prefix|
    requires forall k :: 0 <= k < |hits| ==> hits[k] == stream[a + k].masked
    ensures UnsafeLine(prefix, stream[a..]) <==> true in hits
    ensures Values(stream[a..]) == prefix && ScanOf(stream[a + |prefix|..]) == OUTSIDE
  {
    var line := stream[a..];
    assert line[|prefix|..] == [];
    assert forall k :: 0 <= k < |hits| ==> line[k].masked == hits[k];
  }
}
