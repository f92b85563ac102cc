/**
 * Emit mode end to end: what a caller of the redactor gets, and why no pattern survives in it.
 */
module Emission {
  import opened Bytes
  import opened Suffixes
  import opened Masking
  import opened SecretPatterns
  import opened SecretRedactor

  /** The bytes of `[REDACTED]`. */
  const REDACTION_MARKER: Text := [91, 82, 69, 68, 65, 67, 84, 69, 68, 93]

  function Render(pieces: seq<Piece>): Text {
    if pieces == [] then []
    else
      var n := |pieces| - 1;
      Render(pieces[..n]) + match pieces[n] { case Literal(value) => [value] case Marker => REDACTION_MARKER }
  }

  /** Where each rendered byte comes from: a position of the text, or -1 inside a marker. */
  function Origins(reports: seq<Report>): seq<int> {
    if reports == [] then []
    else
      var n := |reports| - 1;
      Origins(reports[..n]) +
      if !reports[n].masked then [n]
      else if n > 0 && reports[n - 1].masked then []
      else seq(|REDACTION_MARKER|, _ => -1)
  }

  /** Outside markers the rendered bytes are runs of consecutive unmasked bytes of the text. */
  ghost predicate Traced(reports: seq<Report>, rendered: Text, origins: seq<int>) {
    && |origins| == |rendered|
    && (forall k :: 0 <= k < |origins| && origins[k] != -1 ==>
         && 0 <= origins[k] < |reports|
         && !reports[origins[k]].masked
         && rendered[k] == reports[origins[k]].value)
    && (forall k :: 0 < k < |origins| && origins[k - 1] != -1 && origins[k] != -1 ==> origins[k] == origins[k - 1] + 1)
    && (reports != [] ==>
         && origins != []
         && origins[|origins| - 1] == if reports[|reports| - 1].masked then -1 else |reports| - 1)
  }

  /** An unmasked byte is rendered as itself. */
  lemma TracedLiteral(reports: seq<Report>, rendered: Text, origins: seq<int>, last: Report)
    requires Traced(reports, rendered, origins) && !last.masked
    ensures Traced(reports + [last], rendered + [last.value], origins + [|reports|])
  {
  }

  /** The first byte of a masked run is rendered as a marker. */
  lemma TracedMarker(reports: seq<Report>, rendered: Text, origins: seq<int>, last: Report, marker: Text)
    requires Traced(reports, rendered, origins) && last.masked && marker != []
    ensures Traced(reports + [last], rendered + marker, origins + seq(|marker|, _ => -1))
  {
  }

  /** The other bytes of a masked run are not rendered. */
  lemma TracedNothing(reports: seq<Report>, rendered: Text, origins: seq<int>, last: Report)
    requires Traced(reports, rendered, origins) && last.masked && reports != [] && reports[|reports| - 1].masked
    ensures Traced(reports + [last], rendered, origins)
  {
  }

  lemma RenderedPiece(pieces: seq<Piece>, last: Piece)
    ensures Render(pieces + [last]) ==
      Render(pieces) + match last { case Literal(value) => [value] case Marker => REDACTION_MARKER }
  {
    assert (pieces + [last])[..|pieces|] == pieces;
  }

  lemma {:induction false} RenderingIsTraced(reports: seq<Report>)
    ensures Traced(reports, Render(Collapse(reports)), Origins(reports))
  {
    if reports != [] {
      hide Traced, Render;
      var n := |reports| - 1;
      var rest, last := reports[..n], reports[n];
      RenderingIsTraced(rest);
      assert reports == rest + [last];
      var rendered, origins := Render(Collapse(rest)), Origins(rest);
      if !last.masked {
        RenderedPiece(Collapse(rest), Literal(last.value));
        TracedLiteral(rest, rendered, origins, last);
      } else if n == 0 || !rest[n - 1].masked {
        RenderedPiece(Collapse(rest), Marker);
        TracedMarker(rest, rendered, origins, last, REDACTION_MARKER);
      } else {
        assert Collapse(reports) == Collapse(rest) && Origins(reports) == origins;
        TracedNothing(rest, rendered, origins, last);
      }
    }
  }

  lemma {:induction false} ConsecutiveOrigins(reports: seq<Report>, rendered: Text, origins: seq<int>, i: nat, n: nat)
    requires Traced(reports, rendered, origins) && i + n <= |origins|
    requires forall k :: i <= k < i + n ==> origins[k] != -1
    ensures forall k :: i <= k < i + n ==> origins[k] == origins[i] + (k - i)
  {
    if n > 0 {
      ConsecutiveOrigins(reports, rendered, origins, i, n - 1);
      var k := i + n - 1;
      assert n > 1 ==> origins[k - 1] != -1 && origins[k] == origins[k - 1] + 1;
    }
  }

  /** Every occurrence of a pattern in the rendered output overlaps a marker. */
  lemma PatternsOverlapMarkers(patterns: set<Text>, text: Text, p: Text, i: nat)
    requires p in patterns && p != []
    requires OccursAt(p, Render(Collapse(Mask(patterns, text))), i)
    ensures exists k :: i <= k < i + |p| && k < |Origins(Mask(patterns, text))| && Origins(Mask(patterns, text))[k] == -1
  {
    var reports := Mask(patterns, text);
    var rendered := Render(Collapse(reports));
    var origins := Origins(reports);
    RenderingIsTraced(reports);
    if forall k :: i <= k < i + |p| ==> origins[k] != -1 {
      ConsecutiveOrigins(reports, rendered, origins, i, |p|);
      var s := origins[i];
      forall j | 0 <= j < |p|
        ensures s + j < |text| && text[s + j] == p[j]
      {
        assert origins[i + j] == s + j;
        assert rendered[i + j] == rendered[i..i + |p|][j];
      }
      var last := p[|p| - 1];
      assert text[s..s + |p|] == p;
      OccurrenceIsMasked(patterns, text, p, s);
      assert false;
    }
  }

  ghost function PatternSet(variants: seq<Text>): set<Text> {
    set w | w in variants && w != []
  }

  /**
   * Compile, write the stream in any chunks, finish.  The result depends on the whole stream
   * only, never on how it was split.
   */
  method Redact(variants: seq<Text>, chunks: seq<Text>, observing: bool)
    returns (refused: bool, observed: seq<Report>, output: seq<Piece>)
    ensures refused <==> ExceedsLimits(DistinctPatterns(variants))
    ensures !refused && observing ==> observed == Mask(PatternSet(variants), Flatten(chunks))
    ensures !refused && !observing ==> output == Collapse(Mask(PatternSet(variants), Flatten(chunks)))
  {
    hide Masked, ExceedsLimits, DistinctPatterns, Collapse;
    hide SecretPatterns.Valid;
    hide SecretRedactor.Matching;
    hide SecretRedactor.RingHolds;
    var patterns := CompileSecrets(variants);
    if patterns == null {
      return true, [], [];
    }
    refused := false;
    var redactor := new SecretRedactor(patterns, observing);
    for i := 0 to |chunks|
      invariant redactor.Valid() && redactor.Streaming() && redactor.patterns == patterns && redactor.observing == observing
      invariant fresh(redactor) && fresh(redactor.pending)
      invariant redactor.input == Flatten(chunks[..i])
    {
      FlattenAppend(chunks[..i], chunks[i]);
      assert chunks[..i] + [chunks[i]] == chunks[..i + 1];
      redactor.Write(chunks[i]);
    }
    assert chunks[..|chunks|] == chunks;
    redactor.Finish();
    observed, output := redactor.observed, redactor.output;
  }
}
