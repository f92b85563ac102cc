/** The callers of the redactor: string sanitizing, the JSON safety scan, and one output stream. */
module StructuredRedaction {
  import opened Bytes
  import opened Masking
  import opened SecretPatterns
  import opened SecretRedactor
  import opened Emission
  import opened JsonDelimiters
  import opened JsonStrings
  import opened LineRouter
  import opened RawProcessor
  import SecretVariants

  ghost function SecretsOf(patterns: SecretPatterns?): set<Text>
  {
    if patterns == null then {} else patterns.patterns
  }

  /** Runs one text through a fresh redactor. */
  method RunRedactor(text: Text, patterns: SecretPatterns?, observing: bool)
    returns (observed: seq<Report>, output: seq<Piece>)
    requires patterns != null ==> patterns.Valid()
    ensures observing ==> observed == Mask(SecretsOf(patterns), text)
    ensures !observing ==> output == Collapse(Mask(SecretsOf(patterns), text))
  {
    hide Masked;
    hide SecretPatterns.Valid;
    hide SecretRedactor.Matching;
    hide SecretRedactor.RingHolds;
    var redactor := new SecretRedactor(patterns, observing);
    redactor.Write(text);
    assert redactor.input == text;
    redactor.Finish();
    observed, output := redactor.observed, redactor.output;
  }

  /**
   * Sanitizes one string: normalized, stripped and redacted.  An unchanged verdict means that the value was
   * clean before and that no pattern occurs in it at all.
   */
  method SanitizeString(value: Text, patterns: SecretPatterns?) returns (output: Text, changed: bool)
    requires patterns != null ==> patterns.Valid()
    ensures output == Render(Collapse(Mask(SecretsOf(patterns), SecretVariants.Cleaned(value))))
    ensures !changed <==>
      SecretVariants.Cleaned(value) == value && forall k :: 0 <= k < |value| ==> !Masked(SecretsOf(patterns), value, k)
    ensures !changed ==> output == value
  {
    hide SecretPatterns.Valid;
    hide Masked;
    hide SecretVariants.Cleaned;
    var clean := SecretVariants.CleanText(value);
    var _, pieces := RunRedactor(clean, patterns, false);
    output := Render(pieces);
    changed := Marker in pieces || output != value;
    MarkersAreHits(Mask(SecretsOf(patterns), clean));
    if Marker !in pieces {
      RenderUnmasked(Mask(SecretsOf(patterns), clean));
      assert Values(Mask(SecretsOf(patterns), clean)) == clean;
    }
  }

  lemma {:induction false} MarkersAreHits(reports: seq<Report>)
    ensures Marker in Collapse(reports) <==> exists k :: 0 <= k < |reports| && reports[k].masked
  {
    if reports != [] {
      var n := |reports| - 1;
      MarkersAreHits(reports[..n]);
      assert reports == reports[..n] + [reports[n]];
      if !reports[n].masked {
        assert Collapse(reports) == Collapse(reports[..n]) + [Literal(reports[n].value)];
      } else if n > 0 && reports[n - 1].masked {
        assert reports[..n][n - 1].masked;
        assert Collapse(reports) == Collapse(reports[..n]);
      } else {
        assert Collapse(reports) == Collapse(reports[..n]) + [Marker];
      }
    }
  }

  lemma {:induction false} RenderUnmasked(reports: seq<Report>)
    requires forall k :: 0 <= k < |reports| ==> !reports[k].masked
    ensures Render(Collapse(reports)) == Values(reports)
  {
    if reports != [] {
      var n := |reports| - 1;
      RenderUnmasked(reports[..n]);
      assert Collapse(reports)[..|Collapse(reports[..n])|] == Collapse(reports[..n]);
    }
  }

  /** Whether a serialized payload has a match that touches anything but string bodies. */
  method UnsafeSerializedJson(payload: Text, patterns: SecretPatterns?) returns (unsafe: bool)
    requires patterns != null ==> patterns.Valid()
    ensures unsafe <==> UnsafeJson(Mask(SecretsOf(patterns), payload))
    ensures forall quotes: seq<nat> :: Delimiters(payload, quotes) ==> (unsafe <==> MaskedOutsideStrings(SecretsOf(patterns), payload, quotes))
  {
    hide SecretPatterns.Valid;
    hide Masked;
    hide UnsafeJson;
    var observed, _ := RunRedactor(payload, patterns, true);
    unsafe := false;
    var inString, escaped := false, false;
    NothingUnsafe();
    for i := 0 to |observed|
      invariant Scan(inString, escaped) == ScanOf(observed[..i])
      invariant unsafe <==> UnsafeJson(observed[..i])
    {
      var value, masked := observed[i].value, observed[i].masked;
      var body := inString && (escaped || value != QUOTE);
      UnsafeJsonStep(observed[..i], observed[i]);
      assert observed[..i + 1] == observed[..i] + [observed[i]];
      assert observed[..i + 1][..i] == observed[..i];
      if masked && !body {
        unsafe := true;
      }
      if inString {
        if escaped {
          escaped := false;
        } else if value == BACKSLASH {
          escaped := true;
        } else if value == QUOTE {
          inString := false;
        }
      } else if value == QUOTE {
        inString := true;
      }
    }
    assert observed[..|observed|] == observed;
    forall quotes: seq<nat> | Delimiters(payload, quotes)
      ensures unsafe <==> MaskedOutsideStrings(SecretsOf(patterns), payload, quotes)
    {
      UnsafePayload(SecretsOf(patterns), payload, quotes);
    }
  }

  /** Something masked is neither between two delimiting quotes nor after one without a partner. */
  ghost predicate MaskedOutsideStrings(patterns: set<Text>, payload: Text, quotes: seq<nat>) {
    exists k: nat :: k < |payload| && Masked(patterns, payload, k) && !Between(quotes, k)
  }

  lemma UnsafePayload(patterns: set<Text>, payload: Text, quotes: seq<nat>)
    requires Delimiters(payload, quotes)
    ensures UnsafeJson(Mask(patterns, payload)) <==> MaskedOutsideStrings(patterns, payload, quotes)
  {
    hide Masked, UnsafeJson, Delimiters, Between;
    var reports := Mask(patterns, payload);
    assert TextOf(reports) == payload;
    UnsafeExactly(reports, quotes);
    if k :| 0 <= k < |reports| && reports[k].masked && !Between(quotes, k) {
      assert Masked(patterns, payload, k);
    }
    if k: nat :| k < |payload| && Masked(patterns, payload, k) && !Between(quotes, k) {
      assert reports[k].masked;
    }
  }

  lemma NothingUnsafe()
    ensures !UnsafeJson([])
  {
  }

  /**
   * One output stream from the matcher to the two limiters: compiled, written in any chunks,
   * routed, finished.
   */
  method ProcessStream(variants: seq<Text>, prefix: Text, chunks: seq<Text>)
    returns (refused: bool, raw: seq<Piece>, lines: seq<StructuredLine>)
    requires NEWLINE !in prefix
    ensures refused <==> ExceedsLimits(DistinctPatterns(variants))
    ensures !refused ==>
      var stream := Mask(PatternSet(variants), Flatten(chunks));
      raw == RawPieces(prefix, stream, |stream|) && lines == AllLines(prefix, stream)
  {
    hide RawPieces, AllLines, Masked, Collapse, Flatten, ExceedsLimits, DistinctPatterns, PatternSet;
    hide RawProcessor.Valid;
    var tooMany, observed, _ := Redact(variants, chunks, true);
    if tooMany {
      return true, [], [];
    }
    refused := false;
    var processor := new RawProcessor(prefix);
    for i := 0 to |observed|
      invariant fresh(processor) && processor.Valid() && processor.prefix == prefix && processor.stream == observed[..i]
    {
      processor.RouteMatched([observed[i].value], observed[i].masked);
      assert observed[..i + 1] == observed[..i] + [observed[i]];
    }
    assert observed[..|observed|] == observed;
    processor.Finish();
    raw, lines := processor.raw, processor.lines;
  }
}
