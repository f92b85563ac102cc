/** Valid patterns mask whole runes of valid text, so that what is left of it is valid text again. */
module WholeRunes {
  import opened Bytes
  import opened Emission
  import opened LineCuts
  import opened LineLimiter
  import opened LineRouter
  import opened Masking
  import opened Utf8

  lemma {:induction false} ValidAfter(a: Text, b: Text)
    requires ValidUtf8(a) && ValidUtf8(a + b)
    ensures ValidUtf8(b)
    decreases |a|
  {
    if a == [] {
      assert a + b == b;
    } else {
      var n := RuneLength(a);
      assert RuneLength(a + b) == n && (a + b)[n..] == a[n..] + b;
      ValidAfter(a[n..], b);
    }
  }

  /** Inside a rune there are only continuation bytes. */
  lemma InsideRune(s: Text, i: nat)
    requires 0 < i < RuneLength(s)
    ensures Continuation(s[i]) && s[i] != NEWLINE && s[0] != NEWLINE
  {
  }

  lemma NotInside(s: Text)
    requires s != [] && ValidUtf8(s)
    ensures !Continuation(s[0])
  {
  }

  /** A byte of valid text that does not continue a rune begins one. */
  lemma {:induction false} BeginsRune(s: Text, i: nat)
    requires ValidUtf8(s) && i < |s| && !Continuation(s[i])
    ensures ValidUtf8(s[..i])
    decreases i
  {
    if i > 0 {
      var n := RuneLength(s);
      if i < n {
        InsideRune(s, i);
        assert false;
      }
      BeginsRune(s[n..], i - n);
      assert s[n..][..i - n] == s[..i][n..];
      assert RuneLength(s[..i]) == n;
    }
  }

  /** Between complete runes: the text up to here is valid, and so is the rest. */
  lemma RestIsValid(text: Text, n: nat)
    requires ValidUtf8(text) && n <= |text| && ValidUtf8(text[..n])
    ensures ValidUtf8(text[n..])
  {
    hide ValidUtf8;
    assert text[..n] + text[n..] == text;
    ValidAfter(text[..n], text[n..]);
  }

  /** An occurrence of a valid pattern that touches a rune covers it. */
  lemma CoversRune(text: Text, p: Text, i: nat, n: nat, k: nat)
    requires ValidUtf8(text) && n < |text| && ValidUtf8(text[..n]) && ValidUtf8(p) && p != [] && OccursAt(p, text, i)
    requires n <= k < n + RuneLength(text[n..]) && i <= k < i + |p|
    ensures i <= n && n + RuneLength(text[n..]) <= i + |p|
  {
    hide ValidUtf8;
    var rest, e := text[n..], i + |p|;
    NotInside(p);
    assert text[i] == p[0] && text[i..e] == p;
    if i > n {
      assert rest[i - n] == text[i];
      InsideRune(rest, i - n);
      assert false;
    }
    if e < n + RuneLength(rest) {
      BeginsRune(text, i);
      ValidConcat(text[..i], p);
      assert text[..i] + p == text[..e];
      RestIsValid(text, e);
      NotInside(text[e..]);
      assert rest[e - n] == text[e..][0];
      InsideRune(rest, e - n);
      assert false;
    }
  }

  ghost predicate AllValid(patterns: set<Text>) {
    forall p :: p in patterns ==> ValidUtf8(p)
  }

  /** So a rune is masked as a whole or not at all. */
  lemma RuneIsWhole(patterns: set<Text>, text: Text, n: nat, k: nat)
    requires ValidUtf8(text) && AllValid(patterns) && n < |text| && ValidUtf8(text[..n])
    requires n <= k < n + RuneLength(text[n..])
    ensures Masked(patterns, text, k) <==> Masked(patterns, text, n)
  {
    hide ValidUtf8, RuneLength;
    if Masked(patterns, text, k) {
      var p: Text, i: int :| p in patterns && OccursAt(p, text, i) && i <= k < i + |p|;
      CoversRune(text, p, i, n, k);
      assert i <= n < i + |p|;
    }
    if Masked(patterns, text, n) {
      var p: Text, i: int :| p in patterns && OccursAt(p, text, i) && i <= n < i + |p|;
      CoversRune(text, p, i, n, n);
      assert i <= k < i + |p|;
    }
  }

  // ---- The raw output ----

  lemma NextOnLine(prefix: Text, stream: Stream, i: nat)
    requires i < |stream| && stream[i].value != NEWLINE
    ensures Structured(prefix, stream, i + 1) <==> Structured(prefix, stream, i)
  {
  }

  /** What one rune, masked as a whole or not at all, adds to the raw output. */
  ghost predicate Added(before: Text, rune: Text, after: Text) {
    after == before || after == before + rune || after == before + REDACTION_MARKER
  }

  lemma OnePiece(prefix: Text, stream: Stream, k: nat)
    requires k < |stream|
    ensures Render(RawPieces(prefix, stream, k + 1)) ==
      if Structured(prefix, stream, k) || (stream[k].masked && Announced(prefix, stream, k)) then Render(RawPieces(prefix, stream, k))
      else Render(RawPieces(prefix, stream, k)) + if stream[k].masked then REDACTION_MARKER else [stream[k].value]
  {
    hide Structured, Announced, Render;
    var pieces := RawPieces(prefix, stream, k);
    assert pieces + [] == pieces;
    RenderedPiece(pieces, Marker);
    RenderedPiece(pieces, Literal(stream[k].value));
  }

  lemma {:induction false} RuneAdds(prefix: Text, stream: Stream, n: nat, m: nat, k: nat)
    requires n < k <= m <= |stream|
    requires forall j :: n <= j < m ==> stream[j].masked == stream[n].masked
    requires forall j :: n <= j < m - 1 ==> stream[j].value != NEWLINE
    ensures k < m ==> (Structured(prefix, stream, k) <==> Structured(prefix, stream, n))
    ensures !Structured(prefix, stream, n) && stream[n].masked ==> Announced(prefix, stream, k)
    ensures var before, after := Render(RawPieces(prefix, stream, n)), Render(RawPieces(prefix, stream, k));
      if Structured(prefix, stream, n) || (stream[n].masked && Announced(prefix, stream, n)) then after == before
      else if stream[n].masked then after == before + REDACTION_MARKER
      else after == before + Values(stream[n..k])
    decreases k
  {
    hide Structured, Announced, RawPieces, Render;
    if k > n + 1 {
      RuneAdds(prefix, stream, n, m, k - 1);
    }
    OnePiece(prefix, stream, k - 1);
    AnnouncedStep(prefix, stream, k - 1);
    if k < m {
      NextOnLine(prefix, stream, k - 1);
    }
    assert Values(stream[n..k]) == Values(stream[n..k - 1]) + [stream[k - 1].value];
  }

  lemma RuneStep(patterns: set<Text>, text: Text, prefix: Text, n: nat, m: nat)
    requires ValidUtf8(text) && AllValid(patterns) && n < |text| && ValidUtf8(text[..n]) && m == n + RuneLength(text[n..]) && n < m
    ensures Added(Render(RawPieces(prefix, Mask(patterns, text), n)), text[n..m], Render(RawPieces(prefix, Mask(patterns, text), m)))
  {
    hide Masked, RawPieces, Render, Structured, Announced, ValidUtf8, AllValid;
    var stream := Mask(patterns, text);
    forall j | n <= j < m
      ensures stream[j].masked == stream[n].masked
    {
      RuneIsWhole(patterns, text, n, j);
    }
    forall j | n <= j < m - 1
      ensures stream[j].value != NEWLINE
    {
      if j == n {
        InsideRune(text[n..], 1);
      } else {
        InsideRune(text[n..], j - n);
      }
      assert text[j] == text[n..][j - n];
    }
    RuneAdds(prefix, stream, n, m, m);
    assert Values(stream[n..m]) == text[n..m];
  }

  lemma AddedIsValid(before: Text, rune: Text, after: Text)
    requires ValidUtf8(before) && ValidUtf8(rune) && Added(before, rune, after)
    ensures ValidUtf8(after)
  {
    hide ValidUtf8;
    ValidConcat(before, rune);
    AsciiIsValid(REDACTION_MARKER);
    ValidConcat(before, REDACTION_MARKER);
  }

  /** The raw output of valid text under valid patterns is valid. */
  lemma RawIsValid(patterns: set<Text>, text: Text, prefix: Text)
    requires ValidUtf8(text) && AllValid(patterns)
    ensures ValidUtf8(Render(RawPieces(prefix, Mask(patterns, text), |text|)))
  {
    hide Masked, RawPieces, Render, Added, AllValid;
    var stream := Mask(patterns, text);
    var n := 0;
    NothingYet(prefix, stream);
    while n < |text|
      invariant n <= |text| && ValidUtf8(text[..n]) && ValidUtf8(Render(RawPieces(prefix, stream, n)))
    {
      RestIsValid(text, n);
      var m := n + RuneLength(text[n..]);
      RuneStep(patterns, text, prefix, n, m);
      RuneAlone(text[n..]);
      assert text[n..][..m - n] == text[n..m];
      AddedIsValid(Render(RawPieces(prefix, stream, n)), text[n..m], Render(RawPieces(prefix, stream, m)));
      ValidConcat(text[..n], text[n..m]);
      assert text[..n] + text[n..m] == text[..m];
      n := m;
    }
    assert text[..|text|] == text;
  }

  lemma NothingYet(prefix: Text, stream: Stream)
    ensures ValidUtf8(Render(RawPieces(prefix, stream, 0)))
  {
  }

  lemma RuneAlone(s: Text)
    requires RuneLength(s) > 0
    ensures ValidUtf8(s[..RuneLength(s)])
  {
    var rune := s[..RuneLength(s)];
    assert RuneLength(rune) == |rune| && rune[|rune|..] == [];
  }

  /** Lines of valid text are valid. */
  lemma LineIsValid(raw: Text, start: nat, body: Text, newline: bool)
    requires ValidUtf8(raw) && LineAt(raw, start, body, newline) && (newline || start + |body| == |raw|)
    requires start == 0 || raw[start - 1] == NEWLINE
    ensures ValidUtf8(body)
  {
    hide ValidUtf8;
    UpToHere(raw, start);
    var end := start + |body|;
    if newline {
      BeginsRune(raw, end);
    } else {
      assert raw[..end] == raw;
    }
    assert raw[..start] + body == raw[..end];
    ValidAfter(raw[..start], body);
  }

  lemma UpToHere(raw: Text, start: nat)
    requires ValidUtf8(raw) && start <= |raw| && (start == 0 || raw[start - 1] == NEWLINE)
    ensures ValidUtf8(raw[..start])
  {
    if start > 0 {
      BeginsRune(raw, start - 1);
      AsciiIsValid([NEWLINE]);
      ValidConcat(raw[..start - 1], [NEWLINE]);
      assert raw[..start - 1] + [NEWLINE] == raw[..start];
    }
  }

  lemma ValidIsWellFormed(raw: Text)
    requires ValidUtf8(raw)
    ensures !Malformed(raw)
  {
    hide ValidUtf8, LineAt, Lines, Starts;
    LinesAt(raw);
    forall n | 0 <= n < |Bodies(raw)|
      ensures ValidUtf8(Bodies(raw)[n])
    {
      if n > 0 {
        NewlineBefore(raw, Starts(raw)[n - 1], Lines(raw).closed[n - 1], Starts(raw)[n]);
      }
      LineIsValid(raw, Starts(raw)[n], Bodies(raw)[n], n < |Lines(raw).closed|);
    }
  }

  lemma NewlineBefore(raw: Text, start: nat, body: Text, next: nat)
    requires LineAt(raw, start, body, true) && next == start + |body| + 1
    ensures 0 < next <= |raw| && raw[next - 1] == NEWLINE
  {
  }

  /** So no line of it is cut short without a marker. */
  lemma ValidTextIsWellFormed(patterns: set<Text>, text: Text, prefix: Text)
    requires ValidUtf8(text) && AllValid(patterns)
    ensures !Malformed(Render(RawPieces(prefix, Mask(patterns, text), |text|)))
  {
    hide Malformed, ValidUtf8, AllValid, RawPieces, Render, Mask;
    RawIsValid(patterns, text, prefix);
    ValidIsWellFormed(Render(RawPieces(prefix, Mask(patterns, text), |text|)));
  }
}
