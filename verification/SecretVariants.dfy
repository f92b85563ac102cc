/** From configured secrets to patterns, and from written bytes to the text that is searched for them. */
module SecretVariants {
  import opened Bytes
  import opened Masking
  import opened Utf8
  import AnsiStripper
  import Emission
  import SecretPatterns
  import Utf8Normalizer

  /** A text as the redactor gets it: normalized and without escape sequences. */
  function Cleaned(text: Text): Text {
    AnsiStripper.Stripped(AnsiStripper.START, Utf8Normalizer.Whole(text))
  }

  method CleanText(text: Text) returns (clean: Text)
    ensures clean == Cleaned(text) && AnsiStripper.ESCAPE !in clean
  {
    var normalized := Utf8Normalizer.NormalizeStream([text]);
    Utf8Normalizer.OneWrite(text);
    assert Flatten([text]) == text && Flatten([normalized]) == normalized;
    clean := AnsiStripper.StripStream([normalized]);
  }

  /** The forms of one secret: itself, cleaned, and encoded in every way that is looked for. */
  ghost predicate VariantOf(w: Text, secret: Text, encoders: seq<Text -> Text>) {
    w == secret || w == Cleaned(secret) || exists k :: 0 <= k < |encoders| && w == encoders[k](secret)
  }

  ghost predicate Variant(w: Text, secrets: seq<Text>, encoders: seq<Text -> Text>) {
    exists k :: 0 <= k < |secrets| && VariantOf(w, secrets[k], encoders)
  }

  method Expand(secret: Text, encoders: seq<Text -> Text>) returns (variants: seq<Text>)
    ensures forall w :: w in variants <==> VariantOf(w, secret, encoders)
  {
    hide Cleaned;
    var clean := CleanText(secret);
    variants := [secret, clean];
    for i := 0 to |encoders|
      invariant forall w :: w in variants <==> w == secret || w == clean || exists k :: 0 <= k < i && w == encoders[k](secret)
    {
      variants := variants + [encoders[i](secret)];
    }
  }

  /** All forms of all secrets; a repeated secret is skipped. */
  method ExpandAll(secrets: seq<Text>, encoders: seq<Text -> Text>) returns (variants: seq<Text>)
    ensures forall w :: w in variants <==> Variant(w, secrets, encoders)
  {
    hide VariantOf;
    variants := [];
    var raw: set<Text> := {};
    for i := 0 to |secrets|
      invariant forall s :: s in raw <==> s in secrets[..i]
      invariant forall w :: w in variants <==> Variant(w, secrets[..i], encoders)
    {
      ghost var before := variants;
      if secrets[i] !in raw {
        raw := raw + {secrets[i]};
        var more := Expand(secrets[i], encoders);
        variants := variants + more;
      }
      forall w
        ensures Variant(w, secrets[..i + 1], encoders) <==> Variant(w, secrets[..i], encoders) || VariantOf(w, secrets[i], encoders)
      {
        VariantStep(w, secrets, encoders, i);
      }
      if secrets[i] in secrets[..i] {
        forall w | VariantOf(w, secrets[i], encoders)
          ensures Variant(w, secrets[..i], encoders)
        {
          var k :| 0 <= k < i && secrets[..i][k] == secrets[i];
        }
      }
    }
    assert secrets[..|secrets|] == secrets;
  }

  lemma VariantStep(w: Text, secrets: seq<Text>, encoders: seq<Text -> Text>, i: nat)
    requires i < |secrets|
    ensures Variant(w, secrets[..i + 1], encoders) <==> Variant(w, secrets[..i], encoders) || VariantOf(w, secrets[i], encoders)
  {
    hide VariantOf;
    var longer := secrets[..i + 1];
    if k :| 0 <= k < |longer| && VariantOf(w, longer[k], encoders) {
      assert k < i ==> secrets[..i][k] == longer[k];
    }
    if Variant(w, secrets[..i], encoders) {
      var k :| 0 <= k < i && VariantOf(w, secrets[..i][k], encoders);
      assert longer[k] == secrets[..i][k];
    }
    assert longer[i] == secrets[i];
  }

  /** Compiles the secrets of a job: the patterns are exactly the nonempty forms. */
  method CompileAll(secrets: seq<Text>, encoders: seq<Text -> Text>)
    returns (patterns: SecretPatterns.SecretPatterns?, ghost variants: seq<Text>)
    ensures patterns == null <==> SecretPatterns.ExceedsLimits(SecretPatterns.DistinctPatterns(variants))
    ensures forall w :: w in variants <==> Variant(w, secrets, encoders)
    ensures patterns != null ==> patterns.Valid() && forall w :: w in patterns.patterns <==> w != [] && Variant(w, secrets, encoders)
  {
    hide Variant, SecretPatterns.SecretPatterns.Valid;
    var all := ExpandAll(secrets, encoders);
    variants := all;
    patterns := SecretPatterns.CompileSecrets(all);
  }

  /** Valid text comes out of the normalizer as it is, whatever is before it. */
  lemma NormalizedAround(secret: Text, before: Text, after: Text) returns (rest: Text)
    requires secret != [] && ValidUtf8(secret)
    ensures Utf8Normalizer.Whole(before + secret + after) == Utf8Normalizer.Whole(before) + (secret + rest)
  {
    hide Utf8Normalizer.Emitted, Utf8Normalizer.Kept, ValidUtf8;
    var tail := secret + after;
    assert before + secret + after == before + tail;
    FirstByte(secret);
    Utf8Normalizer.WholeBefore(before, tail);
    Utf8Normalizer.ValidComesOut(secret, after);
    rest := Utf8Normalizer.Emitted(after) + Utf8Normalizer.Tail(Utf8Normalizer.Kept(after));
    var x, y := Utf8Normalizer.Emitted(after), Utf8Normalizer.Tail(Utf8Normalizer.Kept(after));
    assert Utf8Normalizer.Whole(before) + (secret + x) + y == Utf8Normalizer.Whole(before) + (secret + (x + y));
  }

  /** Where the stripper is after this text. */
  function StripperAfter(before: Text): AnsiStripper.State {
    AnsiStripper.After(AnsiStripper.START, Utf8Normalizer.Whole(before))
  }

  /** What a secret contributes to the cleaned text, wherever it is written. */
  lemma CleanedAround(secret: Text, before: Text, after: Text) returns (rest: Text)
    requires secret != [] && ValidUtf8(secret)
    ensures Cleaned(before + secret + after) == Cleaned(before) + AnsiStripper.Stripped(StripperAfter(before), secret) + rest
  {
    hide Utf8Normalizer.Whole, AnsiStripper.Stripped, AnsiStripper.After, ValidUtf8;
    var more := NormalizedAround(secret, before, after);
    var first, s := Utf8Normalizer.Whole(before), StripperAfter(before);
    AnsiStripper.StrippedConcat(AnsiStripper.START, first, secret + more);
    AnsiStripper.StrippedConcat(s, secret, more);
    rest := AnsiStripper.Stripped(AnsiStripper.After(s, secret), more);
    var a, b := AnsiStripper.Stripped(AnsiStripper.START, first), AnsiStripper.Stripped(s, secret);
    assert a + (b + rest) == a + b + rest;
  }

  /**
   * A secret that is valid text without escapes is handed on whole exactly if the stripper lets its first byte pass, and
   * then every byte of it is masked, wherever and after whatever bytes it is written.
   */
  lemma WrittenSecretIsMasked(patterns: set<Text>, secret: Text, before: Text, after: Text) returns (rest: Text)
    requires secret in patterns && secret != [] && ValidUtf8(secret) && AnsiStripper.ESCAPE !in secret
    ensures Cleaned(before + secret + after) == Cleaned(before) + AnsiStripper.Stripped(StripperAfter(before), secret) + rest
    ensures AnsiStripper.Stripped(StripperAfter(before), secret) == secret <==> AnsiStripper.Passes(StripperAfter(before), secret[0])
    ensures AnsiStripper.Passes(StripperAfter(before), secret[0]) ==>
      forall k :: |Cleaned(before)| <= k < |Cleaned(before)| + |secret| ==> Masked(patterns, Cleaned(before + secret + after), k)
  {
    hide Cleaned, AnsiStripper.Stripped, AnsiStripper.After, AnsiStripper.Passes, ValidUtf8;
    rest := CleanedAround(secret, before, after);
    AnsiStripper.HandedOnWhole(StripperAfter(before), secret);
    if AnsiStripper.Passes(StripperAfter(before), secret[0]) {
      var a, text := Cleaned(before), Cleaned(before + secret + after);
      assert text[|a|..|a| + |secret|] == secret;
      assert OccursAt(secret, text, |a|);
    }
  }

  const UNFINISHED: Text := [AnsiStripper.ESCAPE, 91]
  const HIDDEN: Text := [49, 115, 101, 99]

  lemma HiddenStripped()
    ensures !AnsiStripper.Passes(AnsiStripper.After(AnsiStripper.START, UNFINISHED), HIDDEN[0])
    ensures AnsiStripper.Stripped(AnsiStripper.START, UNFINISHED + HIDDEN) == HIDDEN[2..]
  {
    var s := AnsiStripper.START;
    assert AnsiStripper.After(s, []) == s && AnsiStripper.Stripped(s, []) == [];
    hide AnsiStripper.Stripped, AnsiStripper.After;
    AnsiStripper.StrippedByte(s, [], AnsiStripper.ESCAPE);
    AnsiStripper.StrippedByte(s, [AnsiStripper.ESCAPE], 91);
    assert [] + [AnsiStripper.ESCAPE] == [AnsiStripper.ESCAPE] && [AnsiStripper.ESCAPE] + [91] == UNFINISHED;
    AnsiStripper.StrippedByte(s, UNFINISHED, 49);
    AnsiStripper.StrippedByte(s, UNFINISHED + [49], 115);
    AnsiStripper.StrippedByte(s, UNFINISHED + [49] + [115], 101);
    AnsiStripper.StrippedByte(s, UNFINISHED + [49] + [115] + [101], 99);
    assert UNFINISHED + [49] + [115] + [101] + [99] == UNFINISHED + HIDDEN;
  }

  /** An unfinished control sequence takes the beginning of a secret with it, and the rest comes out unmasked. */
  lemma EscapeTakesBeginning()
    ensures !AnsiStripper.Passes(StripperAfter(UNFINISHED), HIDDEN[0])
    ensures Cleaned(UNFINISHED + HIDDEN) == HIDDEN[2..] && forall k :: !Masked({HIDDEN}, HIDDEN[2..], k)
  {
    hide AnsiStripper.Stripped, AnsiStripper.After, AnsiStripper.Passes, Utf8Normalizer.Whole, ValidUtf8;
    AsciiIsValid(UNFINISHED);
    AsciiIsValid(UNFINISHED + HIDDEN);
    ValidIsWhole(UNFINISHED);
    ValidIsWhole(UNFINISHED + HIDDEN);
    HiddenStripped();
  }

  lemma ValidIsWhole(text: Text)
    requires ValidUtf8(text)
    ensures Utf8Normalizer.Whole(text) == text
  {
    hide ValidUtf8, Utf8Normalizer.Emitted, Utf8Normalizer.Kept;
    Utf8Normalizer.BeginsItself(text);
    Utf8Normalizer.NothingKept(text);
    Utf8Normalizer.NothingReplaced(text);
  }

  lemma FirstByte(s: Text)
    requires s != [] && ValidUtf8(s)
    ensures !Continuation(s[0])
  {
  }
}
