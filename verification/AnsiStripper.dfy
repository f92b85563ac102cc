/** Removes terminal escape sequences while streaming; a sequence may arrive in pieces. */
module AnsiStripper {
  import opened Bytes

  const ESCAPE: byte := 0x1B
  const BELL: byte := 0x07
  const LONGEST_SEQUENCE: nat := 256

  /** Where the stripper is: in text, after an escape, or inside one of two kinds of sequence. */
  datatype Place = InText | InEscape | InCsi | InOsc | InOscEscape

  /** `length` counts the bytes of the current sequence. */
  datatype State = State(place: Place, length: nat)

  const START := State(InText, 0)

  predicate LineEnd(value: byte) {
    value == NEWLINE || value == CARRIAGE_RETURN
  }

  /** The state after one more byte. */
  function Next(s: State, value: byte): State {
    match s.place
    case InText => if value == ESCAPE then State(InEscape, 0) else s
    case InEscape => s.(place := if value == 91 then InCsi else if value == 93 then InOsc else InText)
    case InCsi =>
      State(if LineEnd(value) || 0x40 <= value <= 0x7E || s.length + 1 >= LONGEST_SEQUENCE then InText else InCsi, s.length + 1)
    case InOsc =>
      State(if value == ESCAPE then InOscEscape
            else if LineEnd(value) || value == BELL || s.length + 1 >= LONGEST_SEQUENCE then InText else InOsc, s.length + 1)
    case InOscEscape => s.(place := if value == BACKSLASH then InText else InOsc)
  }

  /** Whether the byte is handed on. */
  predicate Passes(s: State, value: byte) {
    match s.place
    case InText => value != ESCAPE
    case InOscEscape => false
    case _ => LineEnd(value)
  }

  function After(s: State, text: Text): State {
    if text == [] then s else Next(After(s, text[..|text| - 1]), text[|text| - 1])
  }

  /** What is handed on of a text. */
  function Stripped(s: State, text: Text): Text {
    if text == [] then []
    else
      var n := |text| - 1;
      Stripped(s, text[..n]) + if Passes(After(s, text[..n]), text[n]) then [text[n]] else []
  }

  lemma StrippedByte(s: State, text: Text, value: byte)
    ensures After(s, text + [value]) == Next(After(s, text), value)
    ensures Stripped(s, text + [value]) == Stripped(s, text) + if Passes(After(s, text), value) then [value] else []
  {
    assert (text + [value])[..|text|] == text;
  }

  /** It does not matter how a text is cut into writes. */
  lemma {:induction false} StrippedConcat(s: State, a: Text, b: Text)
    ensures After(s, a + b) == After(After(s, a), b)
    ensures Stripped(s, a + b) == Stripped(s, a) + Stripped(After(s, a), b)
  {
    if b == [] {
      assert a + b == a;
    } else {
      var n := |b| - 1;
      assert a + b == (a + b[..n]) + [b[n]];
      StrippedConcat(s, a, b[..n]);
      StrippedByte(s, a + b[..n], b[n]);
    }
  }

  /** No escape is handed on, whatever comes in. */
  lemma {:induction false} NoEscapeLeft(s: State, text: Text)
    ensures ESCAPE !in Stripped(s, text)
  {
    if text != [] {
      NoEscapeLeft(s, text[..|text| - 1]);
    }
  }

  /** Text without escapes comes out unchanged. */
  lemma {:induction false} PlainUnchanged(s: State, text: Text)
    requires s.place.InText? && ESCAPE !in text
    ensures Stripped(s, text) == text && After(s, text) == s
  {
    if text != [] {
      var n := |text| - 1;
      PlainUnchanged(s, text[..n]);
      assert text[n] in text;
    }
  }

  lemma {:induction false} StrippedShorter(s: State, text: Text)
    ensures |Stripped(s, text)| <= |text|
  {
    if text != [] {
      StrippedShorter(s, text[..|text| - 1]);
    }
  }

  /** Text without escapes is handed on whole, exactly if its first byte is. */
  lemma HandedOnWhole(s: State, text: Text)
    requires text != [] && ESCAPE !in text
    ensures Stripped(s, text) == text <==> Passes(s, text[0])
  {
    var first, rest := [text[0]], text[1..];
    assert text == first + rest;
    assert text[0] in text;
    StrippedConcat(s, first, rest);
    StrippedByte(s, [], text[0]);
    assert [] + first == first;
    if Passes(s, text[0]) {
      PlainUnchanged(Next(s, text[0]), rest);
    } else {
      StrippedShorter(After(s, first), rest);
    }
  }

  /** So stripping twice is stripping once. */
  lemma StrippedTwice(text: Text)
    ensures Stripped(START, Stripped(START, text)) == Stripped(START, text)
  {
    NoEscapeLeft(START, text);
    PlainUnchanged(START, Stripped(START, text));
  }

  function Newlines(text: Text): nat {
    if text == [] then 0 else Newlines(text[..|text| - 1]) + if text[|text| - 1] == NEWLINE then 1 else 0
  }

  /** A newline directly after an escape inside an operating system command. */
  predicate Swallows(s: State, text: Text) {
    text != [] &&
    (Swallows(s, text[..|text| - 1])
     || (text[|text| - 1] == NEWLINE && After(s, text[..|text| - 1]).place.InOscEscape?))
  }

  /** Every line end survives, exactly if none is swallowed in that place. */
  lemma {:induction false} NewlinesSurvive(s: State, text: Text)
    ensures Newlines(Stripped(s, text)) <= Newlines(text)
    ensures Newlines(Stripped(s, text)) == Newlines(text) <==> !Swallows(s, text)
  {
    if text != [] {
      hide Stripped, After, Next, Newlines;
      var n := |text| - 1;
      var rest, last := text[..n], text[n];
      NewlinesSurvive(s, rest);
      assert text == rest + [last];
      StrippedByte(s, rest, last);
      NewlinesAppend(rest, last);
      NewlinesAppend(Stripped(s, rest), last);
      assert Stripped(s, rest) + [] == Stripped(s, rest);
    } else {
      assert Stripped(s, text) == [];
    }
  }

  lemma NewlinesAppend(text: Text, value: byte)
    ensures Newlines(text + [value]) == Newlines(text) + if value == NEWLINE then 1 else 0
  {
    assert (text + [value])[..|text|] == text;
  }

  /** An example of a swallowed line end: two lines become one. */
  lemma NewlineSwallowed()
    ensures Swallows(START, [ESCAPE, 93, ESCAPE, NEWLINE])
  {
    var text: Text := [ESCAPE, 93, ESCAPE, NEWLINE];
    assert text[..3] == [ESCAPE, 93] + [ESCAPE] && [ESCAPE, 93] == [ESCAPE] + [93] && [ESCAPE] == [] + [ESCAPE];
    StrippedByte(START, [], ESCAPE);
    StrippedByte(START, [ESCAPE], 93);
    StrippedByte(START, [ESCAPE, 93], ESCAPE);
  }

  class Stripper {
    var place: Place
    var length: nat
    var output: Text

    constructor ()
      ensures State(place, length) == START && output == []
    {
      place, length, output := InText, 0, [];
    }

    method WriteByte(value: byte)
      modifies this
      ensures State(place, length) == Next(old(State(place, length)), value)
      ensures output == old(output) + if Passes(old(State(place, length)), value) then [value] else []
    {
      match place
      case InText =>
        if value == ESCAPE {
          place, length := InEscape, 0;
        } else {
          output := output + [value];
        }
      case InEscape =>
        if value == 91 {
          place := InCsi;
        } else if value == 93 {
          place := InOsc;
        } else {
          place := InText;
          if LineEnd(value) {
            output := output + [value];
          }
        }
      case InCsi =>
        length := length + 1;
        if LineEnd(value) {
          place, output := InText, output + [value];
        } else if 0x40 <= value <= 0x7E {
          place := InText;
        } else if length >= LONGEST_SEQUENCE {
          place := InText;
        }
      case InOsc =>
        length := length + 1;
        if value == BELL {
          place := InText;
        } else if value == ESCAPE {
          place := InOscEscape;
        } else if LineEnd(value) {
          place, output := InText, output + [value];
        } else if length >= LONGEST_SEQUENCE {
          place := InText;
        }
      case InOscEscape =>
        place := if value == BACKSLASH then InText else InOsc;
    }

    method Write(content: Text)
      modifies this
      ensures State(place, length) == After(old(State(place, length)), content)
      ensures output == old(output) + Stripped(old(State(place, length)), content)
    {
      hide Next, Passes;
      ghost var s := State(place, length);
      for i := 0 to |content|
        invariant State(place, length) == After(s, content[..i]) && output == old(output) + Stripped(s, content[..i])
      {
        assert content[..i + 1] == content[..i] + [content[i]];
        StrippedByte(s, content[..i], content[i]);
        WriteByte(content[i]);
      }
      assert content[..|content|] == content;
    }
  }

  /** For every way of cutting a stream: no escape comes out, and a stream without escapes comes out unchanged. */
  method StripStream(chunks: seq<Text>) returns (output: Text)
    ensures output == Stripped(START, Flatten(chunks)) && ESCAPE !in output
    ensures ESCAPE !in Flatten(chunks) ==> output == Flatten(chunks)
  {
    hide After, Stripped;
    var stripper := new Stripper();
    NothingStripped();
    for i := 0 to |chunks|
      invariant State(stripper.place, stripper.length) == After(START, Flatten(chunks[..i]))
      invariant stripper.output == Stripped(START, Flatten(chunks[..i]))
    {
      assert chunks[..i + 1] == chunks[..i] + [chunks[i]];
      FlattenAppend(chunks[..i], chunks[i]);
      StrippedConcat(START, Flatten(chunks[..i]), chunks[i]);
      stripper.Write(chunks[i]);
    }
    assert chunks[..|chunks|] == chunks;
    NoEscapeLeft(START, Flatten(chunks));
    if ESCAPE !in Flatten(chunks) {
      PlainUnchanged(START, Flatten(chunks));
    }
    output := stripper.output;
  }

  lemma NothingStripped()
    ensures After(START, []) == START && Stripped(START, []) == []
  {
  }
}
