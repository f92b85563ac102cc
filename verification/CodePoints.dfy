/** UTF-8 from the other side: the encoding of each Unicode scalar value (section 3 of RFC 3629), by division and remainder. */
module CodePoints {
  import opened Bytes
  import opened Utf8
  import opened Utf8Normalizer

  /** A code point that is not a surrogate. */
  predicate Scalar(c: int) {
    0 <= c < 0xD800 || 0xE000 <= c <= 0x10FFFF
  }

  /** A byte that carries six bits. */
  function Digit(c: nat): byte {
    0x80 + c % 64
  }

  function Encoding(c: int): Text
    requires Scalar(c)
  {
    if c < 0x80 then [c]
    else if c < 0x800 then [0xC0 + c / 64, Digit(c)]
    else if c < 0x10000 then [0xE0 + c / 64 / 64, Digit(c / 64), Digit(c)]
    else [0xF0 + c / 64 / 64 / 64, Digit(c / 64 / 64), Digit(c / 64), Digit(c)]
  }

  /** All code points, one after the other. */
  function Encoded(codes: seq<int>): Text
    requires forall i :: 0 <= i < |codes| ==> Scalar(codes[i])
  {
    if codes == [] then [] else Encoding(codes[0]) + Encoded(codes[1..])
  }

  lemma DigitOf(a: nat, b: nat)
    requires b < 64
    ensures (a * 64 + b) / 64 == a && (a * 64 + b) % 64 == b
  {
  }

  lemma OneByte(c: nat)
    requires c < 0x80
    ensures LeadLength(c) == 1
  {
  }

  lemma TwoBytes(c: nat)
    requires 0x80 <= c < 0x800
    ensures LeadLength(0xC0 + c / 64) == 2 && SecondByteOk(0xC0 + c / 64, Digit(c))
  {
  }

  lemma ThreeBytes(c: nat)
    requires 0x800 <= c < 0x10000 && Scalar(c)
    ensures c / 64 / 64 < 16 && LeadLength(0xE0 + c / 64 / 64) == 3
    ensures SecondByteOk(0xE0 + c / 64 / 64, Digit(c / 64)) && Continuation(Digit(c))
  {
  }

  lemma FourBytes(c: nat)
    requires 0x10000 <= c <= 0x10FFFF
    ensures c / 64 / 64 / 64 < 5 && LeadLength(0xF0 + c / 64 / 64 / 64) == 4
    ensures SecondByteOk(0xF0 + c / 64 / 64 / 64, Digit(c / 64 / 64)) && Continuation(Digit(c / 64)) && Continuation(Digit(c))
  {
  }

  /** The encoding of every scalar value is one rune, whatever follows. */
  lemma EncodingIsRune(c: int, rest: Text)
    requires Scalar(c)
    ensures RuneLength(Encoding(c) + rest) == |Encoding(c)| > 0
  {
    hide Digit, LeadLength, SecondByteOk, Continuation;
    var s := Encoding(c) + rest;
    if c < 0x80 {
      OneByte(c);
    } else if c < 0x800 {
      TwoBytes(c);
    } else if c < 0x10000 {
      ThreeBytes(c);
    } else {
      FourBytes(c);
    }
  }

  /** The number that the bits of a rune spell. */
  function Decoded(s: Text): int
    requires RuneLength(s) > 0
  {
    var n := RuneLength(s);
    if n == 1 then s[0]
    else if n == 2 then Next(s[0] - 0xC0, s[1])
    else if n == 3 then Next(Next(s[0] - 0xE0, s[1]), s[2])
    else Next(Next(Next(s[0] - 0xF0, s[1]), s[2]), s[3])
  }

  /** Six more bits. */
  function Next(high: int, b: byte): int {
    high * 64 + b - 0x80
  }

  /** Decoding gets every scalar value back. */
  lemma DecodedAgain(c: int, rest: Text)
    requires Scalar(c)
    ensures RuneLength(Encoding(c) + rest) == |Encoding(c)| > 0 && Decoded(Encoding(c) + rest) == c
  {
    hide RuneLength;
    EncodingIsRune(c, rest);
    var s := Encoding(c) + rest;
    assert forall i :: 0 <= i < |Encoding(c)| ==> s[i] == Encoding(c)[i];
  }

  lemma DecodedTwo(a: nat, b: nat)
    requires 2 <= a < 32 && b < 64
    ensures var c := a * 64 + b; Scalar(c) && Encoding(c) == [0xC0 + a, 0x80 + b]
  {
    DigitOf(a, b);
  }

  lemma DecodedThree(a: nat, b: nat, d: nat)
    requires a < 16 && b < 64 && d < 64 && (a == 0 ==> 32 <= b) && (a == 13 ==> b < 32)
    ensures var c := (a * 64 + b) * 64 + d; Scalar(c) && Encoding(c) == [0xE0 + a, 0x80 + b, 0x80 + d]
  {
    DigitOf(a, b);
    DigitOf(a * 64 + b, d);
  }

  lemma DecodedFour(a: nat, b: nat, d: nat, e: nat)
    requires a < 5 && b < 64 && d < 64 && e < 64 && (a == 0 ==> 16 <= b) && (a == 4 ==> b < 16)
    ensures var c := ((a * 64 + b) * 64 + d) * 64 + e; Scalar(c) && Encoding(c) == [0xF0 + a, 0x80 + b, 0x80 + d, 0x80 + e]
  {
    DigitOf(a, b);
    DigitOf(a * 64 + b, d);
    DigitOf((a * 64 + b) * 64 + d, e);
  }

  lemma RuneRanges(s: Text)
    requires RuneLength(s) > 1
    ensures Continuation(s[1])
    ensures RuneLength(s) == 2 ==> 0xC2 <= s[0] < 0xE0
    ensures RuneLength(s) == 3 ==> 0xE0 <= s[0] < 0xF0 && Continuation(s[2]) && (s[0] == 0xE0 ==> 0xA0 <= s[1]) && (s[0] == 0xED ==> s[1] < 0xA0)
    ensures RuneLength(s) == 4 ==>
      0xF0 <= s[0] < 0xF5 && Continuation(s[2]) && Continuation(s[3]) && (s[0] == 0xF0 ==> 0x90 <= s[1]) && (s[0] == 0xF4 ==> s[1] < 0x90)
  {
  }

  lemma OneByteRune(s: Text)
    requires RuneLength(s) == 1
    ensures Scalar(s[0]) && Encoding(s[0]) == [s[0]]
  {
  }

  /** Every rune is the encoding of a scalar value. */
  lemma RuneIsEncoding(s: Text)
    requires RuneLength(s) > 0
    ensures Scalar(Decoded(s)) && Encoding(Decoded(s)) == s[..RuneLength(s)]
  {
    hide RuneLength, Encoding, Scalar;
    var n := RuneLength(s);
    if n == 1 {
      OneByteRune(s);
      assert s[..1] == [s[0]];
    } else {
      RuneRanges(s);
      if n == 2 {
        DecodedTwo(s[0] - 0xC0, s[1] - 0x80);
        assert s[..2] == [s[0], s[1]];
      } else if n == 3 {
        DecodedThree(s[0] - 0xE0, s[1] - 0x80, s[2] - 0x80);
        assert s[..3] == [s[0], s[1], s[2]];
      } else {
        DecodedFour(s[0] - 0xF0, s[1] - 0x80, s[2] - 0x80, s[3] - 0x80);
        assert s[..4] == [s[0], s[1], s[2], s[3]];
      }
    }
  }

  /** And of no other. */
  lemma RuneIsOneEncoding(s: Text, c: int)
    requires Scalar(c) && Encoding(c) <= s
    ensures RuneLength(s) == |Encoding(c)| > 0 && Decoded(s) == c
  {
    hide RuneLength, Decoded, Encoding;
    DecodedAgain(c, s[|Encoding(c)|..]);
    assert Encoding(c) + s[|Encoding(c)|..] == s;
  }

  /** These code points spell the text. */
  ghost predicate Spells(codes: seq<int>, s: Text) {
    (forall i :: 0 <= i < |codes| ==> Scalar(codes[i])) && Encoded(codes) == s
  }

  /** A text is valid exactly if it is a concatenation of encodings of scalar values. */
  lemma ValidIsEncoded(s: Text)
    ensures ValidUtf8(s) <==> exists codes: seq<int> :: Spells(codes, s)
  {
    if ValidUtf8(s) {
      var codes := Decoding(s);
      assert Spells(codes, s);
    }
    if codes: seq<int> :| Spells(codes, s) {
      EncodedIsValid(codes);
    }
  }

  lemma {:induction false} EncodedIsValid(codes: seq<int>)
    requires forall i :: 0 <= i < |codes| ==> Scalar(codes[i])
    ensures ValidUtf8(Encoded(codes))
  {
    hide RuneLength, Encoding;
    if codes != [] {
      var first, rest := Encoding(codes[0]), Encoded(codes[1..]);
      EncodedIsValid(codes[1..]);
      EncodingIsRune(codes[0], rest);
      assert (first + rest)[|first|..] == rest;
    }
  }

  /** The code points of a valid text. */
  lemma {:induction false} Decoding(s: Text) returns (codes: seq<int>)
    requires ValidUtf8(s)
    ensures Spells(codes, s)
    decreases |s|
  {
    hide RuneLength, Decoded, Encoding;
    if s == [] {
      codes := [];
    } else {
      var n := RuneLength(s);
      RuneIsEncoding(s);
      var rest := Decoding(s[n..]);
      codes := [Decoded(s)] + rest;
      assert codes[1..] == rest;
      assert s == s[..n] + s[n..];
    }
  }

  /** The normalizer waits exactly for the rest of an encoding. */
  lemma WaitsForEncoding(s: Text)
    ensures !FullRune(s) <==> Awaits(s)
  {
    if s != [] && !FullRune(s) {
      var c := Completed(s);
      assert s < Encoding(c);
    }
    if c :| Scalar(c) && s < Encoding(c) {
      EncodingIsRune(c, []);
      assert Encoding(c) + [] == Encoding(c);
      forall i | 0 <= i < |s|
        ensures s[i] == Encoding(c)[i]
      {
      }
    }
  }

  /** A scalar value whose encoding begins like this. */
  lemma Completed(s: Text) returns (c: int)
    requires s != [] && !FullRune(s)
    ensures Scalar(c) && s < Encoding(c)
  {
    var second: byte := if |s| > 1 then s[1] else if s[0] == 0xE0 then 0xA0 else if s[0] == 0xF0 then 0x90 else 0x80;
    var third: byte := if |s| > 2 then s[2] else 0x80;
    var whole := [s[0], second, third, 0x80][..LeadLength(s[0])];
    assert RuneLength(whole) == |whole|;
    assert s < whole;
    RuneIsEncoding(whole);
    c := Decoded(whole);
    assert whole[..|whole|] == whole;
  }

  ghost predicate BeginsEncoding(data: Text) {
    exists c :: Scalar(c) && Encoding(c) <= data
  }

  /** A byte that begins no encoding, with the continuation bytes after it, as many as it announces and no more. */
  ghost predicate MalformedGroup(group: Text, rest: Text) {
    && group != [] && !BeginsEncoding(group + rest)
    && |group| <= Max(1, LeadLength(group[0])) && (forall i :: 1 <= i < |group| ==> Continuation(group[i]))
    && (|group| == Max(1, LeadLength(group[0])) || rest == [] || !Continuation(rest[0]))
  }

  ghost predicate IsEncoding(group: Text) {
    exists c :: Scalar(c) && group == Encoding(c)
  }

  /** There is nothing, or the beginning of an encoding without its end. */
  ghost predicate Awaits(data: Text) {
    data == [] || exists c :: Scalar(c) && data < Encoding(c)
  }

  /** The data falls into these groups: encodings come out as they are, malformed groups as one replacement each. */
  ghost predicate Grouped(data: Text, groups: seq<Text>, out: Text, left: Text)
    decreases |groups|
  {
    if groups == [] then out == [] && left == data && Awaits(data)
    else
      var group := groups[0];
      && group <= data && !Awaits(data)
      && exists more: Text ::
           && Grouped(data[|group|..], groups[1..], more, left)
           && ((IsEncoding(group) && out == group + more)
               || (MalformedGroup(group, data[|group|..]) && out == REPLACEMENT + more))
  }

  lemma BeginsExactly(data: Text)
    ensures BeginsEncoding(data) <==> RuneLength(data) > 0
  {
    hide RuneLength, Encoding, Scalar;
    if c :| Scalar(c) && Encoding(c) <= data {
      RuneIsOneEncoding(data, c);
    }
    if RuneLength(data) > 0 {
      RuneIsEncoding(data);
    }
  }

  lemma InvalidSizeIsMaximal(data: Text)
    requires data != []
    ensures var n := InvalidSize(data);
      && 1 <= n <= |data| && n <= Max(1, LeadLength(data[0])) && (forall i :: 1 <= i < n ==> Continuation(data[i]))
      && (n == Max(1, LeadLength(data[0])) || n == |data| || !Continuation(data[n]))
  {
  }

  lemma MalformedSize(group: Text, rest: Text)
    requires MalformedGroup(group, rest)
    ensures RuneLength(group + rest) == 0 && InvalidSize(group + rest) == |group|
  {
    hide RuneLength, BeginsEncoding, LeadLength;
    BeginsExactly(group + rest);
    InvalidSizeIsMaximal(group + rest);
    hide InvalidSize;
    var data, n := group + rest, InvalidSize(group + rest);
    assert data[0] == group[0];
    assert forall i :: 0 <= i < |group| ==> data[i] == group[i];
    assert rest != [] ==> data[|group|] == rest[0];
  }

  /** One group of the data, as it is spelled and as the normalizer takes it. */
  lemma GroupTaken(data: Text, group: Text)
    requires group <= data && FullRune(data)
    ensures IsEncoding(group) ==> RuneLength(data) == |group| > 0
    ensures MalformedGroup(group, data[|group|..]) ==> RuneLength(data) == 0 && InvalidSize(data) == |group| > 0
  {
    hide RuneLength, InvalidSize, FullRune, MalformedGroup, Encoding, Scalar;
    assert group + data[|group|..] == data;
    if IsEncoding(group) {
      var c :| Scalar(c) && group == Encoding(c);
      RuneIsOneEncoding(data, c);
    }
    if MalformedGroup(group, data[|group|..]) {
      MalformedSize(group, data[|group|..]);
      assert |group| > 0;
    }
  }

  /** The groups that the normalizer takes. */
  lemma {:induction false} Groups(data: Text) returns (groups: seq<Text>)
    ensures Grouped(data, groups, Emitted(data), Kept(data))
    decreases |data|
  {
    hide RuneLength, InvalidSize, FullRune, MalformedGroup, IsEncoding, Awaits;
    WaitsForEncoding(data);
    if !FullRune(data) {
      groups := [];
    } else {
      NextGroup(data);
      var n := if RuneLength(data) > 0 then RuneLength(data) else InvalidSize(data);
      var rest := Groups(data[n..]);
      groups := [data[..n]] + rest;
      assert groups[1..] == rest && groups[0] == data[..n];
      assert data[|data[..n]|..] == data[n..];
    }
  }

  lemma NextGroup(data: Text)
    requires FullRune(data)
    ensures RuneLength(data) > 0 ==> IsEncoding(data[..RuneLength(data)])
    ensures RuneLength(data) == 0 ==> MalformedGroup(data[..InvalidSize(data)], data[InvalidSize(data)..])
  {
    hide RuneLength, Encoding, Scalar, BeginsEncoding;
    if RuneLength(data) > 0 {
      RuneIsEncoding(data);
    } else {
      BeginsExactly(data);
      InvalidSizeIsMaximal(data);
      var n := InvalidSize(data);
      assert data[..n] + data[n..] == data;
    }
  }

  lemma NothingTaken(data: Text)
    requires !FullRune(data)
    ensures Emitted(data) == [] && Kept(data) == data
  {
  }

  /** What is written, and what is kept, is what these groups give, and nothing else. */
  lemma {:induction false} GroupsDecide(data: Text, groups: seq<Text>, out: Text, left: Text)
    requires Grouped(data, groups, out, left)
    ensures out == Emitted(data) && left == Kept(data)
    decreases |groups|
  {
    hide RuneLength, InvalidSize, FullRune, MalformedGroup, IsEncoding, Awaits, Emitted, Kept;
    WaitsForEncoding(data);
    if groups == [] {
      NothingTaken(data);
    } else {
      var group := groups[0];
      var more: Text :|
        && Grouped(data[|group|..], groups[1..], more, left)
        && ((IsEncoding(group) && out == group + more)
            || (MalformedGroup(group, data[|group|..]) && out == REPLACEMENT + more));
      GroupTaken(data, group);
      GroupsDecide(data[|group|..], groups[1..], more, left);
      if RuneLength(data) > 0 {
        TakeRune(data);
      } else {
        TakeGroup(data);
      }
    }
  }

  /** On any bytes: exactly what falls out of the groups is handed on, and exactly an unfinished encoding is kept. */
  lemma NormalizedExactly(data: Text, out: Text, left: Text)
    ensures (exists groups: seq<Text> :: Grouped(data, groups, out, left)) <==> out == Emitted(data) && left == Kept(data)
  {
    hide Grouped, Emitted, Kept;
    if groups: seq<Text> :| Grouped(data, groups, out, left) {
      GroupsDecide(data, groups, out, left);
    }
    if out == Emitted(data) && left == Kept(data) {
      var groups := Groups(data);
    }
  }
}
