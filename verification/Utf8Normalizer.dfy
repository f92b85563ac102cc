/** Replaces malformed UTF-8 while streaming; a rune may arrive in pieces. */
module Utf8Normalizer {
  import opened Bytes
  import opened Utf8

  const REPLACEMENT: Text := [0xEF, 0xBF, 0xBD] // U+FFFD

  /** The text starts with a whole rune, or with something that can no longer become one. */
  predicate FullRune(s: Text) {
    s != [] &&
    var n := LeadLength(s[0]);
    n == 0 || |s| >= n || (|s| > 1 && !SecondByteOk(s[0], s[1])) || (|s| > 2 && !Continuation(s[2]))
  }

  function ExpectedLength(b: byte): nat {
    if 0xC2 <= b <= 0xDF then 2 else if 0xE0 <= b <= 0xEF then 3 else if 0xF0 <= b <= 0xF4 then 4 else 1
  }

  /** How much of a malformed start is dropped; only the bytes in hand count. */
  method InvalidSequenceSize(data: Text) returns (size: nat)
    requires data != []
    ensures size == InvalidSize(data)
    ensures 1 <= size <= |data| && size <= Max(1, LeadLength(data[0])) && (forall i :: 1 <= i < size ==> Continuation(data[i]))
    ensures size == Max(1, LeadLength(data[0])) || size == |data| || !Continuation(data[size])
  {
    var expected := ExpectedLength(data[0]);
    size := 1;
    while size < expected && size < |data| && Continuation(data[size])
      invariant 1 <= size <= |data| && size <= expected <= 4
      invariant forall i :: 1 <= i < size ==> Continuation(data[i])
    {
      size := size + 1;
    }
  }

  /** The leading byte with the continuation bytes after it, as many as it announces. */
  function InvalidSize(data: Text): (n: nat)
    requires data != []
    ensures 1 <= n <= |data|
  {
    var expected := ExpectedLength(data[0]);
    if expected == 1 || |data| == 1 || !Continuation(data[1]) then 1
    else if expected == 2 || |data| == 2 || !Continuation(data[2]) then 2
    else if expected == 3 || |data| == 3 || !Continuation(data[3]) then 3
    else 4
  }

  /** What comes out of the data at once. */
  function Emitted(data: Text): Text
    decreases |data|
  {
    if !FullRune(data) then []
    else if RuneLength(data) > 0 then data[..RuneLength(data)] + Emitted(data[RuneLength(data)..])
    else REPLACEMENT + Emitted(data[InvalidSize(data)..])
  }

  /** What is kept for the next write. */
  function Kept(data: Text): Text
    decreases |data|
  {
    if !FullRune(data) then data
    else if RuneLength(data) > 0 then Kept(data[RuneLength(data)..])
    else Kept(data[InvalidSize(data)..])
  }

  /** Whatever comes in, valid text comes out. */
  lemma {:induction false} EmittedIsValid(data: Text)
    ensures ValidUtf8(Emitted(data))
    decreases |data|
  {
    if FullRune(data) {
      var n := RuneLength(data);
      if n > 0 {
        EmittedIsValid(data[n..]);
        OneRuneIsValid(data);
        ValidConcat(data[..n], Emitted(data[n..]));
      } else {
        EmittedIsValid(data[InvalidSize(data)..]);
        ReplacementIsValid();
        ValidConcat(REPLACEMENT, Emitted(data[InvalidSize(data)..]));
      }
    }
  }

  lemma OneRuneIsValid(data: Text)
    requires RuneLength(data) > 0
    ensures ValidUtf8(data[..RuneLength(data)])
  {
    var rune := data[..RuneLength(data)];
    assert RuneLength(rune) == |rune|;
    assert rune[|rune|..] == [];
  }

  lemma ReplacementIsValid()
    ensures ValidUtf8(REPLACEMENT)
  {
    assert RuneLength(REPLACEMENT) == 3;
    assert REPLACEMENT[3..] == [];
  }

  /** A beginning of valid text. */
  ghost predicate Begins(part: Text) {
    exists rest: Text :: ValidUtf8(part + rest)
  }

  /** A full rune at the beginning of valid text is well formed, and the rest is such a beginning again. */
  lemma BeginsWithRune(part: Text)
    requires Begins(part) && FullRune(part)
    ensures RuneLength(part) > 0 && Begins(part[RuneLength(part)..])
  {
    var rest: Text :| ValidUtf8(part + rest);
    var all := part + rest;
    var n := RuneLength(all);
    assert |part| >= 1 && part[0] == all[0];
    assert forall i :: 0 <= i < |part| ==> part[i] == all[i];
    assert RuneLength(part) == n;
    assert all[n..] == part[n..] + rest;
  }

  lemma Regrouped(part: Text, n: nat, emitted: Text, kept: Text)
    requires n <= |part| && emitted + kept == part[n..]
    ensures part[..n] + emitted + kept == part
  {
    assert part[..n] + emitted + kept == part[..n] + (emitted + kept);
  }

  /** On valid text nothing is replaced: what came out and what is kept is what came in. */
  lemma {:induction false} NothingReplaced(part: Text)
    requires Begins(part)
    ensures Emitted(part) + Kept(part) == part
    decreases |part|
  {
    if FullRune(part) {
      hide FullRune, Begins, Emitted, Kept, RuneLength, InvalidSize;
      BeginsWithRune(part);
      var n := RuneLength(part);
      NothingReplaced(part[n..]);
      TakeRune(part);
      Regrouped(part, n, Emitted(part[n..]), Kept(part[n..]));
    } else {
      hide FullRune, Begins;
    }
  }

  lemma SameRune(a: Text, b: Text)
    requires FullRune(a) && RuneLength(a) > 0
    ensures FullRune(a + b) && RuneLength(a + b) == RuneLength(a)
  {
  }

  lemma TakeRune(data: Text)
    requires FullRune(data) && RuneLength(data) > 0
    ensures Emitted(data) == data[..RuneLength(data)] + Emitted(data[RuneLength(data)..])
    ensures Kept(data) == Kept(data[RuneLength(data)..])
  {
  }

  lemma BeginsShorter(a: Text, b: Text)
    requires Begins(a + b)
    ensures Begins(a)
  {
    var rest: Text :| ValidUtf8(a + b + rest);
    assert a + b + rest == a + (b + rest);
  }

  /** Valid text leaves nothing behind. */
  lemma {:induction false} NothingKept(data: Text)
    requires ValidUtf8(data)
    ensures Kept(data) == []
    decreases |data|
  {
    if data != [] {
      NothingKept(data[RuneLength(data)..]);
    }
  }

  class Normalizer {
    var pending: Text
    var output: Text

    constructor ()
      ensures pending == [] && output == []
    {
      pending, output := [], [];
    }

    method Write(content: Text)
      modifies this
      ensures output == old(output) + Emitted(old(pending) + content)
      ensures pending == Kept(old(pending) + content)
    {
      var data := pending + content;
      pending := [];
      while |data| > 0
        invariant pending == []
        invariant output + Emitted(data) == old(output) + Emitted(old(pending) + content)
        invariant Kept(data) == Kept(old(pending) + content)
        decreases |data|
      {
        if !FullRune(data) {
          pending := data;
          return;
        }
        var n := RuneLength(data);
        if n == 0 {
          output := output + REPLACEMENT;
          n := InvalidSequenceSize(data);
        } else {
          output := output + data[..n];
        }
        data := data[n..];
      }
    }

    method Finish()
      modifies this
      ensures pending == [] && output == old(output) + (if old(pending) != [] then REPLACEMENT else [])
    {
      if |pending| > 0 {
        output, pending := output + REPLACEMENT, [];
      }
    }
  }

  lemma EmptyIsValid()
    ensures ValidUtf8([]) && Emitted([]) == [] && Kept([]) == []
  {
  }

  /** The cut falls inside a malformed group that would otherwise have been replaced as one. */
  predicate Severed(a: Text, b: Text)
    decreases |a|
  {
    FullRune(a) &&
    if RuneLength(a) > 0 then Severed(a[RuneLength(a)..], b)
    else if InvalidSize(a) == |a| then InvalidSize(a + b) > |a|
    else Severed(a[InvalidSize(a)..], b)
  }

  lemma SameGroup(a: Text, b: Text)
    requires FullRune(a) && RuneLength(a) == 0
    ensures FullRune(a + b) && RuneLength(a + b) == 0
    ensures InvalidSize(a) < |a| ==> InvalidSize(a + b) == InvalidSize(a)
    ensures InvalidSize(a + b) >= InvalidSize(a)
    ensures forall i :: InvalidSize(a) <= i < InvalidSize(a + b) ==> Continuation((a + b)[i])
  {
  }

  lemma TakeGroup(data: Text)
    requires FullRune(data) && RuneLength(data) == 0
    ensures Emitted(data) == REPLACEMENT + Emitted(data[InvalidSize(data)..])
    ensures Kept(data) == Kept(data[InvalidSize(data)..])
  {
  }

  /** Stray continuation bytes are replaced one by one. */
  lemma {:induction false} StrayContinuations(b: Text, k: nat)
    requires k <= |b| && forall i :: 0 <= i < k ==> Continuation(b[i])
    ensures |Emitted(b)| == 3 * k + |Emitted(b[k..])| && Kept(b) == Kept(b[k..])
  {
    if k > 0 {
      assert b[1..][k - 1..] == b[k..];
      StrayContinuations(b[1..], k - 1);
      assert FullRune(b) && RuneLength(b) == 0 && InvalidSize(b) == 1;
    } else {
      assert b[0..] == b;
    }
  }

  /**
   * On any text, a cut changes the output exactly if it falls inside such a group, and then the output gets
   * longer.  What is kept never depends on the cut.
   */
  lemma {:induction false} CutMattersWhenSevered(a: Text, b: Text)
    ensures !Severed(a, b) ==> Emitted(a + b) == Emitted(a) + Emitted(Kept(a) + b)
    ensures Severed(a, b) ==> |Emitted(a + b)| < |Emitted(a)| + |Emitted(Kept(a) + b)|
    ensures Kept(a + b) == Kept(Kept(a) + b)
    decreases |a|
  {
    hide FullRune, RuneLength, Emitted, Kept, InvalidSize;
    if !FullRune(a) {
      NothingTaken(a);
      assert [] + Emitted(a + b) == Emitted(a + b);
    } else if RuneLength(a) > 0 {
      var n := RuneLength(a);
      SameRune(a, b);
      assert (a + b)[n..] == a[n..] + b && (a + b)[..n] == a[..n];
      TakeRune(a);
      TakeRune(a + b);
      CutMattersWhenSevered(a[n..], b);
    } else {
      SameGroup(a, b);
      TakeGroup(a);
      TakeGroup(a + b);
      var n := InvalidSize(a);
      if n < |a| {
        assert (a + b)[n..] == a[n..] + b;
        CutMattersWhenSevered(a[n..], b);
      } else {
        var k := InvalidSize(a + b) - |a|;
        assert a[n..] == [] && (a + b)[n + k..] == b[k..];
        EmptyIsValid();
        assert Kept(a) + b == b && Emitted(a) == REPLACEMENT;
        assert forall i :: 0 <= i < k ==> b[i] == (a + b)[n + i];
        StrayContinuations(b, k);
        assert k == 0 ==> b[k..] == b;
      }
    }
  }

  lemma NothingTaken(a: Text)
    requires !FullRune(a)
    ensures Emitted(a) == [] && Kept(a) == a
  {
  }

  // ---- All ways of cutting a stream ----

  /** What comes out of the writes, one after the other. */
  function Written(pending: Text, chunks: seq<Text>): Text
    decreases chunks
  {
    if chunks == [] then []
    else Emitted(pending + chunks[0]) + Written(Kept(pending + chunks[0]), chunks[1..])
  }

  /** What is kept after all of them. */
  function Left(pending: Text, chunks: seq<Text>): Text
    decreases chunks
  {
    if chunks == [] then pending else Left(Kept(pending + chunks[0]), chunks[1..])
  }

  /** No end of a write falls inside a malformed group. */
  predicate NoneSevered(pending: Text, chunks: seq<Text>)
    decreases chunks
  {
    chunks == [] ||
    (!Severed(pending + chunks[0], Flatten(chunks[1..])) && NoneSevered(Kept(pending + chunks[0]), chunks[1..]))
  }

  lemma {:induction false} KeptIsOpen(data: Text)
    ensures !FullRune(Kept(data))
    decreases |data|
  {
    if FullRune(data) {
      KeptIsOpen(data[if RuneLength(data) > 0 then RuneLength(data) else InvalidSize(data)..]);
    }
  }

  /** The writes give what one write of the whole gives, exactly if no cut falls inside a malformed group. */
  lemma {:induction false} CutsMatterWhenSevered(pending: Text, chunks: seq<Text>)
    requires !FullRune(pending)
    ensures Left(pending, chunks) == Kept(pending + Flatten(chunks))
    ensures NoneSevered(pending, chunks) ==> Written(pending, chunks) == Emitted(pending + Flatten(chunks))
    ensures |Written(pending, chunks)| >= |Emitted(pending + Flatten(chunks))|
    ensures !NoneSevered(pending, chunks) ==> |Written(pending, chunks)| > |Emitted(pending + Flatten(chunks))|
    decreases chunks
  {
    hide FullRune, Emitted, Kept, Severed;
    if chunks == [] {
      NothingTaken(pending);
      assert pending + Flatten(chunks) == pending;
    } else {
      var a, b := pending + chunks[0], Flatten(chunks[1..]);
      assert pending + Flatten(chunks) == a + b;
      KeptIsOpen(a);
      CutsMatterWhenSevered(Kept(a), chunks[1..]);
      CutMattersWhenSevered(a, b);
    }
  }

  lemma {:induction false} WrittenAppend(pending: Text, chunks: seq<Text>, last: Text)
    ensures Written(pending, chunks + [last]) == Written(pending, chunks) + Emitted(Left(pending, chunks) + last)
    ensures Left(pending, chunks + [last]) == Kept(Left(pending, chunks) + last)
    decreases chunks
  {
    hide Emitted, Kept;
    var all := chunks + [last];
    if chunks == [] {
      assert all[1..] == [];
    } else {
      assert all[1..] == chunks[1..] + [last] && all[0] == chunks[0];
      WrittenAppend(Kept(pending + chunks[0]), chunks[1..], last);
    }
  }

  /** The whole stream in one write, with the end of the stream. */
  function Whole(text: Text): Text {
    Emitted(text) + Tail(Kept(text))
  }

  function Tail(kept: Text): Text {
    if kept == [] then [] else REPLACEMENT
  }

  lemma NothingWritten(chunks: seq<Text>)
    requires chunks == []
    ensures Written([], chunks) == [] && Left([], chunks) == []
  {
  }

  lemma NothingOpen()
    ensures !FullRune([])
  {
  }

  lemma SameTail(x: Text, y: Text, tail: Text)
    ensures x + tail == y + tail <==> x == y
  {
    if x + tail == y + tail {
      assert x == (x + tail)[..|x + tail| - |tail|] && y == (y + tail)[..|x + tail| - |tail|];
    }
  }

  lemma BeginsItself(text: Text)
    requires ValidUtf8(text)
    ensures Begins(text)
  {
    assert text + [] == text;
  }

  /** Valid text has no malformed group to cut. */
  lemma {:induction false} ValidIsNeverSevered(pending: Text, chunks: seq<Text>)
    requires Begins(pending + Flatten(chunks))
    ensures NoneSevered(pending, chunks)
    decreases chunks
  {
    hide FullRune, Emitted, Kept, Severed, Begins;
    if chunks != [] {
      var a, b := pending + chunks[0], Flatten(chunks[1..]);
      assert pending + Flatten(chunks) == a + b;
      NeverSevered(a, b);
      KeptBegins(a, b);
      ValidIsNeverSevered(Kept(a), chunks[1..]);
    }
  }

  lemma {:induction false} NeverSevered(a: Text, b: Text)
    requires Begins(a + b)
    ensures !Severed(a, b)
    decreases |a|
  {
    hide FullRune, RuneLength, Begins, InvalidSize;
    if FullRune(a) {
      BeginsShorter(a, b);
      BeginsWithRune(a);
      SameRune(a, b);
      BeginsWithRune(a + b);
      var n := RuneLength(a);
      assert (a + b)[n..] == a[n..] + b;
      NeverSevered(a[n..], b);
    }
  }

  lemma {:induction false} KeptBegins(a: Text, b: Text)
    requires Begins(a + b)
    ensures Begins(Kept(a) + b)
    decreases |a|
  {
    hide FullRune, RuneLength, Begins, InvalidSize;
    if FullRune(a) {
      BeginsShorter(a, b);
      BeginsWithRune(a);
      SameRune(a, b);
      BeginsWithRune(a + b);
      var n := RuneLength(a);
      assert (a + b)[n..] == a[n..] + b;
      KeptBegins(a[n..], b);
    }
  }

  /** One write alone is never cut. */
  lemma OneWrite(text: Text)
    ensures NoneSevered([], [text])
  {
    assert [] + text == text && [text][1..] == [];
    NotSeveredBefore(text, []);
  }

  /** A cut before something that does not continue a rune falls inside no group. */
  lemma {:induction false} NotSeveredBefore(a: Text, b: Text)
    requires b == [] || !Continuation(b[0])
    ensures !Severed(a, b)
    decreases |a|
  {
    hide RuneLength, InvalidSize, Continuation;
    if a != [] && FullRune(a) {
      if RuneLength(a) > 0 {
        NotSeveredBefore(a[RuneLength(a)..], b);
      } else if InvalidSize(a) == |a| {
        SameGroup(a, b);
        assert b != [] ==> (a + b)[|a|] == b[0];
      } else {
        NotSeveredBefore(a[InvalidSize(a)..], b);
      }
    }
  }

  /** An unfinished rune becomes one replacement when something follows that does not continue it. */
  lemma UnfinishedReplaced(kept: Text, tail: Text)
    requires !FullRune(kept) && kept != [] && tail != [] && !Continuation(tail[0])
    ensures FullRune(kept + tail) && RuneLength(kept + tail) == 0 && InvalidSize(kept + tail) == |kept|
  {
    var data := kept + tail;
    assert data[0] == kept[0] && data[|kept|] == tail[0];
    assert |kept| > 1 ==> data[1] == kept[1];
    assert |kept| > 2 ==> data[2] == kept[2];
  }

  /** So text is normalized before such a place as if it ended there. */
  lemma WholeBefore(before: Text, tail: Text)
    requires tail != [] && !Continuation(tail[0])
    ensures Emitted(before + tail) == Whole(before) + Emitted(tail) && Kept(before + tail) == Kept(tail)
  {
    hide FullRune, RuneLength, InvalidSize, Emitted, Kept, Severed, Continuation;
    NotSeveredBefore(before, tail);
    CutMattersWhenSevered(before, tail);
    var kept := Kept(before);
    if kept == [] {
      assert kept + tail == tail && Whole(before) == Emitted(before);
    } else {
      KeptIsOpen(before);
      UnfinishedReplaced(kept, tail);
      TakeGroup(kept + tail);
      assert (kept + tail)[|kept|..] == tail;
      assert Emitted(before) + (REPLACEMENT + Emitted(tail)) == Emitted(before) + REPLACEMENT + Emitted(tail);
    }
  }

  lemma ValidStart(s: Text)
    requires s != [] && ValidUtf8(s)
    ensures FullRune(s) && RuneLength(s) > 0 && ValidUtf8(s[RuneLength(s)..])
  {
  }

  /** Valid text comes out at once, before anything else. */
  lemma {:induction false} ValidComesOut(s: Text, b: Text)
    requires ValidUtf8(s)
    ensures Emitted(s + b) == s + Emitted(b) && Kept(s + b) == Kept(b)
    decreases |s|
  {
    hide Emitted, Kept, FullRune, RuneLength, ValidUtf8;
    if s == [] {
      assert s + b == b && s + Emitted(b) == Emitted(b);
    } else {
      ValidStart(s);
      var n := RuneLength(s);
      SameRune(s, b);
      TakeRune(s + b);
      SplitTail(s, n, b);
      ValidComesOut(s[n..], b);
      SplitTail(s, n, Emitted(b));
    }
  }

  lemma SplitTail(s: Text, n: nat, b: Text)
    requires n <= |s|
    ensures (s + b)[..n] == s[..n] && (s + b)[n..] == s[n..] + b && s[..n] + (s[n..] + b) == s + b
  {
  }

  /**
   * For every stream and every way of cutting it: valid text comes out, valid text comes out unchanged, and
   * the cuts do not matter exactly if none falls inside a malformed group.
   */
  method NormalizeStream(chunks: seq<Text>) returns (output: Text)
    ensures ValidUtf8(output)
    ensures ValidUtf8(Flatten(chunks)) ==> output == Flatten(chunks)
    ensures output == Written([], chunks) + Tail(Left([], chunks))
    ensures output == Whole(Flatten(chunks)) <==> NoneSevered([], chunks)
  {
    hide ValidUtf8, Emitted, Kept, Written, Left, NoneSevered, FullRune;
    var n := new Normalizer();
    EmptyIsValid();
    assert Written([], chunks[..0]) == [] && Left([], chunks[..0]) == [] by {
      NothingWritten(chunks[..0]);
    }
    for i := 0 to |chunks|
      invariant ValidUtf8(n.output)
      invariant n.output == Written([], chunks[..i]) && n.pending == Left([], chunks[..i])
    {
      assert chunks[..i + 1] == chunks[..i] + [chunks[i]];
      WrittenAppend([], chunks[..i], chunks[i]);
      EmittedIsValid(n.pending + chunks[i]);
      ValidConcat(n.output, Emitted(n.pending + chunks[i]));
      n.Write(chunks[i]);
    }
    assert chunks[..|chunks|] == chunks;
    ghost var text := Flatten(chunks);
    assert [] + text == text;
    NothingOpen();
    CutsMatterWhenSevered([], chunks);
    if ValidUtf8(text) {
      BeginsItself(text);
      ValidIsNeverSevered([], chunks);
      NothingKept(text);
      NothingReplaced(text);
    }
    ReplacementIsValid();
    ValidConcat(n.output, REPLACEMENT);
    SameTail(n.output, Emitted(text), Tail(n.pending));
    assert n.output + [] == n.output;
    n.Finish();
    output := n.output;
  }

  /** On malformed text the cut does matter: the same three bytes give one replacement or two. */
  lemma MalformedDependsOnCut()
    ensures Emitted([0xE0, 0x80, 0x80]) == REPLACEMENT
    ensures Emitted([0xE0, 0x80]) + Emitted(Kept([0xE0, 0x80]) + [0x80]) == REPLACEMENT + REPLACEMENT
  {
    var whole: Text := [0xE0, 0x80, 0x80];
    assert InvalidSize(whole) == 3 && whole[3..] == [];
    var first: Text := [0xE0, 0x80];
    assert InvalidSize(first) == 2 && first[2..] == [];
    var second: Text := [0x80];
    assert InvalidSize(second) == 1 && second[1..] == [];
    assert Kept(first) + [0x80] == second;
  }
}
