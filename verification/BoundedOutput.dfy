/**
 * The capped live output: two streams under one limit.  When an append would overflow, bytes
 * already written are taken back, using a short record of what was appended last, to make room
 * for a marker.
 */
module BoundedOutput {
  import opened Bytes
  import opened Utf8

  datatype Stream = Stdout | Stderr

  datatype RawTail = RawTail(stream: Stream, bytes: nat)

  /** The bytes of `[... output truncated ...]`. */
  const TOTAL_TRUNCATION_MARKER: Text :=
    [91, 46, 46, 46, 32, 111, 117, 116, 112, 117, 116, 32, 116, 114, 117, 110, 99, 97, 116, 101, 100, 32, 46, 46, 46, 93]

  const MARKER_BYTES := 26

  function TailBytes(tail: seq<RawTail>): nat {
    if tail == [] then 0 else TailBytes(tail[..|tail| - 1]) + tail[|tail| - 1].bytes
  }

  /**
   * The record fits one stream's text: read backwards, its entries for that stream are the last
   * bytes appended, and every entry but the oldest begins where the text before it is whole.
   */
  ghost predicate Anchored(tail: seq<RawTail>, text: Text, stream: Stream) {
    tail == [] ||
    var n := |tail| - 1;
    if tail[n].stream != stream then Anchored(tail[..n], text, stream)
    else
      && tail[n].bytes <= |text|
      && (n > 0 ==> ValidUtf8(text[..|text| - tail[n].bytes]))
      && Anchored(tail[..n], text[..|text| - tail[n].bytes], stream)
  }

  lemma {:induction false} AnchoredWithoutFirst(tail: seq<RawTail>, text: Text, stream: Stream)
    requires tail != [] && Anchored(tail, text, stream)
    ensures Anchored(tail[1..], text, stream)
    decreases |tail|
  {
    var n := |tail| - 1;
    if n > 0 {
      assert tail[1..][..n - 1] == tail[..n][1..];
      AnchoredWithoutFirst(tail[..n], if tail[n].stream == stream then text[..|text| - tail[n].bytes] else text, stream);
    }
  }

  lemma {:induction false} AnchoredShorterFirst(tail: seq<RawTail>, text: Text, stream: Stream, bytes: nat)
    requires tail != [] && Anchored(tail, text, stream) && bytes <= tail[0].bytes
    ensures Anchored(tail[0 := tail[0].(bytes := bytes)], text, stream)
    decreases |tail|
  {
    var n := |tail| - 1;
    if n > 0 {
      assert tail[0 := tail[0].(bytes := bytes)][..n] == tail[..n][0 := tail[0].(bytes := bytes)];
      AnchoredShorterFirst(tail[..n], if tail[n].stream == stream then text[..|text| - tail[n].bytes] else text, stream, bytes);
    }
  }

  lemma {:induction false} TailBytesSplit(tail: seq<RawTail>)
    requires tail != []
    ensures TailBytes(tail) == tail[0].bytes + TailBytes(tail[1..])
    decreases |tail|
  {
    var n := |tail| - 1;
    if n > 0 {
      assert tail[1..][..n - 1] == tail[..n][1..];
      TailBytesSplit(tail[..n]);
    }
  }

  /** The record without its newest `count` bytes. */
  function Consumed(tail: seq<RawTail>, count: nat): seq<RawTail> {
    if count == 0 || tail == [] then tail
    else
      var n := |tail| - 1;
      if tail[n].bytes <= count then Consumed(tail[..n], count - tail[n].bytes)
      else tail[n := tail[n].(bytes := tail[n].bytes - count)]
  }

  /** Taking the newest bytes back from the text and from the record keeps the two in step. */
  lemma AnchoredAfterRemoval(tail: seq<RawTail>, text: Text, removed: nat)
    requires tail != [] && 0 < removed <= |text|
    requires Anchored(tail, text, tail[|tail| - 1].stream)
    requires |tail| > 1 ==> removed <= tail[|tail| - 1].bytes
    ensures Anchored(Consumed(tail, removed), text[..|text| - removed], tail[|tail| - 1].stream)
  {
    var n := |tail| - 1;
    var last := tail[n];
    if removed < last.bytes {
      assert Consumed(tail, removed)[..n] == tail[..n];
      assert text[..|text| - removed][..|text| - last.bytes] == text[..|text| - last.bytes];
    }
  }

  lemma NonemptyTail(tail: seq<RawTail>)
    ensures TailBytes(tail) > 0 ==> tail != []
  {
  }

  lemma OldestPart(tail: seq<RawTail>, text: Text)
    requires tail != [] && Anchored(tail, text, tail[|tail| - 1].stream)
    ensures tail[|tail| - 1].bytes <= |text|
    ensures |tail| > 1 ==> ValidUtf8(text[..|text| - tail[|tail| - 1].bytes])
    ensures |tail| == 1 ==> TailBytes(tail) == tail[0].bytes
  {
  }

  lemma AnchoredElsewhere(tail: seq<RawTail>, text: Text, removed: nat, stream: Stream)
    requires tail != [] && 0 < removed && stream != tail[|tail| - 1].stream
    requires Anchored(tail, text, stream)
    requires |tail| > 1 ==> removed <= tail[|tail| - 1].bytes
    ensures Anchored(Consumed(tail, removed), text, stream)
  {
    var n := |tail| - 1;
    if removed < tail[n].bytes {
      assert Consumed(tail, removed)[..n] == tail[..n];
    }
  }

  lemma ConsumedBytes(tail: seq<RawTail>, removed: nat)
    requires tail != [] && removed <= tail[|tail| - 1].bytes
    ensures TailBytes(Consumed(tail, removed)) == TailBytes(tail) - removed
  {
    var n := |tail| - 1;
    if 0 < removed < tail[n].bytes {
      assert Consumed(tail, removed)[..n] == tail[..n];
    }
  }

  /** The recorded bytes of one stream. */
  function StreamBytes(tail: seq<RawTail>, stream: Stream): nat {
    if tail == [] then 0
    else StreamBytes(tail[..|tail| - 1], stream) + if tail[|tail| - 1].stream == stream then tail[|tail| - 1].bytes else 0
  }

  lemma ConsumedStream(tail: seq<RawTail>, removed: nat, stream: Stream)
    requires tail != [] && 0 < removed <= tail[|tail| - 1].bytes
    ensures StreamBytes(Consumed(tail, removed), stream) ==
      StreamBytes(tail, stream) - if stream == tail[|tail| - 1].stream then removed else 0
  {
    var n := |tail| - 1;
    if removed < tail[n].bytes {
      assert Consumed(tail, removed)[..n] == tail[..n];
    }
  }

  /** Taking bytes off in several rounds is taking them off at once. */
  lemma {:induction false} ConsumedTwice(tail: seq<RawTail>, a: nat, b: nat)
    requires Positive(tail)
    ensures Consumed(Consumed(tail, a), b) == Consumed(tail, a + b)
    decreases |tail|
  {
    if tail != [] && a > 0 {
      var n := |tail| - 1;
      if tail[n].bytes <= a {
        ConsumedTwice(tail[..n], a - tail[n].bytes, b);
      } else {
        assert Consumed(tail, a)[..n] == tail[..n];
      }
    }
  }

  lemma NothingConsumed(tail: seq<RawTail>)
    ensures Consumed(tail, 0) == tail
  {
  }

  lemma NothingLeft(tail: seq<RawTail>, removed: nat)
    requires |tail| == 1 && tail[0].bytes <= removed && 0 < removed
    ensures Consumed(tail, removed) == []
  {
  }

  ghost predicate Positive(tail: seq<RawTail>) {
    forall k :: 0 <= k < |tail| ==> tail[k].bytes > 0
  }

  function Other(stream: Stream): Stream {
    if stream == Stdout then Stderr else Stdout
  }

  /** The marker, cut down when it does not fit at all. */
  function MarkerFor(maximum: nat): Text {
    TOTAL_TRUNCATION_MARKER[..Min(MARKER_BYTES, maximum)]
  }

  lemma MarkerIsWhole(maximum: nat)
    ensures ValidUtf8(MarkerFor(maximum)) && |MarkerFor(maximum)| == Min(MARKER_BYTES, maximum)
  {
    AsciiIsValid(MarkerFor(maximum));
  }

  /**
   * What is left of a stream whose append overflowed: a beginning of what it had, a beginning of the new piece
   * that fills the room left beside the other stream, and the marker.  If something had to go, at most three bytes of
   * the new piece are put in its place.
   */
  ghost predicate CutInto(before: Text, content: Text, after: Text, kept: Text, prefix: Text, other: nat, maximum: nat) {
    var target := maximum - Min(MARKER_BYTES, maximum);
    && kept <= before && prefix <= content && after == kept + prefix + MarkerFor(maximum)
    && ValidUtf8(kept) && |kept| + other + 3 >= Min(|before|, target)
    && (kept == before || |prefix| <= 3)
    && forall n :: 0 <= n <= |content| && n <= target - |kept| - other && ValidUtf8(content[..n]) ==> n <= |prefix|
  }

  ghost predicate Overflowed(before: Text, content: Text, after: Text, other: nat, maximum: nat) {
    exists kept: Text, prefix: Text :: CutInto(before, content, after, kept, prefix, other, maximum)
  }

  lemma AnchoredAfterAppend(tail: seq<RawTail>, text: Text, stream: Stream, target: Stream, content: Text)
    requires Anchored(tail, text, stream) && ValidUtf8(text)
    ensures Anchored(tail + [RawTail(target, |content|)], if stream == target then text + content else text, stream)
  {
    var longer := tail + [RawTail(target, |content|)];
    assert longer[..|tail|] == tail;
    assert (text + content)[..|text|] == text;
  }

  class BoundedOutput {
    var stdout: Text
    var stderr: Text
    var tail: seq<RawTail>
    var tailBytes: nat
    var captured: nat
    const maximum: nat
    var truncated: bool

    function Buffer(stream: Stream): Text
      reads this
    {
      if stream == Stdout then stdout else stderr
    }

    ghost predicate Counted()
      reads this
    {
      captured == |stdout| + |stderr| && ValidUtf8(stdout) && ValidUtf8(stderr)
    }

    /** The record of the last appends fits both streams. */
    ghost predicate Recorded()
      reads this
    {
      && tailBytes == TailBytes(tail)
      && Positive(tail)
      && Anchored(tail, stdout, Stdout)
      && Anchored(tail, stderr, Stderr)
    }

    /** The record covers the last marker's worth of everything captured. */
    ghost predicate Valid()
      reads this
    {
      && Counted()
      && captured <= maximum
      && (!truncated ==> Recorded() && tailBytes == Min(captured, MARKER_BYTES))
    }

    constructor (maximum: nat)
      ensures this.maximum == maximum && Valid() && !truncated && stdout == [] && stderr == []
    {
      this.maximum := maximum;
      stdout, stderr, tail, tailBytes, captured, truncated := [], [], [], 0, 0, false;
    }

    method AppendStream(stream: Stream, content: Text)
      modifies this`stdout, this`stderr
      ensures Buffer(stream) == old(Buffer(stream)) + content
      ensures stream != Stdout ==> stdout == old(stdout)
      ensures stream != Stderr ==> stderr == old(stderr)
    {
      match stream
      case Stdout => stdout := stdout + content;
      case Stderr => stderr := stderr + content;
    }

    /** Cuts at least `count` bytes from the end of a stream, and at most three more. */
    method TruncateStream(stream: Stream, count: nat) returns (removed: nat)
      requires ValidUtf8(Buffer(stream)) && count <= |Buffer(stream)|
      modifies this`stdout, this`stderr
      ensures stream != Stdout ==> stdout == old(stdout)
      ensures stream != Stderr ==> stderr == old(stderr)
      ensures count <= removed <= count + 3 && removed <= old(|Buffer(stream)|)
      ensures Buffer(stream) == old(Buffer(stream))[..old(|Buffer(stream)|) - removed]
      ensures ValidUtf8(Buffer(stream))
      ensures forall n :: 0 <= n <= old(|Buffer(stream)|) - count && ValidUtf8(old(Buffer(stream))[..n]) ==>
                n <= |Buffer(stream)|
    {
      var buffer := Buffer(stream);
      var newLength := Max(0, |buffer| - count);
      var content := TrimToValid(buffer[..newLength]);
      ghost var kept := CutLosesLittle(buffer, newLength);
      assert buffer[..newLength][..kept] == buffer[..kept];
      removed := |buffer| - |content|;
      forall n | 0 <= n <= newLength && ValidUtf8(buffer[..n])
        ensures n <= |content|
      {
        assert buffer[..newLength][..n] == buffer[..n];
      }
      match stream
      case Stdout => stdout := content;
      case Stderr => stderr := content;
    }

    /** Drops the newest `count` bytes of the record. */
    method ConsumeTail(count: nat)
      requires tailBytes == TailBytes(tail) && Positive(tail)
      modifies this`tail, this`tailBytes
      ensures tailBytes == TailBytes(tail) && Positive(tail)
      ensures tail == Consumed(old(tail), count)
    {
      var left: nat := count;
      while left > 0 && |tail| > 0
        invariant tailBytes == TailBytes(tail) && Positive(tail)
        invariant Consumed(tail, left) == Consumed(old(tail), count)
      {
        var lastIndex := |tail| - 1;
        var remove := Min(left, tail[lastIndex].bytes);
        ghost var before := tail;
        tail := tail[lastIndex := tail[lastIndex].(bytes := tail[lastIndex].bytes - remove)];
        assert tail[..lastIndex] == before[..lastIndex];
        tailBytes := tailBytes - remove;
        left := left - remove;
        if tail[lastIndex].bytes == 0 {
          tail := tail[..lastIndex];
        }
      }
    }

    /** One round of taking back bytes: from the stream that was written last. */
    method RemoveLast(count: nat) returns (removed: nat)
      requires Counted() && Recorded() && 0 < count <= tailBytes
      modifies this`stdout, this`stderr, this`tail, this`tailBytes, this`captured
      ensures Counted() && Recorded()
      ensures stdout <= old(stdout) && stderr <= old(stderr)
      ensures captured + removed == old(captured) && 0 < removed <= count + 3
      ensures count <= removed || (removed < count && tailBytes + removed == old(tailBytes))
      ensures tail == Consumed(old(tail), removed)
      ensures tail != [] ==> forall s :: old(|Buffer(s)|) - |Buffer(s)| == StreamBytes(old(tail), s) - StreamBytes(tail, s)
    {
      hide Anchored;
      hide ValidUtf8;
      hide TailBytes;
      hide Consumed;
      hide StreamBytes;
      NonemptyTail(tail);
      var last := tail[|tail| - 1];
      ghost var text := Buffer(last.stream);
      OldestPart(tail, text);
      var remove := Min(count, last.bytes);
      removed := TruncateStream(last.stream, remove);
      captured := captured - removed;
      assert |tail| > 1 ==> removed <= last.bytes;
      AnchoredAfterRemoval(tail, text, removed);
      AnchoredElsewhere(tail, if last.stream == Stdout then stderr else stdout, removed,
                        if last.stream == Stdout then Stderr else Stdout);
      if removed < count {
        ConsumedBytes(tail, removed);
      }
      ghost var before := tail;
      ConsumeTail(removed);
      if removed <= last.bytes {
        ConsumedStream(before, removed, Stdout);
        ConsumedStream(before, removed, Stderr);
      } else {
        NothingLeft(before, removed);
      }
    }

    /**
     * Takes back at least `count` bytes, and at most three more, newest first: exactly the newest bytes leave the
     * record, and each stream loses its own part of them.
     */
    method RemoveTail(count: nat)
      requires Counted() && Recorded() && count <= tailBytes
      modifies this`stdout, this`stderr, this`tail, this`tailBytes, this`captured
      ensures Counted() && Recorded()
      ensures stdout <= old(stdout) && stderr <= old(stderr)
      ensures old(captured) - count - 3 <= captured <= old(captured) - count
      ensures tail == Consumed(old(tail), old(captured) - captured)
      ensures tail != [] ==> forall s :: old(|Buffer(s)|) - |Buffer(s)| == StreamBytes(old(tail), s) - StreamBytes(tail, s)
    {
      hide Anchored;
      hide ValidUtf8;
      hide Consumed;
      hide StreamBytes;
      NothingConsumed(tail);
      var left: int := count;
      while left > 0 && |tail| > 0
        invariant Counted() && Recorded()
        invariant stdout <= old(stdout) && stderr <= old(stderr)
        invariant captured == old(captured) - count + left && -3 <= left <= tailBytes && captured <= old(captured)
        invariant tail == Consumed(old(tail), old(captured) - captured)
        invariant tail != [] ==> forall s :: old(|Buffer(s)|) - |Buffer(s)| == StreamBytes(old(tail), s) - StreamBytes(tail, s)
      {
        ghost var so := old(captured) - captured;
        var removed := RemoveLast(left);
        ConsumedTwice(old(tail), so, removed);
        left := left - removed;
        if removed == 0 {
          return;
        }
      }
    }

    /** Records an append and forgets what no marker can ever need. */
    method TrackTail(stream: Stream, count: nat)
      requires tailBytes == TailBytes(tail) && Positive(tail) && count > 0
      requires Anchored(tail + [RawTail(stream, count)], stdout, Stdout)
      requires Anchored(tail + [RawTail(stream, count)], stderr, Stderr)
      modifies this`tail, this`tailBytes
      ensures Recorded() && tailBytes == Min(old(tailBytes) + count, MARKER_BYTES)
    {
      hide ValidUtf8;
      assert (tail + [RawTail(stream, count)])[..|tail|] == tail;
      tail := tail + [RawTail(stream, count)];
      tailBytes := tailBytes + count;
      ghost var total := tailBytes;
      while tailBytes > MARKER_BYTES && |tail| > 0
        invariant Recorded()
        invariant if total <= MARKER_BYTES then tailBytes == total else MARKER_BYTES <= tailBytes
      {
        DropOldest(tailBytes - MARKER_BYTES);
      }
    }

    /** Forgets up to `excess` of the oldest recorded bytes: one whole entry, or part of one. */
    method DropOldest(excess: nat)
      requires Recorded() && tail != [] && 0 < excess <= tailBytes
      modifies this`tail, this`tailBytes
      ensures Recorded() && old(tailBytes) - excess <= tailBytes < old(tailBytes)
    {
      hide Anchored;
      TailBytesSplit(tail);
      if tail[0].bytes <= excess {
        AnchoredWithoutFirst(tail, stdout, Stdout);
        AnchoredWithoutFirst(tail, stderr, Stderr);
        tailBytes := tailBytes - tail[0].bytes;
        tail := tail[1..];
        return;
      }
      AnchoredShorterFirst(tail, stdout, Stdout, tail[0].bytes - excess);
      AnchoredShorterFirst(tail, stderr, Stderr, tail[0].bytes - excess);
      ghost var rest := tail[1..];
      tail := tail[0 := tail[0].(bytes := tail[0].bytes - excess)];
      assert tail[1..] == rest;
      TailBytesSplit(tail);
      tailBytes := tailBytes - excess;
    }

    /** Makes room and returns what is still to be appended: a prefix of the content, and the marker. */
    method TruncateTotal(content: Text) returns (result: Text, ghost prefix: Text)
      requires Valid() && !truncated && ValidUtf8(content) && |content| > maximum - captured
      modifies this`stdout, this`stderr, this`tail, this`tailBytes, this`captured
      ensures Counted() && Recorded() && ValidUtf8(result)
      ensures stdout <= old(stdout) && stderr <= old(stderr)
      ensures prefix <= content && result == prefix + MarkerFor(maximum)
      ensures maximum - 3 <= captured + |result| <= maximum
      ensures captured + 3 >= Min(old(captured), maximum - Min(MARKER_BYTES, maximum))
      ensures (stdout == old(stdout) && stderr == old(stderr)) || |prefix| <= 3
      ensures forall n :: 0 <= n <= |content| && n <= maximum - Min(MARKER_BYTES, maximum) - captured && ValidUtf8(content[..n]) ==>
                n <= |prefix|
    {
      hide Anchored;
      hide ValidUtf8;
      hide TailBytes;
      var marker := TOTAL_TRUNCATION_MARKER;
      if |marker| > maximum {
        marker := marker[..maximum];
      }
      MarkerIsWhole(maximum);
      assert marker == MarkerFor(maximum);
      var target := maximum - |marker|;
      if captured > target {
        RemoveTail(captured - target);
      }
      var remaining := target - captured;
      var room := Min(remaining, |content|);
      var kept := TrimToValid(content[..room]);
      ghost var whole := CutLosesLittle(content, room);
      assert content[..room][..whole] == content[..whole];
      ValidConcat(kept, marker);
      forall n | 0 <= n <= room && ValidUtf8(content[..n])
        ensures n <= |kept|
      {
        assert content[..room][..n] == content[..n];
      }
      prefix := kept;
      result := kept + marker;
    }

    /**
     * Appends a piece.  While everything fits, both streams are exact.  The first append that does
     * not fit leaves prefixes of both streams, a prefix of the new piece and the marker, and fills
     * the limit up to at most three bytes.  After that nothing changes.
     */
    method Append(stream: Stream, content: Text)
      requires Valid() && ValidUtf8(content)
      modifies this
      ensures Valid()
      ensures old(truncated) ==> truncated && stdout == old(stdout) && stderr == old(stderr)
      ensures !old(truncated) ==> (truncated <==> old(captured) + |content| > maximum)
      ensures !truncated ==> Buffer(stream) == old(Buffer(stream)) + content
      ensures !truncated ==> Buffer(Other(stream)) == old(Buffer(Other(stream)))
      ensures truncated && !old(truncated) ==>
        && maximum - 3 <= captured <= maximum
        && Buffer(Other(stream)) <= old(Buffer(Other(stream)))
        && Overflowed(old(Buffer(stream)), content, Buffer(stream), |Buffer(Other(stream))|, maximum)
    {
      hide ValidUtf8;
      if truncated {
        return;
      }
      var remaining := maximum - captured;
      if |content| > remaining {
        OverflowAppend(stream, content);
        return;
      }
      if |content| == 0 {
        assert Buffer(stream) + content == Buffer(stream);
        return;
      }
      Commit(stream, content);
    }

    /** Writes a piece and records it. */
    method Commit(stream: Stream, piece: Text)
      requires Counted() && Recorded() && ValidUtf8(piece) && piece != []
      modifies this`stdout, this`stderr, this`captured, this`tail, this`tailBytes
      ensures Counted() && Recorded()
      ensures captured == old(captured) + |piece| && tailBytes == Min(old(tailBytes) + |piece|, MARKER_BYTES)
      ensures Buffer(stream) == old(Buffer(stream)) + piece
      ensures Buffer(Other(stream)) == old(Buffer(Other(stream)))
    {
      hide ValidUtf8;
      hide Anchored;
      AnchoredAfterAppend(tail, stdout, Stdout, stream, piece);
      AnchoredAfterAppend(tail, stderr, Stderr, stream, piece);
      ValidConcat(Buffer(stream), piece);
      captured := captured + |piece|;
      AppendStream(stream, piece);
      TrackTail(stream, |piece|);
    }

    method OverflowAppend(stream: Stream, content: Text)
      requires Valid() && !truncated && ValidUtf8(content) && |content| > maximum - captured
      modifies this
      ensures Valid() && truncated
      ensures maximum - 3 <= captured <= maximum
      ensures Buffer(Other(stream)) <= old(Buffer(Other(stream)))
      ensures Overflowed(old(Buffer(stream)), content, Buffer(stream), |Buffer(Other(stream))|, maximum)
    {
      hide ValidUtf8;
      hide Anchored;
      var result, prefix := TruncateTotal(content);
      ghost var kept := Buffer(stream);
      truncated := true;
      assert kept + result == kept + prefix + MarkerFor(maximum);
      assert CutInto(old(Buffer(stream)), content, kept + result, kept, prefix, |Buffer(Other(stream))|, maximum);
      if |result| == 0 {
        assert kept + result == kept;
        return;
      }
      Commit(stream, result);
    }
  }

  datatype Append = Append(stream: Stream, content: Text)

  /** Everything ever appended to one stream. */
  function History(appends: seq<Append>, stream: Stream): Text {
    if appends == [] then []
    else
      var last := appends[|appends| - 1];
      History(appends[..|appends| - 1], stream) + if last.stream == stream then last.content else []
  }

  function HistoryBytes(appends: seq<Append>): nat {
    |History(appends, Stdout)| + |History(appends, Stderr)|
  }

  /** The outcome of a whole run of appends: exact, or cut at the first append that did not fit. */
  ghost predicate Outcome(appends: seq<Append>, stdout: Text, stderr: Text, truncated: bool, maximum: nat) {
    if !truncated then
      && HistoryBytes(appends) <= maximum
      && stdout == History(appends, Stdout)
      && stderr == History(appends, Stderr)
    else
      exists j :: 0 <= j < |appends| && CutAt(appends, j, stdout, stderr, maximum)
  }

  ghost predicate CutAt(appends: seq<Append>, j: nat, stdout: Text, stderr: Text, maximum: nat)
    requires j < |appends|
  {
    var before, piece := appends[..j], appends[j];
    && HistoryBytes(before) <= maximum < HistoryBytes(before) + |piece.content|
    && maximum - 3 <= |stdout| + |stderr| <= maximum
    && (piece.stream == Stdout ==>
         && Overflowed(History(before, Stdout), piece.content, stdout, |stderr|, maximum)
         && stderr <= History(before, Stderr))
    && (piece.stream == Stderr ==>
         && Overflowed(History(before, Stderr), piece.content, stderr, |stdout|, maximum)
         && stdout <= History(before, Stdout))
  }

  lemma HistoryStep(appends: seq<Append>, i: nat, stream: Stream)
    requires i < |appends|
    ensures History(appends[..i + 1], stream) ==
      History(appends[..i], stream) + if appends[i].stream == stream then appends[i].content else []
  {
    assert appends[..i + 1][..i] == appends[..i];
  }

  lemma NoHistory(stream: Stream)
    ensures History([], stream) == []
  {
  }

  /** Any run of valid appends under any limit. */
  method CollectOutput(maximum: nat, appends: seq<Append>) returns (stdout: Text, stderr: Text, truncated: bool)
    requires forall k :: 0 <= k < |appends| ==> ValidUtf8(appends[k].content)
    ensures Outcome(appends, stdout, stderr, truncated, maximum)
    ensures |stdout| + |stderr| <= maximum && ValidUtf8(stdout) && ValidUtf8(stderr)
  {
    hide ValidUtf8, Overflowed, History, BoundedOutput.Recorded;
    var output := new BoundedOutput(maximum);
    ghost var cut := 0;
    NoHistory(Stdout);
    NoHistory(Stderr);
    assert appends[..0] == [];
    for i := 0 to |appends|
      invariant fresh(output) && output.maximum == maximum && output.Valid()
      invariant !output.truncated ==>
        output.stdout == History(appends[..i], Stdout) && output.stderr == History(appends[..i], Stderr)
      invariant output.truncated ==> 0 <= cut < i && CutAt(appends, cut, output.stdout, output.stderr, maximum)
    {
      if !output.truncated {
        cut := i;
      }
      HistoryStep(appends, i, Stdout);
      HistoryStep(appends, i, Stderr);
      output.Append(appends[i].stream, appends[i].content);
    }
    assert appends[..|appends|] == appends;
    stdout, stderr, truncated := output.stdout, output.stderr, output.truncated;
  }
}
