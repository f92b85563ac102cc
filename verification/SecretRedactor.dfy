/**
 * The one-pass redactor.  It keeps only a ring of the longest pattern's length and a list of
 * merged intervals, and still reports exactly what the whole-stream specification says.
 */
module SecretRedactor {
  import opened Bytes
  import opened Suffixes
  import opened Masking
  import opened SecretPatterns

  datatype MatchInterval = MatchInterval(start: int, end: int)

  ghost predicate Covers(intervals: seq<MatchInterval>, k: int) {
    exists j :: 0 <= j < |intervals| && intervals[j].start <= k < intervals[j].end
  }

  /** In order, nonempty, with a gap between any two, and nothing beyond the bytes read. */
  ghost predicate Separated(intervals: seq<MatchInterval>, read: int) {
    && (forall j :: 0 <= j < |intervals| ==> 0 <= intervals[j].start < intervals[j].end <= read)
    && (forall i, j :: 0 <= i < j < |intervals| ==> intervals[i].end < intervals[j].start)
  }

  /** Appends one match, merging it with every earlier interval it overlaps or touches. */
  method Merge(intervals: seq<MatchInterval>, interval: MatchInterval) returns (merged: seq<MatchInterval>)
    requires Separated(intervals, interval.end) && 0 <= interval.start < interval.end
    ensures Separated(merged, interval.end)
    ensures forall k :: Covers(merged, k) <==> Covers(intervals, k) || interval.start <= k < interval.end
  {
    merged := intervals;
    var start := interval.start;
    while |merged| > 0 && merged[|merged| - 1].end >= start
      invariant 0 <= start <= interval.start
      invariant merged <= intervals
      invariant forall k :: Covers(merged, k) || start <= k < interval.end <==>
                            Covers(intervals, k) || interval.start <= k < interval.end
    {
      ghost var before, from := merged, start;
      start := Min(start, merged[|merged| - 1].start);
      merged := merged[..|merged| - 1];
      forall k
        ensures Covers(merged, k) || start <= k < interval.end <==> Covers(before, k) || from <= k < interval.end
      {
        CoversSplit(merged, before[|merged|], k);
        assert before == merged + [before[|merged|]];
      }
    }
    ghost var kept := merged;
    merged := merged + [MatchInterval(start, interval.end)];
    forall k
      ensures Covers(merged, k) <==> Covers(kept, k) || start <= k < interval.end
    {
      CoversSplit(kept, MatchInterval(start, interval.end), k);
    }
  }

  lemma CoversSplit(intervals: seq<MatchInterval>, last: MatchInterval, k: int)
    ensures Covers(intervals + [last], k) <==> Covers(intervals, k) || last.start <= k < last.end
  {
    var all := intervals + [last];
    if j :| 0 <= j < |intervals| && intervals[j].start <= k < intervals[j].end {
      assert all[j] == intervals[j];
    }
    if last.start <= k < last.end {
      assert all[|intervals|] == last;
    }
  }

  lemma NothingMaskedBeyond(patterns: set<Text>, text: Text, k: int)
    requires k >= |text|
    ensures !Masked(patterns, text, k)
  {
  }

  function Unmasked(content: Text): seq<Report> {
    seq(|content|, k requires 0 <= k < |content| => Report(content[k], false))
  }

  function Literals(content: Text): seq<Piece> {
    seq(|content|, k requires 0 <= k < |content| => Literal(content[k]))
  }

  lemma {:induction false} CollapseUnmasked(reports: seq<Report>, content: Text)
    ensures Collapse(reports + Unmasked(content)) == Collapse(reports) + Literals(content)
    decreases |content|
  {
    var all := reports + Unmasked(content);
    if content == [] {
      assert all == reports;
    } else {
      var n := |content| - 1;
      CollapseUnmasked(reports, content[..n]);
      assert all[..|all| - 1] == reports + Unmasked(content[..n]);
      assert Literals(content) == Literals(content[..n]) + [Literal(content[n])];
    }
  }

  lemma {:induction false} MultiplesApart(n: nat, a: nat, b: nat)
    requires a < b
    ensures n * a + n <= n * b
  {
    assert n * b == n * (b - 1) + n;
    if a < b - 1 {
      MultiplesApart(n, a, b - 1);
    }
  }

  /** Two positions less than one ring apart never share a slot. */
  lemma RingSlotsDiffer(i: nat, j: nat, n: nat)
    requires i < j < i + n
    ensures i % n != j % n
  {
    var qi, qj := i / n, j / n;
    assert i == n * qi + i % n && j == n * qj + j % n;
    if qi < qj {
      MultiplesApart(n, qi, qj);
    } else if qj < qi {
      MultiplesApart(n, qj, qi);
    }
  }

  /** Drops the intervals that end before the next position to report. */
  method DropPassed(intervals: seq<MatchInterval>, written: int, ghost read: int) returns (rest: seq<MatchInterval>)
    requires Separated(intervals, read)
    ensures Separated(rest, read)
    ensures rest != [] ==> written < rest[0].end
    ensures forall k :: written <= k ==> (Covers(rest, k) <==> Covers(intervals, k))
  {
    rest := intervals;
    while |rest| > 0 && rest[0].end <= written
      invariant Separated(rest, read)
      invariant forall k :: written <= k ==> (Covers(rest, k) <==> Covers(intervals, k))
    {
      ghost var before := rest;
      rest := rest[1..];
      forall k | written <= k
        ensures Covers(before, k) <==> Covers(rest, k)
      {
        if j :| 0 <= j < |before| && before[j].start <= k < before[j].end {
          assert rest[j - 1] == before[j];
        }
        if j :| 0 <= j < |rest| && rest[j].start <= k < rest[j].end {
          assert before[j + 1] == rest[j];
        }
      }
    }
  }

  /** After that, the first interval alone decides the next position. */
  lemma FirstIntervalDecides(intervals: seq<MatchInterval>, written: int, read: int)
    requires Separated(intervals, read) && (intervals != [] ==> written < intervals[0].end)
    ensures Covers(intervals, written) <==> intervals != [] && intervals[0].start <= written
  {
  }

  class SecretRedactor {
    const patterns: SecretPatterns?
    const pending: array<byte>
    const observing: bool
    var intervals: seq<MatchInterval>
    var state: nat
    var read: nat
    var written: nat
    var masked: bool
    // What the two callbacks have been given.
    var observed: seq<Report>
    var output: seq<Piece>

    // All bytes ever written, and all positions ever reported.
    ghost var input: Text
    ghost var reported: seq<Report>

    ghost function Secrets(): set<Text>
    {
      if patterns == null then {} else patterns.patterns
    }

    /** Every report so far is right for the bytes so far. */
    ghost predicate ReportsRight()
      reads this
    {
      && |reported| <= |input|
      && (forall k :: 0 <= k < |reported| ==> reported[k] == Report(input[k], Masked(Secrets(), input, k)))
      && (if observing then observed == reported && output == [] else observed == [] && output == Collapse(reported))
    }

    ghost predicate Matching()
      reads this, patterns, pending
    {
      && patterns != null && patterns.Valid()
      && pending.Length == patterns.maximum
      && |reported| == written <= read == |input|
      && state < |patterns.nodes|
      && patterns.words[state] == LongestSuffix(Dictionary(patterns.words), input)
      && (masked <==> !observing && written > 0 && reported[written - 1].masked)
      && Separated(intervals, read)
      && (forall k :: written <= k < read ==> (Covers(intervals, k) <==> Masked(Secrets(), input, k)))
    }

    /** The ring still holds every byte that is not reported yet. */
    ghost predicate RingHolds()
      requires pending.Length > 0
      reads this, pending
    {
      forall k {:trigger k % pending.Length} :: written <= k < read && k < |input| ==> pending[k % pending.Length] == input[k]
    }

    ghost predicate Valid()
      reads this, patterns, pending
    {
      && ReportsRight()
      && if pending.Length == 0 then
           Secrets() == {} && |reported| == |input|
         else
           Matching() && RingHolds()
    }

    /** Between writes: less than the longest pattern is held back, and everything reported is beyond reach. */
    ghost predicate Streaming()
      reads this, pending
    {
      pending.Length > 0 ==> read - written < pending.Length && (written > 0 ==> written - 1 + pending.Length <= read)
    }

    constructor (patterns: SecretPatterns?, observing: bool)
      requires patterns != null ==> patterns.Valid()
      ensures this.patterns == patterns && this.observing == observing
      ensures Valid() && Streaming() && input == [] && reported == [] && fresh(pending)
    {
      this.patterns := patterns;
      this.observing := observing;
      pending := new byte[if patterns == null then 0 else patterns.maximum];
      intervals, state, read, written, masked := [], 0, 0, 0, false;
      observed, output := [], [];
      input, reported := [], [];
    }

    /** Hands one position to the callback: to `observe` as it is, to `emit` with masked runs collapsed. */
    method Deliver(value: byte, hit: bool)
      requires ReportsRight() && |reported| == written < |input|
      requires value == input[written] && (hit <==> Masked(Secrets(), input, written))
      requires masked <==> !observing && written > 0 && reported[written - 1].masked
      modifies this`written, this`masked, this`observed, this`output, this`reported
      ensures ReportsRight() && |reported| == written == old(written) + 1
      ensures masked <==> !observing && reported[written - 1].masked
    {
      hide Masked;
      reported := reported + [Report(value, hit)];
      assert reported[..|reported| - 1] == old(reported);
      if observing {
        observed := observed + [Report(value, hit)];
        written := written + 1;
        return;
      }
      if hit {
        if !masked {
          output := output + [Marker];
        }
      } else {
        output := output + [Literal(value)];
      }
      masked := hit;
      written := written + 1;
    }

    /** Reports the oldest byte held back. */
    method EmitNext()
      requires pending.Length > 0 && Valid() && written < read
      modifies this`intervals, this`written, this`masked, this`observed, this`output, this`reported
      ensures Valid() && written == old(written) + 1
    {
      hide LongestSuffix;
      hide SecretPatterns.Valid;
      hide Dictionary;
      hide Masked;
      intervals := DropPassed(intervals, written, read);
      FirstIntervalDecides(intervals, written, read);
      var hit := |intervals| > 0 && intervals[0].start <= written;
      Deliver(pending[written % pending.Length], hit);
    }

    /** The automaton's next state, whose match length is that of the longest pattern ending here. */
    method NextState(value: byte) returns (next: nat)
      requires patterns != null && patterns.Valid() && state < |patterns.nodes|
      requires patterns.words[state] == LongestSuffix(Dictionary(patterns.words), input)
      ensures next < |patterns.nodes|
      ensures patterns.words[next] == LongestSuffix(Dictionary(patterns.words), input + [value])
      ensures patterns.nodes[next].longest == |LongestSuffix(Secrets(), input + [value])|
    {
      hide LongestSuffix;
      next := patterns.Follow(state, value);
      assert Linked(patterns.nodes[next], patterns.words, patterns.patterns, next);
      TrieIsPrefixClosed(patterns.nodes, patterns.edges, patterns.words, patterns.sources);
      LongestSuffixStep(Dictionary(patterns.words), input, value);
      LongestSuffixOfSubset(Secrets(), Dictionary(patterns.words), input + [value]);
    }

    /** Records the match that ends at the byte just read. */
    method RecordMatch(length: nat, value: byte)
      requires read == |input| + 1 && Separated(intervals, |input|)
      requires length == |LongestSuffix(Secrets(), input + [value])|
      requires forall k :: written <= k < |input| ==> (Covers(intervals, k) <==> Masked(Secrets(), input, k))
      modifies this`intervals
      ensures Separated(intervals, read)
      ensures forall k :: written <= k < read ==> (Covers(intervals, k) <==> Masked(Secrets(), input + [value], k))
    {
      hide LongestSuffix;
      hide Masked;
      assert (input + [value])[..read] == input + [value];
      forall k | written <= k < read
        ensures Masked(Secrets(), input + [value], k) <==> Covers(intervals, k) || read - length <= k
      {
        MaskedExtension(Secrets(), input, value, k);
        if k == |input| { NothingMaskedBeyond(Secrets(), input, k); }
      }
      if length != 0 {
        intervals := Merge(intervals, MatchInterval(read - length, read));
      }
    }

    /** Reads one byte: the automaton moves on, the ring takes the byte, and a match joins the intervals. */
    method ReadByte(value: byte)
      requires pending.Length > 0 && Valid() && Streaming()
      modifies this`state, this`read, this`intervals, this`input, pending
      ensures Valid() && read == old(read) + 1 && input == old(input) + [value]
    {
      hide LongestSuffix;
      hide Masked;
      hide SecretPatterns.Valid;
      hide Dictionary;
      hide Covers;
      hide Separated;
      forall k | 0 <= k < written
        ensures Masked(Secrets(), input + [value], k) <==> Masked(Secrets(), input, k)
      {
        PatternsBounded();
        MaskedIsStable(Secrets(), input, [value], pending.Length, k);
      }
      state := NextState(value);
      forall k | written <= k < read
        ensures k % pending.Length != read % pending.Length
      {
        RingSlotsDiffer(k, read, pending.Length);
      }
      pending[read % pending.Length] := value;
      read := read + 1;
      RecordMatch(patterns.nodes[state].longest, value);
      input := input + [value];
    }

    lemma PatternsBounded()
      requires patterns != null && patterns.Valid() && pending.Length == patterns.maximum
      ensures forall p <- Secrets() :: |p| <= pending.Length
    {
    }

    /** Writing in any chunks appends to the stream; reports stay right for everything written so far. */
    method Write(content: Text)
      requires Valid() && Streaming()
      modifies this, pending
      ensures Valid() && Streaming() && input == old(input) + content
    {
      hide LongestSuffix;
      hide SecretPatterns.Valid;
      hide Dictionary;
      hide Masked;
      hide Covers;
      hide Separated;
      hide RingHolds;
      if pending.Length == 0 {
        PassThrough(content);
        return;
      }
      for i := 0 to |content|
        invariant Valid() && Streaming() && input == old(input) + content[..i]
      {
        assert content[..i + 1] == content[..i] + [content[i]];
        ReadByte(content[i]);
        if read - written >= pending.Length {
          EmitNext();
        }
      }
      assert content[..|content|] == content;
    }

    /** Without patterns a chunk is handed on at once, unmasked. */
    method PassThrough(content: Text)
      requires pending.Length == 0 && Valid()
      modifies this`observed, this`output, this`input, this`reported
      ensures Valid() && input == old(input) + content
    {
      if observing {
        observed := observed + Unmasked(content);
      } else {
        output := output + Literals(content);
        CollapseUnmasked(reported, content);
      }
      reported := reported + Unmasked(content);
      input := input + content;
    }

    /** At the end of the stream every position has been reported exactly once, in order, as specified. */
    method Finish()
      requires Valid()
      modifies this
      ensures Valid() && input == old(input)
      ensures reported == Mask(Secrets(), input)
    {
      hide LongestSuffix;
      hide SecretPatterns.Valid;
      hide Dictionary;
      hide Masked;
      hide Covers;
      hide Separated;
      hide RingHolds;
      if pending.Length > 0 {
        while written < read
          invariant Valid() && input == old(input) && written <= read
        {
          EmitNext();
        }
      }
    }
  }
}
