/**
 * The byte-by-byte router.  It holds back at most one prefix length at the start of a line, and
 * its outputs are exactly the positional specification of `LineRouter`.
 */
module RawProcessor {
  import opened Bytes
  import opened Masking
  import opened JsonStrings
  import opened LineRouter

  class RawProcessor {
    const prefix: Text
    var probe: Text
    var probeMasked: seq<bool>
    var route: nat
    var rawMasked: bool
    var structuredUnsafe: bool
    var jsonString: bool
    var jsonEscape: bool
    // What the raw limiter was given, the structured lines closed so far, and the open one.
    var raw: seq<Piece>
    var lines: seq<StructuredLine>
    var current: Text

    ghost var stream: Stream

    ghost predicate ExactUpTo(m: nat)
      reads this
    {
      Exact(prefix, stream, m, raw, lines, rawMasked)
    }

    /** Exact, and no later byte can change it. */
    ghost predicate Settled(m: nat)
      reads this
    {
      ExactUpTo(m) && m <= |stream| && AllDecided(prefix, stream, m)
    }

    /** The state of the open line, which begins at `a`. */
    ghost predicate OpenLine(a: nat)
      reads this
    {
      && prefix != []
      && a <= |stream|
      && match route
         case 0 =>
           && Settled(a)
           && |probeMasked| == |probe| < |prefix| && a + |probe| == |stream|
           && (forall k :: 0 <= k < |probe| ==> probe[k] == prefix[k] && stream[a + k] == Report(probe[k], probeMasked[k]))
           && current == []
         case 1 =>
           && Settled(|stream|)
           && probe == [] && probeMasked == [] && current == []
           && Decided(prefix, stream, a) && !PrefixAt(prefix, stream, a)
         case 2 =>
           && Settled(|stream|)
           && probe == [] && probeMasked == []
           && PrefixAt(prefix, stream, a)
           && current == Values(stream[a..])
           && structuredUnsafe == UnsafeLine(prefix, stream[a..])
           && Scan(jsonString, jsonEscape) == ScanOf(stream[a + |prefix|..])
         case _ => false
    }

    ghost predicate Valid()
      reads this
    {
      if prefix == [] then Settled(|stream|) && probe == [] && probeMasked == [] && current == []
      else OpenLine(LineStart(stream, |stream|))
    }

    constructor (prefix: Text)
      requires NEWLINE !in prefix
      ensures this.prefix == prefix && Valid() && stream == []
    {
      this.prefix := prefix;
      probe, probeMasked, route := [], [], 0;
      rawMasked, structuredUnsafe, jsonString, jsonEscape := false, false, false, false;
      raw, lines, current := [], [], [];
      stream := [];
    }

    /** Gives one position of a raw line to the raw limiter. */
    method EmitMatchedRaw(value: byte, masked: bool, ghost m: nat)
      requires ExactUpTo(m) && m < |stream| && stream[m] == Report(value, masked)
      requires !Structured(prefix, stream, m)
      modifies this`raw, this`rawMasked
      ensures ExactUpTo(m + 1)
    {
      hide Exact;
      RawStep(prefix, stream, m, raw, lines, rawMasked);
      assert raw + [] == raw;
      if masked {
        if !rawMasked {
          raw := raw + [Marker];
        }
      } else {
        raw := raw + [Literal(value)];
      }
      rawMasked := masked;
    }

    /** A byte at the start of a line, while the line may still turn out either way. */
    method Probe(value: byte, masked: bool, ghost a: nat)
      requires |stream| > 0 && stream[|stream| - 1] == Report(value, masked)
      requires a < |stream| && prefix != [] && route == 0 && current == []
      requires NEWLINE !in prefix && Settled(a) && a == LineStart(stream, |stream| - 1)
      requires |probeMasked| == |probe| < |prefix| && a + |probe| == |stream| - 1
      requires forall k :: 0 <= k < |probe| ==> probe[k] == prefix[k] && stream[a + k] == Report(probe[k], probeMasked[k])
      modifies this`probe, this`probeMasked, this`route, this`rawMasked, this`structuredUnsafe,
               this`jsonString, this`jsonEscape, this`raw, this`current
      ensures OpenLine(a)
      ensures value == NEWLINE ==> route == 1
    {
      hide Exact;
      hide UnsafeLine;
      hide LineStart;
      probe := probe + [value];
      probeMasked := probeMasked + [masked];
      assert probe <= prefix ==> prefix[|probe| - 1] == value && prefix[|probe| - 1] in prefix;
      if !(probe <= prefix) {
        FlushProbe(a);
      } else if |probe| == |prefix| {
        AcceptProbe(a);
      }
    }

    method FlushProbe(ghost a: nat)
      requires Settled(a) && prefix != [] && a + |probe| == |stream| && |probe| == |probeMasked|
      requires a < |stream| && a == LineStart(stream, |stream| - 1)
      requires forall k :: 0 <= k < |probe| ==> stream[a + k] == Report(probe[k], probeMasked[k])
      requires !(probe <= prefix) && |probe| <= |prefix| && current == []
      modifies this`probe, this`probeMasked, this`route, this`raw, this`rawMasked
      ensures OpenLine(a) && route == 1
    {
      hide Exact;
      hide LineStart;
      var j :| 0 <= j < |probe| && probe[j] != prefix[j];
      assert stream[a + j].value != prefix[j];
      for i := 0 to |probe|
        invariant probe == old(probe) && probeMasked == old(probeMasked)
        invariant ExactUpTo(a + i)
      {
        SameLine(stream, a, a + i);
        EmitMatchedRaw(probe[i], probeMasked[i], a + i);
      }
      assert Decided(prefix, stream, a);
      LineDecided(prefix, stream, a);
      route, probe, probeMasked := 1, [], [];
    }

    method AcceptProbe(ghost a: nat)
      requires NEWLINE !in prefix && Settled(a) && prefix != [] && a + |probe| == |stream| && probe == prefix && |probe| == |probeMasked|
      requires a == LineStart(stream, |stream| - 1)
      requires forall k :: 0 <= k < |probe| ==> stream[a + k] == Report(probe[k], probeMasked[k])
      modifies this`probe, this`probeMasked, this`route, this`rawMasked, this`structuredUnsafe,
               this`jsonString, this`jsonEscape, this`current
      ensures OpenLine(a) && route == 2
    {
      hide Exact;
      hide LineStart;
      hide Decided;
      hide AllDecided;
      hide UnsafeLine;
      hide ScanOf;
      route := 2;
      structuredUnsafe, jsonString, jsonEscape := false, false, false;
      assert PrefixAt(prefix, stream, a);
      CollectHits(a);
      PrefixDecides(prefix, stream, a);
      LineDecided(prefix, stream, a);
      PrefixOnlyLine(prefix, stream, a, probeMasked);
      current := probe;
      probe, probeMasked := [], [];
    }

    method CollectHits(ghost a: nat)
      requires ExactUpTo(a) && PrefixAt(prefix, stream, a) && a + |prefix| == |stream| && |probeMasked| == |prefix|
      requires a == LineStart(stream, |stream| - 1) && NEWLINE !in prefix && !structuredUnsafe
      requires forall k :: 0 <= k < |probeMasked| ==> probeMasked[k] == stream[a + k].masked
      modifies this`rawMasked, this`structuredUnsafe
      ensures ExactUpTo(|stream|)
      ensures structuredUnsafe <==> true in probeMasked
    {
      hide Exact;
      hide LineStart;
      for i := 0 to |probeMasked|
        invariant ExactUpTo(a + i)
        invariant structuredUnsafe <==> true in probeMasked[..i]
      {
        SameLine(stream, a, a + i);
        var hit := probeMasked[i];
        assert stream[a + i].value == prefix[i] && prefix[i] in prefix;
        StructuredStep(prefix, stream, a, a + i, raw, lines, rawMasked);
        assert probeMasked[..i + 1] == probeMasked[..i] + [hit];
        structuredUnsafe := structuredUnsafe || hit;
        if !hit {
          rawMasked := false;
        }
      }
      assert probeMasked[..|probeMasked|] == probeMasked;
    }

    method TrackString(value: byte)
      modifies this`jsonString, this`jsonEscape
      ensures Scan(jsonString, jsonEscape) == Step(old(Scan(jsonString, jsonEscape)), value)
    {
      if jsonString {
        if jsonEscape {
          jsonEscape := false;
        } else if value == BACKSLASH {
          jsonEscape := true;
        } else if value == QUOTE {
          jsonString := false;
        }
      } else if value == QUOTE {
        jsonString := true;
      }
    }

    /** A byte of a structured line after its prefix. */
    method StructuredByte(value: byte, masked: bool, ghost a: nat)
      requires |stream| > 0 && stream[|stream| - 1] == Report(value, masked)
      requires Settled(|stream| - 1) && prefix != [] && probe == [] && probeMasked == [] && route == 2
      requires a <= |stream| - 1 && a == LineStart(stream, |stream| - 1) && PrefixAt(prefix, stream, a)
      requires a + |prefix| <= |stream| - 1
      requires current == Values(stream[a..|stream| - 1])
      requires structuredUnsafe == UnsafeLine(prefix, stream[a..|stream| - 1])
      requires Scan(jsonString, jsonEscape) == ScanOf(stream[a + |prefix|..|stream| - 1])
      modifies this`rawMasked, this`structuredUnsafe, this`jsonString, this`jsonEscape, this`current, this`lines
      ensures value != NEWLINE ==> OpenLine(a)
      ensures value == NEWLINE ==> Settled(|stream|) && current == []
    {
      hide Exact;
      hide UnsafeLine;
      hide LineStart;
      hide PrefixAt;
      hide ScanOf;
      hide Step;
      hide Decided;
      hide Values;
      ghost var m := |stream| - 1;
      StructuredStep(prefix, stream, a, m, raw, lines, rawMasked);
      OpenLineStep(prefix, stream, a, m);
      PrefixDecides(prefix, stream, a);
      DecidedStep(prefix, stream, m);
      assert stream[a..m + 1] == stream[a..];
      if !masked {
        rawMasked := false;
      }
      var inBody := jsonString && (jsonEscape || value != QUOTE);
      if masked && !inBody {
        structuredUnsafe := true;
      }
      TrackString(value);
      current := current + [value];
      if value == NEWLINE {
        lines := lines + [StructuredLine(current, structuredUnsafe)];
        current := [];
      }
    }

    /** The state right after a byte of the line that begins at `a`. */
    ghost predicate AfterByte(a: nat, value: byte)
      reads this
    {
      if value == NEWLINE then Settled(|stream|) && probe == [] && probeMasked == [] && current == []
      else OpenLine(a)
    }

    method RouteProbe(value: byte, masked: bool, ghost a: nat)
      requires route == 0 && OpenLine(a) && a == LineStart(stream, |stream|)
      modifies this
      ensures stream == old(stream) + [Report(value, masked)] && AfterByte(a, value)
    {
      hide Exact;
      hide AllDecided;
      hide LineStart;
      ghost var r := Report(value, masked);
      LineStartStable(stream, r, |stream|);
      ExactStable(prefix, stream, r, a, raw, lines, rawMasked);
      NoNewlineInPrefix(prefix, stream, a, raw, lines, rawMasked);
      stream := stream + [r];
      Probe(value, masked, a);
    }

    method RouteRaw(value: byte, masked: bool, ghost a: nat)
      requires route == 1 && OpenLine(a) && a == LineStart(stream, |stream|)
      modifies this
      ensures stream == old(stream) + [Report(value, masked)] && AfterByte(a, value)
    {
      hide Exact;
      ghost var r := Report(value, masked);
      ghost var m := |stream|;
      LineStartStable(stream, r, m);
      PrefixStable(prefix, stream, r, a);
      ExactStable(prefix, stream, r, m, raw, lines, rawMasked);
      stream := stream + [r];
      EmitMatchedRaw(value, masked, m);
    }

    method RouteStructured(value: byte, masked: bool, ghost a: nat)
      requires route == 2 && OpenLine(a) && a == LineStart(stream, |stream|)
      modifies this
      ensures stream == old(stream) + [Report(value, masked)] && AfterByte(a, value)
    {
      hide Exact;
      hide AllDecided;
      hide UnsafeLine;
      hide ScanOf;
      ghost var r := Report(value, masked);
      ghost var m := |stream|;
      LineStartStable(stream, r, m);
      PrefixStable(prefix, stream, r, a);
      ExactStable(prefix, stream, r, m, raw, lines, rawMasked);
      assert (stream + [r])[a..m] == stream[a..];
      assert (stream + [r])[a + |prefix|..m] == stream[a + |prefix|..];
      stream := stream + [r];
      StructuredByte(value, masked, a);
    }

    /** One byte from the matcher. */
    method RouteByte(value: byte, masked: bool)
      requires Valid()
      modifies this
      ensures Valid() && stream == old(stream) + [Report(value, masked)]
    {
      hide Exact;
      hide AllDecided;
      hide UnsafeLine;
      hide ScanOf;
      ghost var a := LineStart(stream, |stream|);
      ghost var r := Report(value, masked);
      LineStartStable(stream, r, |stream|);
      if |prefix| == 0 {
        ExactStable(prefix, stream, r, |stream|, raw, lines, rawMasked);
        stream := stream + [r];
        EmitMatchedRaw(value, masked, |stream| - 1);
        EverythingDecided(stream);
        return;
      }
      if route == 0 {
        RouteProbe(value, masked, a);
      } else if route == 1 {
        RouteRaw(value, masked, a);
      } else {
        RouteStructured(value, masked, a);
      }
      if value == NEWLINE {
        route := 0;
      }
    }

    /** A chunk from the matcher, all of it masked or all of it not. */
    method RouteMatched(content: Text, masked: bool)
      requires Valid()
      modifies this
      ensures Valid()
      ensures stream == old(stream) + seq(|content|, k requires 0 <= k < |content| => Report(content[k], masked))
    {
      hide Valid;
      for i := 0 to |content|
        invariant Valid()
        invariant stream == old(stream) + seq(i, k requires 0 <= k < i => Report(content[k], masked))
      {
        RouteByte(content[i], masked);
      }
    }

    /**
     * The end of the stream.  The raw limiter has exactly the raw pieces of the whole stream, and
     * the structured lines, the unfinished last one included, have exactly the specified verdicts.
     */
    method Finish()
      requires Valid()
      modifies this
      ensures stream == old(stream)
      ensures raw == RawPieces(prefix, stream, |stream|)
      ensures lines == AllLines(prefix, stream)
    {
      hide RawPieces, ClosedLines, Announced;
      hide UnsafeLine;
      hide ScanOf;
      hide AllDecided;
      ghost var a := LineStart(stream, |stream|);
      for i := 0 to |probe|
        invariant probe == old(probe) && probeMasked == old(probeMasked) && current == old(current)
        invariant stream == old(stream) && structuredUnsafe == old(structuredUnsafe) && route == old(route)
        invariant lines == old(lines)
        invariant if probe == [] then ExactUpTo(|stream|) else ExactUpTo(a + i)
      {
        SameLine(stream, a, a + i);
        EmitMatchedRaw(probe[i], probeMasked[i], a + i);
      }
      probe, probeMasked := [], [];
      if |current| > 0 {
        lines := lines + [StructuredLine(current, structuredUnsafe)];
        current := [];
      }
    }
  }
}
