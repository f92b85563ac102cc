/** What emit mode writes, said of the masked runs themselves: unmasked bytes as they are, and one whole marker for each run. */
module MarkedRuns {
  import opened Bytes
  import opened Masking
  import opened Emission

  /** A maximal masked run. */
  predicate IsRun(reports: seq<Report>, s: nat, e: nat) {
    && s < e <= |reports|
    && (forall k :: s <= k < e ==> reports[k].masked)
    && (s > 0 ==> !reports[s - 1].masked)
    && (e < |reports| ==> !reports[e].masked)
  }

  /** The first position of such a run. */
  predicate StartsRun(reports: seq<Report>, k: nat)
    requires k < |reports|
  {
    reports[k].masked && (k == 0 || !reports[k - 1].masked)
  }

  /** The unmasked bytes, in order. */
  function Unmasked(reports: seq<Report>): Text {
    if reports == [] then []
    else if reports[0].masked then Unmasked(reports[1..])
    else [reports[0].value] + Unmasked(reports[1..])
  }

  /** The bytes that are written as they are, in order. */
  function Literals(pieces: seq<Piece>): Text {
    if pieces == [] then []
    else if pieces[0].Marker? then Literals(pieces[1..])
    else [pieces[0].value] + Literals(pieces[1..])
  }

  ghost function MarkersIn(pieces: seq<Piece>): set<nat> {
    set i: nat | i < |pieces| && pieces[i].Marker?
  }

  ghost function RunStarts(reports: seq<Report>): set<nat> {
    set k: nat | k < |reports| && StartsRun(reports, k)
  }

  lemma {:induction false} UnmaskedAppend(reports: seq<Report>, last: Report)
    ensures Unmasked(reports + [last]) == Unmasked(reports) + if last.masked then [] else [last.value]
  {
    if reports == [] {
      assert reports + [last] == [last];
    } else {
      assert (reports + [last])[1..] == reports[1..] + [last];
      UnmaskedAppend(reports[1..], last);
    }
  }

  lemma {:induction false} LiteralsAppend(pieces: seq<Piece>, last: Piece)
    ensures Literals(pieces + [last]) == Literals(pieces) + if last.Marker? then [] else [last.value]
  {
    if pieces == [] {
      assert pieces + [last] == [last];
    } else {
      assert (pieces + [last])[1..] == pieces[1..] + [last];
      LiteralsAppend(pieces[1..], last);
    }
  }

  lemma MarkersAppend(pieces: seq<Piece>, last: Piece)
    ensures MarkersIn(pieces + [last]) == MarkersIn(pieces) + if last.Marker? then {|pieces|} else {}
    ensures |MarkersIn(pieces + [last])| == |MarkersIn(pieces)| + if last.Marker? then 1 else 0
  {
  }

  lemma StartsAppend(reports: seq<Report>, last: Report)
    ensures var starts := StartsRun(reports + [last], |reports|);
      && RunStarts(reports + [last]) == RunStarts(reports) + (if starts then {|reports|} else {})
      && |RunStarts(reports + [last])| == |RunStarts(reports)| + if starts then 1 else 0
  {
    var all := reports + [last];
    assert forall k :: 0 <= k < |reports| ==> all[k] == reports[k];
    assert forall k: nat :: k < |reports| ==> (StartsRun(all, k) <==> StartsRun(reports, k));
  }

  lemma CollapseAppend(reports: seq<Report>, last: Report)
    ensures Collapse(reports + [last]) == Collapse(reports) +
      if !last.masked then [Literal(last.value)] else if StartsRun(reports + [last], |reports|) then [Marker] else []
  {
    var all := reports + [last];
    assert all[..|reports|] == reports;
    assert reports != [] ==> all[|reports| - 1] == reports[|reports| - 1];
  }

  /** The literals are exactly the unmasked bytes, in order, and there are as many markers as runs. */
  lemma {:induction false} PiecesCounted(reports: seq<Report>)
    ensures Literals(Collapse(reports)) == Unmasked(reports)
    ensures |MarkersIn(Collapse(reports))| == |RunStarts(reports)|
  {
    if reports == [] {
      assert MarkersIn([]) == {} && RunStarts(reports) == {};
    } else {
      hide Literals, Unmasked, MarkersIn, RunStarts, Collapse;
      var n := |reports| - 1;
      var rest, last := reports[..n], reports[n];
      assert reports == rest + [last];
      PiecesCounted(rest);
      CollapseAppend(rest, last);
      UnmaskedAppend(rest, last);
      StartsAppend(rest, last);
      var pieces := Collapse(rest);
      if !last.masked {
        LiteralsAppend(pieces, Literal(last.value));
        MarkersAppend(pieces, Literal(last.value));
      } else if StartsRun(reports, n) {
        LiteralsAppend(pieces, Marker);
        MarkersAppend(pieces, Marker);
      } else {
        assert pieces + [] == pieces;
      }
    }
  }

  // ---- Where each of them is in the rendered text ----

  /** Where the text begins that position `k`, or the run that starts there, is rendered as. */
  function Place(reports: seq<Report>, k: nat): nat
    requires k <= |reports|
  {
    |Origins(reports[..k])|
  }

  function RenderedText(reports: seq<Report>): Text {
    Render(Collapse(reports))
  }

  /** What is rendered for some positions stays when more follow. */
  lemma {:induction false} RenderedStays(reports: seq<Report>, n: nat)
    requires n <= |reports|
    ensures RenderedText(reports[..n]) <= RenderedText(reports) && Origins(reports[..n]) <= Origins(reports)
    ensures |Origins(reports)| == |RenderedText(reports)|
    decreases |reports|
  {
    RenderingIsTraced(reports);
    if n == |reports| {
      assert reports[..n] == reports;
    } else {
      var m := |reports| - 1;
      RenderedStays(reports[..m], n);
      assert reports[..m][..n] == reports[..n];
      var pieces := Collapse(reports[..m]);
      if Collapse(reports) != pieces {
        var last := Collapse(reports)[|pieces|];
        assert Collapse(reports) == pieces + [last];
        RenderedPiece(pieces, last);
      }
    }
  }

  /** An unmasked byte is there, as itself. */
  lemma UnmaskedIsRendered(reports: seq<Report>, k: nat)
    requires k < |reports| && !reports[k].masked
    ensures Place(reports, k) < |RenderedText(reports)| == |Origins(reports)|
    ensures RenderedText(reports)[Place(reports, k)] == reports[k].value && Origins(reports)[Place(reports, k)] == k
  {
    hide Traced;
    var upTo, before := reports[..k + 1], reports[..k];
    assert upTo[..k] == before;
    RenderedStays(reports, k + 1);
    RenderedStays(before, k);
    RenderedPiece(Collapse(before), Literal(reports[k].value));
    assert Origins(upTo)[|Origins(before)|] == k;
  }

  /** One more position of a run moves nothing on. */
  lemma {:induction false} RunStaysPut(reports: seq<Report>, s: nat, e: nat)
    requires s < e <= |reports| && StartsRun(reports, s) && forall k :: s <= k < e ==> reports[k].masked
    ensures Place(reports, e) == Place(reports, s) + |REDACTION_MARKER|
    decreases e
  {
    var n := e - 1;
    assert reports[..e][..n] == reports[..n];
    if n > s {
      RunStaysPut(reports, s, n);
      assert reports[..e][n - 1].masked;
    }
  }

  /** A run is one whole marker, between the byte before it and the byte after it. */
  lemma RunIsOneMarker(reports: seq<Report>, s: nat, e: nat)
    requires IsRun(reports, s, e)
    ensures var a, out, origins := Place(reports, s), RenderedText(reports), Origins(reports);
      && a + |REDACTION_MARKER| <= |out| == |origins|
      && out[a..a + |REDACTION_MARKER|] == REDACTION_MARKER
      && (forall k :: a <= k < a + |REDACTION_MARKER| ==> origins[k] == -1)
      && (if s == 0 then a == 0 else a > 0 && origins[a - 1] == s - 1)
      && (if e == |reports| then a + |REDACTION_MARKER| == |out|
          else a + |REDACTION_MARKER| < |out| && origins[a + |REDACTION_MARKER|] == e)
  {
    hide Place, RenderedText, Origins;
    MarkerIsRendered(reports, s);
    RunStaysPut(reports, s, e);
    AtTheEnd(reports);
    if s > 0 {
      UnmaskedIsRendered(reports, s - 1);
      OneFurther(reports, s - 1);
    }
    if e < |reports| {
      UnmaskedIsRendered(reports, e);
    }
  }

  lemma OneFurther(reports: seq<Report>, k: nat)
    requires k < |reports| && !reports[k].masked
    ensures Place(reports, k + 1) == Place(reports, k) + 1
  {
    assert reports[..k + 1][..k] == reports[..k];
  }

  lemma AtTheEnd(reports: seq<Report>)
    ensures Place(reports, 0) == 0 && Place(reports, |reports|) == |Origins(reports)|
  {
    assert reports[..|reports|] == reports;
  }

  lemma MarkerIsRendered(reports: seq<Report>, s: nat)
    requires s < |reports| && StartsRun(reports, s)
    ensures var a, out, origins := Place(reports, s), RenderedText(reports), Origins(reports);
      && a + |REDACTION_MARKER| <= |out| == |origins|
      && out[a..a + |REDACTION_MARKER|] == REDACTION_MARKER
      && (forall k :: a <= k < a + |REDACTION_MARKER| ==> origins[k] == -1)
  {
    hide Traced, Render;
    var upTo, before := reports[..s + 1], reports[..s];
    assert upTo[..s] == before;
    RenderedStays(reports, s + 1);
    RenderedStays(before, s);
    RenderedPiece(Collapse(before), Marker);
    assert Origins(upTo) == Origins(before) + seq(|REDACTION_MARKER|, _ => -1);
    assert RenderedText(upTo)[|Origins(before)|..] == REDACTION_MARKER;
  }

  /** Where a run that starts here ends. */
  lemma RunFrom(reports: seq<Report>, s: nat) returns (e: nat)
    requires s < |reports| && StartsRun(reports, s)
    ensures IsRun(reports, s, e)
  {
    e := s + 1;
    while e < |reports| && reports[e].masked
      invariant s < e <= |reports| && forall k :: s <= k < e ==> reports[k].masked
    {
      e := e + 1;
    }
  }

  /** And there is nothing else: every rendered byte is an unmasked one in its place, or belongs to the marker of a run. */
  lemma {:induction false} NothingElse(reports: seq<Report>, k: nat) returns (p: nat)
    requires k < |RenderedText(reports)|
    ensures p < |reports| && (StartsRun(reports, p) || !reports[p].masked)
    ensures Place(reports, p) <= k < Place(reports, p) + if reports[p].masked then |REDACTION_MARKER| else 1
  {
    p := 0;
    if reports != [] {
      var n := |reports| - 1;
      RenderedStays(reports, n);
      RenderedStays(reports[..n], n);
      assert reports[..n][..n] == reports[..n];
      if k < |RenderedText(reports[..n])| {
        p := NothingElse(reports[..n], k);
        assert reports[..n][..p] == reports[..p];
        assert p > 0 ==> reports[..n][p - 1] == reports[p - 1];
      } else {
        p := n;
      }
    }
  }
}
