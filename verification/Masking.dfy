/** The simple specification of redaction: mask every position inside any occurrence of any pattern. */
module Masking {
  import opened Bytes
  import opened Suffixes

  ghost predicate OccursAt(p: Text, text: Text, i: int) {
    0 <= i <= i + |p| <= |text| && text[i..i + |p|] == p
  }

  /** Position `k` lies inside some occurrence of some pattern. */
  ghost predicate Masked(patterns: set<Text>, text: Text, k: int) {
    exists p: Text, i: int :: p in patterns && OccursAt(p, text, i) && i <= k < i + |p|
  }

  lemma OccurrenceIsMasked(patterns: set<Text>, text: Text, p: Text, i: nat)
    requires p in patterns && p != [] && OccursAt(p, text, i)
    ensures Masked(patterns, text, i)
  {
  }

  datatype Report = Report(value: byte, masked: bool)

  /** Every byte of the text, in order, with its masking status. */
  ghost function Mask(patterns: set<Text>, text: Text): (reports: seq<Report>)
    ensures |reports| == |text|
    ensures forall k :: 0 <= k < |text| ==> reports[k] == Report(text[k], Masked(patterns, text, k))
  {
    seq(|text|, k requires 0 <= k < |text| => Report(text[k], Masked(patterns, text, k)))
  }

  /** The longest match that ends right before `r` covers `k`. */
  ghost predicate CoveredBy(patterns: set<Text>, text: Text, k: int, r: int)
    requires 0 <= r <= |text|
  {
    r - |LongestSuffix(patterns, text[..r])| <= k < r
  }

  /** The longest match at each end is enough: shorter ones mask nothing more. */
  lemma LongestMatchesMask(patterns: set<Text>, text: Text, k: int)
    ensures Masked(patterns, text, k) <==> exists r :: 0 <= r <= |text| && CoveredBy(patterns, text, k, r)
  {
    if Masked(patterns, text, k) {
      var p: Text, i: int :| p in patterns && OccursAt(p, text, i) && i <= k < i + |p|;
      var r := i + |p|;
      assert text[..r][|text[..r]| - |p|..] == text[i..r];
      LongestSuffixIsLongest(patterns, text[..r], p);
      assert CoveredBy(patterns, text, k, r);
    }
    if r :| 0 <= r <= |text| && CoveredBy(patterns, text, k, r) {
      var p := LongestSuffix(patterns, text[..r]);
      assert text[..r][r - |p|..] == text[r - |p|..r];
      assert OccursAt(p, text, r - |p|);
    }
  }

  /** One more byte adds exactly the positions covered by the longest match ending there. */
  lemma MaskedExtension(patterns: set<Text>, text: Text, v: byte, k: int)
    ensures Masked(patterns, text + [v], k) <==>
            Masked(patterns, text, k) || CoveredBy(patterns, text + [v], k, |text| + 1)
  {
    var longer := text + [v];
    forall r | 0 <= r <= |text|
      ensures CoveredBy(patterns, longer, k, r) <==> CoveredBy(patterns, text, k, r)
    {
      assert longer[..r] == text[..r];
    }
    LongestMatchesMask(patterns, text, k);
    LongestMatchesMask(patterns, longer, k);
    if r :| 0 <= r <= |text| && CoveredBy(patterns, text, k, r) {
      assert CoveredBy(patterns, longer, k, r);
    }
  }

  /** A position further back than the longest pattern is decided: more bytes change nothing. */
  lemma MaskedIsStable(patterns: set<Text>, text: Text, more: Text, maximum: nat, k: int)
    requires forall p <- patterns :: |p| <= maximum
    requires k + maximum <= |text|
    ensures Masked(patterns, text + more, k) <==> Masked(patterns, text, k)
  {
    var longer := text + more;
    forall p: Text, i: int | p in patterns && i <= k < i + |p|
      ensures OccursAt(p, text, i) <==> OccursAt(p, longer, i)
    {
      if 0 <= i { assert longer[i..i + |p|] == text[i..i + |p|]; }
    }
    if Masked(patterns, longer, k) {
      var p: Text, i: int :| p in patterns && OccursAt(p, longer, i) && i <= k < i + |p|;
      assert OccursAt(p, text, i);
    }
    if Masked(patterns, text, k) {
      var p: Text, i: int :| p in patterns && OccursAt(p, text, i) && i <= k < i + |p|;
      assert OccursAt(p, longer, i);
    }
  }

  /** What emit mode writes: plain bytes, and one marker for each masked run. */
  datatype Piece = Literal(value: byte) | Marker

  /** Each maximal masked run collapsed to one marker. */
  function Collapse(reports: seq<Report>): seq<Piece> {
    if reports == [] then []
    else
      var n := |reports| - 1;
      Collapse(reports[..n]) +
      if !reports[n].masked then [Literal(reports[n].value)]
      else if n > 0 && reports[n - 1].masked then []
      else [Marker]
  }
}
