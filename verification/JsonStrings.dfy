/** Which bytes of a JSON text lie inside the body of a string literal. */
module JsonStrings {
  import opened Bytes
  import opened Masking

  datatype Scan = Scan(inString: bool, escaped: bool)

  const OUTSIDE := Scan(false, false)

  /** The scanner state after one more byte. */
  function Step(scan: Scan, value: byte): Scan {
    if scan.inString then
      if scan.escaped then scan.(escaped := false)
      else if value == BACKSLASH then scan.(escaped := true)
      else if value == QUOTE then scan.(inString := false)
      else scan
    else if value == QUOTE then scan.(inString := true)
    else scan
  }

  function ScanOf(reports: seq<Report>): Scan {
    if reports == [] then OUTSIDE
    else Step(ScanOf(reports[..|reports| - 1]), reports[|reports| - 1].value)
  }

  /** Position `k` belongs to a string's body: not syntax, not a scalar, not a delimiting quote. */
  predicate InStringBody(reports: seq<Report>, k: nat)
    requires k < |reports|
  {
    var scan := ScanOf(reports[..k]);
    scan.inString && (scan.escaped || reports[k].value != QUOTE)
  }

  /** Some masked byte lies outside every string body, so it cannot be replaced safely. */
  ghost predicate UnsafeJson(reports: seq<Report>) {
    exists k :: 0 <= k < |reports| && reports[k].masked && !InStringBody(reports, k)
  }

  lemma UnsafeJsonStep(reports: seq<Report>, last: Report)
    ensures UnsafeJson(reports + [last]) <==>
            UnsafeJson(reports) || (last.masked && !InStringBody(reports + [last], |reports|))
  {
    var all := reports + [last];
    forall k | 0 <= k < |reports|
      ensures InStringBody(all, k) <==> InStringBody(reports, k)
    {
      assert all[..k] == reports[..k];
    }
    if k :| 0 <= k < |reports| && reports[k].masked && !InStringBody(reports, k) {
      assert all[k].masked && !InStringBody(all, k);
    }
    if last.masked && !InStringBody(all, |reports|) {
      assert all[|reports|].masked;
    }
  }
}
