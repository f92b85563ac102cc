/** The strings of a JSON text from their delimiting quotes, without scanning it. */
module JsonDelimiters {
  import opened Bytes
  import opened Masking
  import opened JsonStrings

  /** How many backslashes directly precede the position, from `start` on. */
  function Backslashes(text: Text, start: nat, k: nat): nat
    requires k <= |text|
  {
    if k <= start || text[k - 1] != BACKSLASH then 0 else Backslashes(text, start, k - 1) + 1
  }

  /** The first `j` delimiters are before the position, and the others are not. */
  ghost predicate Splits(quotes: seq<nat>, j: nat, k: nat) {
    && j <= |quotes|
    && (forall i :: 0 <= i < j ==> quotes[i] < k)
    && forall i :: j <= i < |quotes| ==> k <= quotes[i]
  }

  /** A quote is escaped if, inside a string, an odd number of backslashes directly precedes it. */
  predicate Escaped(text: Text, quotes: seq<nat>, j: nat, k: nat)
    requires j <= |quotes| && k <= |text|
  {
    j % 2 == 1 && Backslashes(text, quotes[j - 1] + 1, k) % 2 == 1
  }

  /** These are, in order, all quotes of the text that are not escaped. */
  ghost predicate Delimiters(text: Text, quotes: seq<nat>) {
    && (forall i :: 0 <= i < |quotes| ==> quotes[i] < |text| && text[quotes[i]] == QUOTE)
    && (forall i, j :: 0 <= i < j < |quotes| ==> quotes[i] < quotes[j])
    && forall k, j :: 0 <= k < |text| && text[k] == QUOTE && Splits(quotes, j, k) ==> (k in quotes <==> !Escaped(text, quotes, j, k))
  }

  /** The position is strictly between a delimiter and its partner, or after one that has none. */
  ghost predicate Between(quotes: seq<nat>, k: nat) {
    exists i :: i % 2 == 0 && 0 <= i < |quotes| && quotes[i] < k && (i + 1 < |quotes| ==> k < quotes[i + 1])
  }

  function TextOf(reports: seq<Report>): Text {
    seq(|reports|, k requires 0 <= k < |reports| => reports[k].value)
  }

  /** What the scanner knows after `n` bytes. */
  lemma {:induction false} ScanFollows(reports: seq<Report>, quotes: seq<nat>, n: nat, j: nat)
    requires n <= |reports| && Delimiters(TextOf(reports), quotes) && Splits(quotes, j, n)
    ensures ScanOf(reports[..n]) == Scan(j % 2 == 1, Escaped(TextOf(reports), quotes, j, n))
  {
    var text := TextOf(reports);
    if n == 0 {
      assert j == 0;
    } else {
      var m := n - 1;
      assert reports[..n][..m] == reports[..m];
      var i := if j > 0 && quotes[j - 1] == m then j - 1 else j;
      assert Splits(quotes, i, m);
      ScanFollows(reports, quotes, m, i);
      assert text[m] == reports[..n][m].value;
      assert m in quotes <==> i < j;
    }
  }

  lemma {:induction false} BackslashesStay(text: Text, value: byte, start: nat, k: nat)
    requires k <= |text|
    ensures Backslashes(text + [value], start, k) == Backslashes(text, start, k)
  {
    if k > start {
      BackslashesStay(text, value, start, k - 1);
    }
  }

  /** What the last byte adds: itself, if it is a quote that is not escaped. */
  lemma DelimitersMore(text: Text, value: byte, quotes: seq<nat>)
    requires Delimiters(text, quotes)
    ensures var adds := value == QUOTE && !Escaped(text, quotes, |quotes|, |text|);
      Delimiters(text + [value], if adds then quotes + [|text|] else quotes)
  {
    var longer, adds := text + [value], value == QUOTE && !Escaped(text, quotes, |quotes|, |text|);
    var more := if adds then quotes + [|text|] else quotes;
    forall k: nat, j: nat | k < |longer| && longer[k] == QUOTE && Splits(more, j, k)
      ensures k in more <==> !Escaped(longer, more, j, k)
    {
      DelimitersAt(text, value, quotes, more, k, j);
    }
  }

  /** So many delimiters are before a position. */
  lemma {:induction false} Count(quotes: seq<nat>, k: nat) returns (j: nat)
    requires forall a, b :: 0 <= a < b < |quotes| ==> quotes[a] < quotes[b]
    ensures Splits(quotes, j, k)
  {
    j := 0;
    while j < |quotes| && quotes[j] < k
      invariant j <= |quotes| && forall i :: 0 <= i < j ==> quotes[i] < k
    {
      j := j + 1;
    }
  }

  lemma NotSplit(quotes: seq<nat>, i: nat, j: nat, k: nat)
    requires Splits(quotes, i, k) && i < j <= |quotes|
    ensures !Splits(quotes, j, k)
  {
    assert k <= quotes[i];
  }

  lemma SplitsOnce(quotes: seq<nat>, i: nat, j: nat, k: nat)
    requires Splits(quotes, i, k) && Splits(quotes, j, k)
    ensures i == j
  {
    if i < j {
      NotSplit(quotes, i, j, k);
    } else if j < i {
      NotSplit(quotes, j, i, k);
    }
  }

  /** A delimiter at the end changes nothing about the positions up to it. */
  lemma SplitsBefore(quotes: seq<nat>, more: seq<nat>, bound: nat, j: nat, k: nat)
    requires forall a, b :: 0 <= a < b < |quotes| ==> quotes[a] < quotes[b]
    requires forall i :: 0 <= i < |quotes| ==> quotes[i] < bound
    requires (more == quotes || more == quotes + [bound]) && k <= bound && Splits(more, j, k)
    ensures Splits(quotes, j, k) && (k == bound ==> j == |quotes|)
  {
    var i := Count(quotes, k);
    assert forall n :: 0 <= n < |quotes| ==> more[n] == quotes[n];
    assert Splits(more, i, k);
    SplitsOnce(more, i, j, k);
    if k == bound {
      assert Splits(quotes, |quotes|, k);
      SplitsOnce(quotes, |quotes|, j, k);
    }
  }

  lemma DelimitersAt(text: Text, value: byte, quotes: seq<nat>, more: seq<nat>, k: nat, j: nat)
    requires Delimiters(text, quotes) && k <= |text| && (text + [value])[k] == QUOTE && Splits(more, j, k)
    requires var adds := value == QUOTE && !Escaped(text, quotes, |quotes|, |text|);
      more == if adds then quotes + [|text|] else quotes
    ensures k in more <==> !Escaped(text + [value], more, j, k)
  {
    SplitsBefore(quotes, more, |text|, j, k);
    hide Splits;
    if j > 0 {
      BackslashesStay(text, value, quotes[j - 1] + 1, k);
      assert more[j - 1] == quotes[j - 1];
    }
    assert k < |text| ==> (k in more <==> k in quotes);
  }

  /** Every text has its delimiters. */
  lemma {:induction false} DelimitersExist(text: Text) returns (quotes: seq<nat>)
    ensures Delimiters(text, quotes)
  {
    if text == [] {
      quotes := [];
    } else {
      var n := |text| - 1;
      var before := DelimitersExist(text[..n]);
      assert text[..n] + [text[n]] == text;
      DelimitersMore(text[..n], text[n], before);
      quotes := if text[n] == QUOTE && !Escaped(text[..n], before, |before|, n) then before + [n] else before;
    }
  }

  /** A position is in the body of a string exactly if it lies between two partners, or after a delimiter without one. */
  lemma BodyIsBetween(reports: seq<Report>, quotes: seq<nat>, k: nat)
    requires Delimiters(TextOf(reports), quotes) && k < |reports|
    ensures InStringBody(reports, k) <==> Between(quotes, k)
  {
    var j := Count(quotes, k);
    ScanFollows(reports, quotes, k, j);
    var text := TextOf(reports);
    assert text[k] == QUOTE ==> (k in quotes <==> !Escaped(text, quotes, j, k));
    if j % 2 == 1 {
      assert k in quotes <==> j < |quotes| && quotes[j] == k;
      assert k !in quotes ==> quotes[j - 1] < k && (j < |quotes| ==> k < quotes[j]);
    }
    if Between(quotes, k) {
      var i :| i % 2 == 0 && 0 <= i < |quotes| && quotes[i] < k && (i + 1 < |quotes| ==> k < quotes[i + 1]);
      assert j == i + 1;
    }
  }

  /** So a payload is unsafe exactly if something masked is not there. */
  lemma UnsafeExactly(reports: seq<Report>, quotes: seq<nat>)
    requires Delimiters(TextOf(reports), quotes)
    ensures UnsafeJson(reports) <==> exists k :: 0 <= k < |reports| && reports[k].masked && !Between(quotes, k)
  {
    hide Delimiters, InStringBody, Between;
    forall k | 0 <= k < |reports|
      ensures InStringBody(reports, k) <==> Between(quotes, k)
    {
      BodyIsBetween(reports, quotes, k);
    }
  }

  /** Before the first delimiter, between two strings, and at a delimiter itself, nothing can be masked safely. */
  lemma MaskedOutside(reports: seq<Report>, quotes: seq<nat>, k: nat, i: nat)
    requires Delimiters(TextOf(reports), quotes) && k < |reports| && reports[k].masked
    requires i % 2 == 0 && i <= |quotes| && (i > 0 ==> quotes[i - 1] <= k) && (i < |quotes| ==> k <= quotes[i])
    ensures UnsafeJson(reports)
  {
    UnsafeExactly(reports, quotes);
    if Between(quotes, k) {
      var n :| n % 2 == 0 && 0 <= n < |quotes| && quotes[n] < k && (n + 1 < |quotes| ==> k < quotes[n + 1]);
      assert false;
    }
  }
}
