/** Well-formed UTF-8 (section 4 of RFC 3629), as Go's `unicode/utf8` decides it. */
module Utf8 {
  import opened Bytes

  /** The length announced by a leading byte; 0 for a byte that cannot lead. */
  function LeadLength(b: byte): (n: nat)
    ensures n <= 4
  {
    if b < 0x80 then 1
    else if 0xC2 <= b <= 0xDF then 2
    else if 0xE0 <= b <= 0xEF then 3
    else if 0xF0 <= b <= 0xF4 then 4
    else 0
  }

  /** The second byte has a narrower range after some leading bytes. */
  predicate SecondByteOk(lead: byte, b: byte) {
    (if lead == 0xE0 then 0xA0 else if lead == 0xF0 then 0x90 else 0x80) <= b <=
    (if lead == 0xED then 0x9F else if lead == 0xF4 then 0x8F else 0xBF)
  }

  predicate Continuation(b: byte) { 0x80 <= b <= 0xBF }

  /** The length of the well-formed encoding at the start of the text; 0 if there is none. */
  function RuneLength(s: Text): (n: nat)
    ensures n <= 4 && n <= |s|
  {
    if s == [] then 0
    else
      var n := LeadLength(s[0]);
      if n == 0 || |s| < n then 0
      else if n == 1 then 1
      else if !SecondByteOk(s[0], s[1]) then 0
      else if n >= 3 && !Continuation(s[2]) then 0
      else if n == 4 && !Continuation(s[3]) then 0
      else n
  }

  predicate ValidUtf8(s: Text) {
    s == [] || (RuneLength(s) > 0 && ValidUtf8(s[RuneLength(s)..]))
  }

  lemma {:induction false} ValidConcat(a: Text, b: Text)
    requires ValidUtf8(a) && ValidUtf8(b)
    ensures ValidUtf8(a + b)
    decreases |a|
  {
    if a == [] {
      assert a + b == b;
    } else {
      var n := RuneLength(a);
      ValidConcat(a[n..], b);
      assert RuneLength(a + b) == n;
      assert (a + b)[n..] == a[n..] + b;
    }
  }

  /** Cutting a valid text anywhere leaves a valid text after dropping at most three more bytes. */
  lemma {:induction false} CutLosesLittle(s: Text, n: nat) returns (kept: nat)
    requires ValidUtf8(s) && n <= |s|
    ensures kept <= n <= kept + 3
    ensures ValidUtf8(s[..kept])
    decreases |s|
  {
    if s == [] || n < RuneLength(s) {
      kept := 0;
    } else {
      var r := RuneLength(s);
      var rest := CutLosesLittle(s[r..], n - r);
      kept := r + rest;
      assert s[..kept] == s[..r] + s[r..][..rest];
      assert s[..r][r..] == [];
      assert RuneLength(s[..r]) == r;
      ValidConcat(s[..r], s[r..][..rest]);
    }
  }

  lemma {:induction false} AsciiIsValid(s: Text)
    requires forall k :: 0 <= k < |s| ==> s[k] < 0x80
    ensures ValidUtf8(s)
  {
    if s != [] {
      AsciiIsValid(s[1..]);
    }
  }

  /** The longest valid prefix. */
  method TrimToValid(content: Text) returns (kept: Text)
    ensures kept <= content && ValidUtf8(kept)
    ensures forall n :: 0 <= n <= |content| && ValidUtf8(content[..n]) ==> n <= |kept|
  {
    kept := content;
    while |kept| > 0 && !ValidUtf8(kept)
      invariant kept <= content
      invariant forall n :: |kept| < n <= |content| ==> !ValidUtf8(content[..n])
    {
      assert kept == content[..|kept|];
      kept := kept[..|kept| - 1];
    }
    assert kept == content[..|kept|];
  }
}
