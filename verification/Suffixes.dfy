/**
 * The simple specification of matching: the longest member of a dictionary that
 * is a suffix of a text.  Used with the set of all trie words it says which state
 * the automaton is in; used with the set of patterns it says which match ends here.
 */
module Suffixes {
  import opened Bytes

  ghost predicate IsSuffix(u: Text, t: Text) {
    |u| <= |t| && t[|t| - |u|..] == u
  }

  /** The longest suffix of `t` in the dictionary; the empty text if there is none. */
  ghost function LongestSuffix(dictionary: set<Text>, t: Text): (r: Text)
    ensures IsSuffix(r, t)
    ensures r == [] || r in dictionary
  {
    if t == [] || t in dictionary then t else LongestSuffix(dictionary, t[1..])
  }

  ghost predicate PrefixClosed(dictionary: set<Text>) {
    [] in dictionary && forall w: Text, v: byte :: w + [v] in dictionary ==> w in dictionary
  }

  lemma SuffixTransitive(u: Text, v: Text, t: Text)
    requires IsSuffix(u, v) && IsSuffix(v, t)
    ensures IsSuffix(u, t)
  {
    assert t[|t| - |u|..] == t[|t| - |v|..][|v| - |u|..];
  }

  lemma ShorterSuffix(u: Text, v: Text, t: Text)
    requires IsSuffix(u, t) && IsSuffix(v, t) && |u| <= |v|
    ensures IsSuffix(u, v)
  {
    assert t[|t| - |u|..] == t[|t| - |v|..][|v| - |u|..];
  }

  /** Nothing in the dictionary that is a suffix of `t` is longer than `LongestSuffix`. */
  lemma {:induction false} LongestSuffixIsLongest(dictionary: set<Text>, t: Text, u: Text)
    requires u in dictionary && IsSuffix(u, t)
    ensures |u| <= |LongestSuffix(dictionary, t)|
  {
    if t != [] && t !in dictionary {
      ShorterSuffix(u, t[1..], t);
      LongestSuffixIsLongest(dictionary, t[1..], u);
    }
  }

  /** `LongestSuffix` is the only member of the dictionary that is maximal among the suffixes. */
  lemma LongestSuffixUnique(dictionary: set<Text>, t: Text, w: Text)
    requires IsSuffix(w, t) && (w == [] || w in dictionary)
    requires forall u :: u in dictionary && IsSuffix(u, t) ==> |u| <= |w|
    ensures w == LongestSuffix(dictionary, t)
  {
    var r := LongestSuffix(dictionary, t);
    if w != [] { LongestSuffixIsLongest(dictionary, t, w); }
    assert |r| == |w|;
  }

  /** A smaller dictionary finds the same answer in the larger dictionary's answer. */
  lemma LongestSuffixOfSubset(small: set<Text>, large: set<Text>, t: Text)
    requires small <= large
    ensures LongestSuffix(small, t) == LongestSuffix(small, LongestSuffix(large, t))
  {
    var w := LongestSuffix(large, t);
    var r := LongestSuffix(small, w);
    SuffixTransitive(r, w, t);
    forall u | u in small && IsSuffix(u, t)
      ensures |u| <= |r|
    {
      LongestSuffixIsLongest(large, t, u);
      ShorterSuffix(u, w, t);
      LongestSuffixIsLongest(small, w, u);
    }
    LongestSuffixUnique(small, t, r);
  }

  lemma SuffixOfExtension(u: Text, t: Text, v: byte)
    ensures IsSuffix(u + [v], t + [v]) <==> IsSuffix(u, t)
  {
    if |u| <= |t| {
      assert (t + [v])[|t| - |u|..] == t[|t| - |u|..] + [v];
      assert (u + [v])[..|u|] == u;
      assert (t[|t| - |u|..] + [v])[..|u|] == t[|t| - |u|..];
    }
  }

  lemma SplitSuffix(u: Text, t: Text, v: byte)
    requires u != [] && IsSuffix(u, t + [v])
    ensures u == u[..|u| - 1] + [v] && IsSuffix(u[..|u| - 1], t)
  {
    assert u[|u| - 1] == (t + [v])[|t| + 1 - |u|..][|u| - 1] == v;
    SuffixOfExtension(u[..|u| - 1], t, v);
    assert u == u[..|u| - 1] + [v];
  }

  /** Only the automaton's current word matters for its next word. */
  lemma LongestSuffixStep(dictionary: set<Text>, t: Text, v: byte)
    requires PrefixClosed(dictionary)
    ensures LongestSuffix(dictionary, t + [v]) == LongestSuffix(dictionary, LongestSuffix(dictionary, t) + [v])
  {
    var w := LongestSuffix(dictionary, t);
    var r := LongestSuffix(dictionary, w + [v]);
    SuffixOfExtension(w, t, v);
    SuffixTransitive(r, w + [v], t + [v]);
    forall u | u in dictionary && IsSuffix(u, t + [v])
      ensures |u| <= |r|
    {
      if u != [] {
        SplitSuffix(u, t, v);
        var u' := u[..|u| - 1];
        LongestSuffixIsLongest(dictionary, t, u');
        ShorterSuffix(u', w, t);
        SuffixOfExtension(u', w, v);
        LongestSuffixIsLongest(dictionary, w + [v], u);
      }
    }
    LongestSuffixUnique(dictionary, t + [v], r);
  }
}
