/**
 * The sparse Aho-Corasick automaton: a trie kept in two growing lists, then failure
 * links set breadth first.  Ghost fields record the word each node spells, so that
 * everything the automaton does can be stated about words.
 */
module SecretPatterns {
  import opened Bytes
  import opened Suffixes

  datatype MatchNode = MatchNode(edge: int, failure: nat, longest: nat)

  datatype MatchEdge = MatchEdge(value: byte, target: nat, next: int)

  const MAXIMUM_PATTERNS := 512
  const MAXIMUM_PATTERN_BYTES := 768 * 1024
  const MAXIMUM_HOLDBACK := 128 * 1024

  /** The distinct nonempty variants, in order of first appearance. */
  function DistinctPatterns(variants: seq<Text>): (keys: seq<Text>)
    ensures forall i, j :: 0 <= i < j < |keys| ==> keys[i] != keys[j]
    ensures forall w :: w in keys <==> w in variants && w != []
  {
    if variants == [] then []
    else
      var n := |variants| - 1;
      var rest := DistinctPatterns(variants[..n]);
      assert variants == variants[..n] + [variants[n]];
      if variants[n] == [] || variants[n] in rest then rest else rest + [variants[n]]
  }

  function TotalBytes(keys: seq<Text>): nat {
    if keys == [] then 0 else TotalBytes(keys[..|keys| - 1]) + |keys[|keys| - 1]|
  }

  function LongestKey(keys: seq<Text>): (m: nat)
    ensures forall w :: w in keys ==> |w| <= m
    ensures m == 0 || exists w :: w in keys && |w| == m
  {
    if keys == [] then 0
    else
      assert keys == keys[..|keys| - 1] + [keys[|keys| - 1]];
      Max(LongestKey(keys[..|keys| - 1]), |keys[|keys| - 1]|)
  }

  predicate ExceedsLimits(keys: seq<Text>) {
    |keys| > MAXIMUM_PATTERNS || TotalBytes(keys) > MAXIMUM_PATTERN_BYTES || LongestKey(keys) > MAXIMUM_HOLDBACK
  }

  ghost function Dictionary(words: seq<Text>): set<Text> {
    set w | w in words
  }

  /** `e` is the last edge before `bound` that leaves node `s`, or -1. */
  ghost predicate LastEdgeFrom(sources: seq<nat>, s: nat, bound: int, e: int) {
    && -1 <= e < bound <= |sources|
    && (e >= 0 ==> sources[e] == s)
    && forall k :: e < k < bound ==> sources[k] != s
  }

  /**
   * Edge `e` leads from `sources[e]` to node `e + 1`, and each node's edges form one
   * chain of strictly falling indices, so a chain is finite and lists all of them.
   */
  ghost predicate TrieShape(nodes: seq<MatchNode>, edges: seq<MatchEdge>, words: seq<Text>, sources: seq<nat>) {
    && |nodes| == |words| == |edges| + 1
    && |sources| == |edges|
    && words[0] == []
    && (forall e {:trigger edges[e]} :: 0 <= e < |edges| ==>
         && edges[e].target == e + 1
         && sources[e] <= e
         && words[e + 1] == words[sources[e]] + [edges[e].value]
         && LastEdgeFrom(sources, sources[e], e, edges[e].next))
    && (forall s {:trigger nodes[s]} :: 0 <= s < |nodes| ==> LastEdgeFrom(sources, s, |edges|, nodes[s].edge))
    && (forall a, b :: 0 <= a < b < |words| ==> words[a] != words[b])
  }

  /** Before failure links: a node records its own word's length if that word is a pattern. */
  ghost predicate Unlinked(node: MatchNode, word: Text, patterns: set<Text>) {
    node.failure == 0 && node.longest == if word in patterns then |word| else 0
  }

  /** After failure links: what the automaton promises about one node. */
  ghost predicate Linked(node: MatchNode, words: seq<Text>, patterns: set<Text>, x: nat)
    requires x < |words|
  {
    && node.failure < |words|
    && (words[x] != [] ==> words[node.failure] == LongestSuffix(Dictionary(words), words[x][1..]))
    && node.longest == |LongestSuffix(patterns, words[x])|
  }

  lemma ParentWord(nodes: seq<MatchNode>, edges: seq<MatchEdge>, words: seq<Text>, sources: seq<nat>, x: nat)
    requires TrieShape(nodes, edges, words, sources) && 1 <= x < |words|
    ensures sources[x - 1] < x && words[x] == words[sources[x - 1]] + [edges[x - 1].value]
  {
    var edge := edges[x - 1];
  }

  /** A list of distinct numbers below `n` is no longer than `n`. */
  lemma {:induction false} Pigeonhole(queue: seq<nat>, n: nat)
    requires forall i :: 0 <= i < |queue| ==> queue[i] < n
    requires forall i, j :: 0 <= i < j < |queue| ==> queue[i] != queue[j]
    ensures |queue| <= n
    decreases n
  {
    if queue != [] {
      var first := queue[0];
      if i :| 0 <= i < |queue| && queue[i] == n - 1 {
        Pigeonhole(queue[..i] + queue[i + 1..], n - 1);
      } else {
        Pigeonhole(queue, n - 1);
      }
    }
  }

  /** Failure links and match lengths are no part of the trie's shape. */
  lemma ShapeIgnoresLinks(
    nodes: seq<MatchNode>, nodes': seq<MatchNode>, edges: seq<MatchEdge>, words: seq<Text>, sources: seq<nat>)
    requires TrieShape(nodes, edges, words, sources)
    requires |nodes'| == |nodes| && forall s :: 0 <= s < |nodes| ==> nodes'[s].edge == nodes[s].edge
    ensures TrieShape(nodes', edges, words, sources)
  {
  }

  lemma TrieIsPrefixClosed(nodes: seq<MatchNode>, edges: seq<MatchEdge>, words: seq<Text>, sources: seq<nat>)
    requires TrieShape(nodes, edges, words, sources)
    ensures PrefixClosed(Dictionary(words))
  {
    assert words[0] in words;
    forall w: Text, v: byte | w + [v] in words
      ensures w in words
    {
      var x :| 0 <= x < |words| && words[x] == w + [v];
      ParentWord(nodes, edges, words, sources, x);
      assert words[sources[x - 1]] == words[x][..|w|] == w;
    }
  }

  /** The only way to spell a longer word is an edge from the node of its parent. */
  lemma ChildHasEdge(
    nodes: seq<MatchNode>, edges: seq<MatchEdge>, words: seq<Text>, sources: seq<nat>, state: nat, value: byte)
    requires TrieShape(nodes, edges, words, sources) && state < |words|
    ensures words[state] + [value] in words ==>
      exists e :: 0 <= e < |edges| && sources[e] == state && edges[e].value == value
  {
    if words[state] + [value] in words {
      var x :| 0 <= x < |words| && words[x] == words[state] + [value];
      var n := |words[x]| - 1;
      ParentWord(nodes, edges, words, sources, x);
      assert words[sources[x - 1]] == words[x][..n] == words[state];
      assert edges[x - 1].value == words[x][n] == value;
    }
  }

  /** `w` is long enough: no longer suffix of `t` can be followed by `value`. */
  ghost predicate LongEnough(dictionary: set<Text>, t: Text, value: byte, w: Text) {
    IsSuffix(w, t) && forall u :: IsSuffix(u, t) && u + [value] in dictionary ==> |u| <= |w|
  }

  lemma ParentInDictionary(dictionary: set<Text>, u: Text, value: byte)
    requires PrefixClosed(dictionary) && u + [value] in dictionary
    ensures u in dictionary
  {
  }

  lemma FallbackStep(dictionary: set<Text>, t: Text, value: byte, w: Text)
    requires PrefixClosed(dictionary)
    requires w != [] && LongEnough(dictionary, t, value, w) && w + [value] !in dictionary
    ensures LongEnough(dictionary, t, value, LongestSuffix(dictionary, w[1..]))
  {
    hide LongestSuffix, PrefixClosed;
    var f := LongestSuffix(dictionary, w[1..]);
    SuffixTransitive(w[1..], w, t);
    SuffixTransitive(f, w[1..], t);
    forall u | IsSuffix(u, t) && u + [value] in dictionary
      ensures |u| <= |f|
    {
      assert |u| != |w|;
      ParentInDictionary(dictionary, u, value);
      ShorterSuffix(u, w[1..], t);
      LongestSuffixIsLongest(dictionary, w[1..], u);
    }
  }

  lemma FallbackEnds(dictionary: set<Text>, t: Text, value: byte, w: Text)
    requires LongEnough(dictionary, t, value, w)
    requires w == [] || w + [value] in dictionary
    ensures LongestSuffix(dictionary, t + [value]) == if w + [value] in dictionary then w + [value] else []
  {
    hide LongestSuffix;
    var r := if w + [value] in dictionary then w + [value] else [];
    SuffixOfExtension(w, t, value);
    forall u | u in dictionary && IsSuffix(u, t + [value])
      ensures |u| <= |r|
    {
      if u != [] { SplitSuffix(u, t, value); }
    }
    LongestSuffixUnique(dictionary, t + [value], r);
  }

  /** A node's match length is its own or the one its failure link already knows. */
  lemma LongestThroughFailure(patterns: set<Text>, dictionary: set<Text>, w: Text, failure: Text)
    requires patterns <= dictionary && w != []
    requires failure == LongestSuffix(dictionary, w[1..])
    ensures |LongestSuffix(patterns, w)| ==
            Max(if w in patterns then |w| else 0, |LongestSuffix(patterns, failure)|)
  {
    LongestSuffixOfSubset(patterns, dictionary, w[1..]);
    assert |LongestSuffix(patterns, w[1..])| < |w|;
  }

  /** What following the failure link of `w` gives for its child `w + [v]`. */
  lemma ChildFailure(dictionary: set<Text>, w: Text, v: byte)
    requires PrefixClosed(dictionary) && w != []
    ensures LongestSuffix(dictionary, LongestSuffix(dictionary, w[1..]) + [v]) == LongestSuffix(dictionary, (w + [v])[1..])
  {
    assert (w + [v])[1..] == w[1..] + [v];
    LongestSuffixStep(dictionary, w[1..], v);
  }

  lemma ChildLinked(words: seq<Text>, patterns: set<Text>, state: nat, v: byte, child: nat, failure: nat, own: nat, inherited: nat)
    requires state < |words| && child < |words| && failure < |words|
    requires PrefixClosed(Dictionary(words)) && patterns <= Dictionary(words)
    requires words[state] != [] && words[child] == words[state] + [v]
    requires words[failure] == LongestSuffix(Dictionary(words), LongestSuffix(Dictionary(words), words[state][1..]) + [v])
    requires own == if words[child] in patterns then |words[child]| else 0
    requires |words[failure]| <= |words[state]| ==> inherited == |LongestSuffix(patterns, words[failure])|
    ensures forall edge :: Linked(MatchNode(edge, failure, Max(own, inherited)), words, patterns, child)
  {
    ChildFailure(Dictionary(words), words[state], v);
    LongestThroughFailure(patterns, Dictionary(words), words[child], words[failure]);
  }

  /** The nodes waiting in the queue: children of the finished nodes, and those of `state` after edge `e`. */
  ghost predicate Waiting(sources: seq<nat>, queue: seq<nat>, done: set<nat>, state: nat, e: int) {
    forall x :: 1 <= x <= |sources| ==>
      (x in queue <==> sources[x - 1] in done || (sources[x - 1] == state && e < x - 1))
  }

  /** The breadth-first invariant: exactly the root and the queued nodes have their links. */
  ghost predicate LinkedSoFar(nodes: seq<MatchNode>, words: seq<Text>, patterns: set<Text>, queue: seq<nat>) {
    && |nodes| == |words| > 0
    && Linked(nodes[0], words, patterns, 0)
    && forall x {:trigger nodes[x]} :: 1 <= x < |nodes| ==>
         if x in queue then Linked(nodes[x], words, patterns, x) else Unlinked(nodes[x], words[x], patterns)
  }

  lemma LinkedSoFarStep(
    nodes: seq<MatchNode>, nodes': seq<MatchNode>, words: seq<Text>, patterns: set<Text>, queue: seq<nat>, child: nat)
    requires LinkedSoFar(nodes, words, patterns, queue)
    requires |nodes'| == |nodes| && 1 <= child < |nodes|
    requires forall x :: 0 <= x < |nodes| && x != child ==> nodes'[x] == nodes[x]
    requires Linked(nodes'[child], words, patterns, child)
    ensures LinkedSoFar(nodes', words, patterns, queue + [child])
  {
    hide Linked;
  }

  lemma WaitingStep(
    nodes: seq<MatchNode>, edges: seq<MatchEdge>, words: seq<Text>, sources: seq<nat>,
    queue: seq<nat>, done: set<nat>, state: nat, e: nat)
    requires TrieShape(nodes, edges, words, sources) && Waiting(sources, queue, done, state, e)
    requires e < |edges| && sources[e] == state
    ensures Waiting(sources, queue + [e + 1], done, state, edges[e].next)
  {
    assert LastEdgeFrom(sources, state, e, edges[e].next);
  }

  ghost predicate Ordered(words: seq<Text>, queue: seq<nat>) {
    && (forall i :: 0 <= i < |queue| ==> 1 <= queue[i] < |words|)
    && (forall i, j :: 0 <= i < j < |queue| ==> queue[i] != queue[j] && |words[queue[i]]| <= |words[queue[j]]|)
  }

  ghost function Finished(queue: seq<nat>, head: nat): set<nat>
    requires head <= |queue|
  {
    {0} + set i | 0 <= i < head :: queue[i]
  }

  /** Breadth first: when a node is taken from the queue, everything no deeper is already in it. */
  lemma {:induction false} ShallowNodesQueued(
    nodes: seq<MatchNode>, edges: seq<MatchEdge>, words: seq<Text>, sources: seq<nat>,
    queue: seq<nat>, head: nat, e: int, x: nat)
    requires TrieShape(nodes, edges, words, sources) && Ordered(words, queue) && head < |queue|
    requires Waiting(sources, queue, Finished(queue, head), queue[head], e)
    requires 1 <= x < |words| && |words[x]| <= |words[queue[head]]|
    ensures x in queue
    decreases x
  {
    var p := sources[x - 1];
    ParentWord(nodes, edges, words, sources, x);
    if p != 0 {
      ShallowNodesQueued(nodes, edges, words, sources, queue, head, e, p);
      var i :| 0 <= i < |queue| && queue[i] == p;
      assert i < head;
    }
    assert p in Finished(queue, head);
  }

  /** The next child is new and no shallower than anything queued before it. */
  lemma QueueStaysOrdered(
    nodes: seq<MatchNode>, edges: seq<MatchEdge>, words: seq<Text>, sources: seq<nat>,
    queue: seq<nat>, head: nat, e: nat)
    requires TrieShape(nodes, edges, words, sources) && Ordered(words, queue) && head < |queue|
    requires Waiting(sources, queue, Finished(queue, head), queue[head], e)
    requires e < |edges| && sources[e] == queue[head]
    ensures Ordered(words, queue + [e + 1])
  {
    forall i | 0 <= i < |queue|
      ensures queue[i] != e + 1 && |words[queue[i]]| <= |words[e + 1]|
    {
      var p := sources[queue[i] - 1];
      assert queue[i] in queue;
      assert queue[head] !in Finished(queue, head);
      ParentWord(nodes, edges, words, sources, queue[i]);
      ParentWord(nodes, edges, words, sources, e + 1);
    }
  }

  /** So following failure links from the node taken from the queue meets only finished nodes. */
  lemma ShallowNodesLinked(
    nodes: seq<MatchNode>, edges: seq<MatchEdge>, words: seq<Text>, sources: seq<nat>, patterns: set<Text>,
    queue: seq<nat>, head: nat, e: nat)
    requires TrieShape(nodes, edges, words, sources) && Ordered(words, queue) && head < |queue|
    requires Waiting(sources, queue, Finished(queue, head), queue[head], e)
    requires LinkedSoFar(nodes, words, patterns, queue)
    requires e < |edges| && sources[e] == queue[head]
    ensures forall x {:trigger Linked(nodes[x], words, patterns, x)} ::
              0 <= x < |nodes| && |words[x]| <= |words[queue[head]]| ==> Linked(nodes[x], words, patterns, x)
    ensures Unlinked(nodes[e + 1], words[e + 1], patterns)
  {
    forall x | 1 <= x < |nodes| && |words[x]| <= |words[queue[head]]|
      ensures x in queue
    {
      ShallowNodesQueued(nodes, edges, words, sources, queue, head, e, x);
    }
    assert queue[head] !in Finished(queue, head);
    assert e + 1 !in queue;
  }

  /** The children of the root start with their links already right: failure 0, their own length. */
  lemma RootChildrenLinked(nodes: seq<MatchNode>, words: seq<Text>, patterns: set<Text>, queue: seq<nat>)
    requires |nodes| == |words| > 0 && words[0] == [] && [] !in patterns && patterns <= Dictionary(words)
    requires forall x {:trigger nodes[x]} :: 0 <= x < |nodes| ==> Unlinked(nodes[x], words[x], patterns)
    requires forall x :: x in queue ==> 1 <= x < |nodes| && |words[x]| == 1
    ensures LinkedSoFar(nodes, words, patterns, queue)
  {
    forall x | 1 <= x < |nodes| && x in queue
      ensures Linked(nodes[x], words, patterns, x)
    {
      LongestThroughFailure(patterns, Dictionary(words), words[x], []);
    }
  }

  lemma {:induction false} AllNodesQueued(
    nodes: seq<MatchNode>, edges: seq<MatchEdge>, words: seq<Text>, sources: seq<nat>, queue: seq<nat>, x: nat)
    requires TrieShape(nodes, edges, words, sources)
    requires Waiting(sources, queue, Finished(queue, |queue|), 0, |edges|)
    requires 1 <= x < |words|
    ensures x in queue
    decreases x
  {
    var p := sources[x - 1];
    ParentWord(nodes, edges, words, sources, x);
    if p != 0 {
      AllNodesQueued(nodes, edges, words, sources, queue, p);
    }
    assert p in Finished(queue, |queue|);
  }

  class SecretPatterns {
    var nodes: seq<MatchNode>
    var edges: seq<MatchEdge>
    const maximum: nat
    const count: nat
    const size: nat
    ghost const patterns: set<Text>
    ghost var words: seq<Text>
    ghost var sources: seq<nat>

    ghost predicate Trie()
      reads this
    {
      TrieShape(nodes, edges, words, sources)
    }

    /** A compiled automaton.  `maximum` bounds every pattern. */
    ghost predicate Valid()
      reads this
    {
      && Trie()
      && [] !in patterns
      && patterns <= Dictionary(words)
      && (forall w <- patterns :: |w| <= maximum)
      && (patterns == {} <==> maximum == 0)
      && (forall x {:trigger Linked(nodes[x], words, patterns, x)} :: 0 <= x < |nodes| ==> Linked(nodes[x], words, patterns, x))
    }

    constructor (keys: seq<Text>)
      ensures patterns == set w | w in keys
      ensures maximum == LongestKey(keys) && count == |keys| && size == TotalBytes(keys)
      ensures Trie() && words == [[]] && |nodes| == 1
      ensures forall x {:trigger nodes[x]} :: 0 <= x < |nodes| ==> Unlinked(nodes[x], words[x], {})
    {
      nodes := [MatchNode(-1, 0, 0)];
      edges := [];
      maximum := LongestKey(keys);
      count := |keys|;
      size := TotalBytes(keys);
      patterns := set w | w in keys;
      words := [[]];
      sources := [];
    }

    /** The child of `state` for `value`, or 0 exactly when the trie has no such word. */
    method Transition(state: nat, value: byte) returns (target: nat)
      requires Trie() && state < |nodes|
      ensures target < |nodes|
      ensures target != 0 ==> words[target] == words[state] + [value]
      ensures target == 0 ==> words[state] + [value] !in words
    {
      var e := nodes[state].edge;
      while e >= 0
        invariant -1 <= e < |edges|
        invariant e >= 0 ==> sources[e] == state
        invariant forall k :: e < k < |edges| && sources[k] == state ==> edges[k].value != value
      {
        if edges[e].value == value {
          return edges[e].target;
        }
        e := edges[e].next;
      }
      ChildHasEdge(nodes, edges, words, sources, state, value);
      return 0;
    }

    /** Adds the word of `state` followed by `value` as a new node. */
    method AddChild(state: nat, value: byte) returns (target: nat)
      requires Trie() && state < |nodes|
      requires words[state] + [value] !in words
      modifies this
      ensures Trie() && target == old(|nodes|) && |nodes| == old(|nodes|) + 1
      ensures words == old(words) + [old(words)[state] + [value]]
      ensures nodes[target].failure == 0 && nodes[target].longest == 0
      ensures forall x :: 0 <= x < target ==>
        nodes[x].failure == old(nodes[x].failure) && nodes[x].longest == old(nodes[x].longest)
    {
      target := |nodes|;
      nodes := nodes + [MatchNode(-1, 0, 0)];
      edges := edges + [MatchEdge(value, target, nodes[state].edge)];
      nodes := nodes[state := nodes[state].(edge := |edges| - 1)];
      words := words + [words[state] + [value]];
      sources := sources + [state];
      forall s | 0 <= s < target
        ensures LastEdgeFrom(sources, s, |edges|, nodes[s].edge)
      {
        assert LastEdgeFrom(old(sources), s, |old(edges)|, old(nodes)[s].edge);
      }
      forall k | 0 <= k < |old(edges)|
        ensures sources[k] != target
      {
        var edge := old(edges)[k];
      }
    }

    /** Adds one pattern to the trie, with at most one new node per byte. */
    method Insert(key: Text, ghost inserted: set<Text>)
      requires Trie() && key != []
      requires inserted <= Dictionary(words)
      requires forall x {:trigger nodes[x]} :: 0 <= x < |nodes| ==> Unlinked(nodes[x], words[x], inserted)
      modifies this
      ensures Trie() && |nodes| == |words| && old(words) <= words
      ensures |nodes| <= old(|nodes|) + |key|
      ensures inserted + {key} <= Dictionary(words)
      ensures forall x {:trigger nodes[x]} :: 0 <= x < |nodes| ==> Unlinked(nodes[x], words[x], inserted + {key})
    {
      var state: nat := 0;
      for i := 0 to |key|
        invariant Trie() && state < |nodes| && words[state] == key[..i]
        invariant old(words) <= words && |nodes| <= old(|nodes|) + i
        invariant inserted <= Dictionary(words)
        invariant forall x {:trigger nodes[x]} :: 0 <= x < |nodes| ==> Unlinked(nodes[x], words[x], inserted)
      {
        var next := Transition(state, key[i]);
        assert key[..i + 1] == key[..i] + [key[i]];
        if next == 0 {
          next := AddChild(state, key[i]);
        }
        state := next;
      }
      assert key[..|key|] == key;
      nodes := nodes[state := nodes[state].(longest := |key|)];
    }

    /** Falls back along failure links until `value` can be read, and reads it. */
    method Follow(from: nat, value: byte) returns (target: nat)
      requires Trie() && from < |nodes|
      requires forall x {:trigger Linked(nodes[x], words, patterns, x)} :: 0 <= x < |nodes| && |words[x]| <= |words[from]| ==> Linked(nodes[x], words, patterns, x)
      ensures target < |nodes|
      ensures words[target] == LongestSuffix(Dictionary(words), words[from] + [value])
    {
      ghost var dictionary := Dictionary(words);
      ghost var t := words[from];
      TrieIsPrefixClosed(nodes, edges, words, sources);
      var state: nat := from;
      var next: nat := Transition(state, value);
      while state != 0 && next == 0
        invariant state < |nodes| && next < |nodes|
        invariant LongEnough(dictionary, t, value, words[state])
        invariant next != 0 ==> words[next] == words[state] + [value]
        invariant next == 0 ==> words[state] + [value] !in words
        decreases |words[state]|
      {
        FallbackStep(dictionary, t, value, words[state]);
        assert Linked(nodes[state], words, patterns, state);
        state := nodes[state].failure;
        next := Transition(state, value);
      }
      FallbackEnds(dictionary, t, value, words[state]);
      target := next;
    }

    /** One child met in the breadth-first walk: sets its failure link and its match length. */
    method LinkChild(state: nat, e: nat)
      requires Trie() && 0 < state < |nodes| && e < |edges| && sources[e] == state
      requires patterns <= Dictionary(words)
      requires forall x {:trigger Linked(nodes[x], words, patterns, x)} :: 0 <= x < |nodes| && |words[x]| <= |words[state]| ==> Linked(nodes[x], words, patterns, x)
      requires Unlinked(nodes[e + 1], words[e + 1], patterns)
      modifies this`nodes
      ensures Trie() && |nodes| == old(|nodes|)
      ensures Linked(nodes[e + 1], words, patterns, e + 1)
      ensures forall x :: 0 <= x < |nodes| && x != e + 1 ==> nodes[x] == old(nodes[x])
    {
      hide LongestSuffix;
      var edge := edges[e];
      assert words[state] != words[0] && Linked(nodes[state], words, patterns, state);
      var failure := Follow(nodes[state].failure, edge.value);
      TrieIsPrefixClosed(nodes, edges, words, sources);
      assert |words[failure]| <= |words[state]| ==> Linked(nodes[failure], words, patterns, failure);
      var longest := Max(nodes[edge.target].longest, nodes[failure].longest);
      ChildLinked(words, patterns, state, edge.value, e + 1, failure, nodes[e + 1].longest, nodes[failure].longest);
      nodes := nodes[edge.target := nodes[edge.target].(failure := failure, longest := longest)];
      ShapeIgnoresLinks(old(nodes), nodes, edges, words, sources);
    }

    /** The body of the breadth-first walk: links and queues every child of `waiting[head]`. */
    method LinkChildren(waiting: seq<nat>, head: nat) returns (queue: seq<nat>)
      requires Trie() && patterns <= Dictionary(words)
      requires Ordered(words, waiting) && head < |waiting|
      requires Waiting(sources, waiting, Finished(waiting, head), 0, |edges|)
      requires LinkedSoFar(nodes, words, patterns, waiting)
      modifies this`nodes
      ensures Trie()
      ensures waiting <= queue && Ordered(words, queue)
      ensures Waiting(sources, queue, Finished(queue, head + 1), 0, |edges|)
      ensures LinkedSoFar(nodes, words, patterns, queue)
    {
      hide Linked;
      queue := waiting;
      var state := queue[head];
      ghost var done := Finished(waiting, head);
      assert state !in done;
      var e := nodes[state].edge;
      while e >= 0
        invariant -1 <= e < |edges| && (e >= 0 ==> sources[e] == state)
        invariant Trie()
        invariant waiting <= queue && Ordered(words, queue)
        invariant Waiting(sources, queue, done, state, e)
        invariant LinkedSoFar(nodes, words, patterns, queue)
      {
        assert Finished(queue, head) == done;
        queue, e := LinkChildAndQueue(queue, head, e);
      }
      assert Finished(queue, head + 1) == done + {state};
    }

    method LinkChildAndQueue(waiting: seq<nat>, head: nat, e: nat) returns (queue: seq<nat>, next: int)
      requires Trie() && patterns <= Dictionary(words)
      requires Ordered(words, waiting) && head < |waiting|
      requires e < |edges| && sources[e] == waiting[head]
      requires Waiting(sources, waiting, Finished(waiting, head), waiting[head], e)
      requires LinkedSoFar(nodes, words, patterns, waiting)
      modifies this`nodes
      ensures Trie()
      ensures waiting <= queue && Ordered(words, queue)
      ensures -1 <= next < e && (next >= 0 ==> sources[next] == waiting[head])
      ensures Waiting(sources, queue, Finished(waiting, head), waiting[head], next)
      ensures LinkedSoFar(nodes, words, patterns, queue)
    {
      hide Linked;
      ShallowNodesLinked(nodes, edges, words, sources, patterns, waiting, head, e);
      LinkChild(waiting[head], e);
      LinkedSoFarStep(old(nodes), nodes, words, patterns, waiting, e + 1);
      WaitingStep(nodes, edges, words, sources, waiting, Finished(waiting, head), waiting[head], e);
      QueueStaysOrdered(nodes, edges, words, sources, waiting, head, e);
      queue := waiting + [edges[e].target];
      next := edges[e].next;
    }

    /** Sets all failure links breadth first and propagates match lengths along them. */
    method LinkFailures()
      requires Trie() && [] !in patterns && patterns <= Dictionary(words)
      requires forall x {:trigger nodes[x]} :: 0 <= x < |nodes| ==> Unlinked(nodes[x], words[x], patterns)
      modifies this`nodes
      ensures Trie() && |nodes| == old(|nodes|)
      ensures forall x {:trigger nodes[x]} :: 0 <= x < |nodes| ==> Linked(nodes[x], words, patterns, x)
    {
      var queue: seq<nat> := [];
      var e := nodes[0].edge;
      while e >= 0
        invariant -1 <= e < |edges| && (e >= 0 ==> sources[e] == 0)
        invariant Waiting(sources, queue, {}, 0, e)
        invariant Ordered(words, queue)
        invariant forall i :: 0 <= i < |queue| ==> |words[queue[i]]| == 1
      {
        assert edges[e].target !in queue;
        queue := queue + [edges[e].target];
        e := edges[e].next;
      }
      RootChildrenLinked(nodes, words, patterns, queue);
      assert Finished(queue, 0) == {0};
      var head := 0;
      while head < |queue|
        invariant head <= |queue|
        invariant Trie()
        invariant Ordered(words, queue)
        invariant Waiting(sources, queue, Finished(queue, head), 0, |edges|)
        invariant LinkedSoFar(nodes, words, patterns, queue)
        decreases |words| - head
      {
        queue := LinkChildren(queue, head);
        Pigeonhole(queue, |words|);
        head := head + 1;
      }
      forall x: nat | 1 <= x < |nodes|
        ensures x in queue
      {
        AllNodesQueued(nodes, edges, words, sources, queue, x);
      }
    }
  }

  /** Collects the set of patterns to compile. */
  method CollectPatterns(variants: seq<Text>) returns (keys: seq<Text>)
    ensures keys == DistinctPatterns(variants)
  {
    keys := [];
    for i := 0 to |variants|
      invariant keys == DistinctPatterns(variants[..i])
    {
      assert variants[..i + 1][..i] == variants[..i];
      if variants[i] != [] && variants[i] !in keys {
        keys := keys + [variants[i]];
      }
    }
    assert variants[..|variants|] == variants;
  }

  /** Builds the trie of all patterns; failure links are still missing. */
  method BuildTrie(keys: seq<Text>) returns (p: SecretPatterns)
    requires [] !in keys
    ensures fresh(p) && p.Trie() && |p.nodes| == |p.words|
    ensures p.patterns == (set w | w in keys) && p.patterns <= Dictionary(p.words)
    ensures p.maximum == LongestKey(keys) && p.size == TotalBytes(keys)
    ensures |p.nodes| <= 1 + TotalBytes(keys)
    ensures forall x {:trigger p.nodes[x]} :: 0 <= x < |p.nodes| ==> Unlinked(p.nodes[x], p.words[x], p.patterns)
  {
    hide TrieShape;
    p := new SecretPatterns(keys);
    ghost var inserted: set<Text> := {};
    for i := 0 to |keys|
      invariant fresh(p) && p.Trie() && |p.nodes| == |p.words|
      invariant inserted == set w | w in keys[..i]
      invariant inserted <= Dictionary(p.words)
      invariant |p.nodes| <= 1 + TotalBytes(keys[..i])
      invariant forall x {:trigger p.nodes[x]} :: 0 <= x < |p.nodes| ==> Unlinked(p.nodes[x], p.words[x], inserted)
    {
      assert keys[i] in keys;
      assert keys[..i + 1] == keys[..i] + [keys[i]];
      assert keys[..i + 1][..i] == keys[..i];
      p.Insert(keys[i], inserted);
      inserted := inserted + {keys[i]};
    }
    assert keys[..|keys|] == keys;
  }

  /**
   * Compiles the pattern set, or refuses it.  A compiled automaton has at most one node per
   * pattern byte plus its root, and one edge per node other than the root.
   */
  method CompileSecrets(variants: seq<Text>) returns (p: SecretPatterns?)
    ensures p == null <==> ExceedsLimits(DistinctPatterns(variants))
    ensures p != null ==> fresh(p) && p.Valid()
    ensures p != null ==> p.patterns == set w | w in variants && w != []
    ensures p != null ==> |p.nodes| <= 1 + p.size && |p.edges| == |p.nodes| - 1
    ensures p != null ==> p.maximum <= MAXIMUM_HOLDBACK && p.size <= MAXIMUM_PATTERN_BYTES
  {
    hide Linked;
    var keys := CollectPatterns(variants);
    if ExceedsLimits(keys) {
      return null;
    }
    p := BuildTrie(keys);
    p.LinkFailures();
    if keys != [] {
      assert keys[0] in p.patterns;
    }
  }
}
