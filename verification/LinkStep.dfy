/** One step of build(): linking the child of a node that is being expanded. */
module LinkStep {
  import opened Ints
  import opened MatchSpec
  import opened TrieSpec
  import opened LinkCost

  // The failure link of a finished node is where the walk for its child on c starts.
  lemma LinkStart(trie: seq<Node>, words: seq<word>, index: map<word, nat>, pats: seq<word>, seen: set<word>,
                  current: nat, c: byte) returns (target: word)
    requires Linked(trie, words, index, pats, seen)
    requires current < |trie| == |words| && c in trie[current].children
    requires words[current] != [] && words[current] in seen
    ensures target == LongestSuffix(index.Keys, (words[current] + [c])[1..])
    ensures var n := trie[current].children[c];
            0 <= n < |trie| && words[n] == words[current] + [c] && words[n] in index && index[words[n]] == n
    ensures var f := trie[current].fail;
            && 0 <= f < |trie| && Walking(words, index, f, c, target)
            && words[f] == LongestSuffix(index.Keys, words[current][1..])
            && |words[f]| < |words[current]|
  {
    hide Linked, LongestSuffix, Goto, Shape, Walking, PrefixClosed;
    target := LongestSuffix(index.Keys, (words[current] + [c])[1..]);
    LinkedShape(trie, words, index, pats, seen);
    LinkedClosed(trie, words, index, pats, seen);
    TargetInTrie(index.Keys, words[current]);
    ChildNode(trie, words, index, current, c);
    WalkStart(trie, words, index, pats, seen, words[current], c);
    WalkingInRange(words, index, trie[current].fail, c, target);
  }

  function LinkOf(trie: seq<Node>, fail: int, c: byte): int
    requires -1 <= fail < |trie|
    requires fail >= 0 ==> c in trie[fail].children
  {
    if fail == -1 then 0 else trie[fail].children[c]
  }

  // Where the walk ended is the failure link, and the walk was paid for.
  lemma LinkEnd(trie: seq<Node>, words: seq<word>, index: map<word, nat>, pats: seq<word>, seen: set<word>,
                current: nat, c: byte, fail: int32, steps: nat, target: word)
    requires Linked(trie, words, index, pats, seen)
    requires current < |trie| == |words| && words[current] != []
    requires var w := words[current] + [c];
             && w in index && w !in seen && target == LongestSuffix(index.Keys, w[1..])
    requires forall w :: w in index && |w| <= |words[current]| ==> w in seen
    requires Walking(words, index, fail, c, target)
    requires -1 <= fail < |trie| && (fail >= 0 ==> c in trie[fail].children)
    requires Depth(words, fail) + steps <= |LongestSuffix(index.Keys, words[current][1..])|
    ensures index[words[current] + [c]] < |trie|
    ensures var link := LinkOf(trie, fail, c); 0 <= link < |trie| && link <= INT_MAX
    ensures Linked(WithLink(trie, index[words[current] + [c]], LinkOf(trie, fail, c)),
                   words, index, pats, seen + {words[current] + [c]})
    ensures steps <= Cost(index.Keys, words[current] + [c])
  {
    hide Linked, LongestSuffix, Goto, Shape, Walking, PrefixClosed, Cost;
    var w := words[current] + [c];
    LinkedShape(trie, words, index, pats, seen);
    LinkedClosed(trie, words, index, pats, seen);
    TargetInTrie(index.Keys, w);
    LinkedNode(trie, words, index, pats, seen, w);
    LinkedNode(trie, words, index, pats, seen, target);
    if fail >= 0 {
      WalkEnd(trie, words, index, fail, c, target);
    } else {
      WalkFell(words, index, c, target);
      RootIndex(trie, words, index);
    }
    LinkFinishes(trie, words, index, pats, seen, w);
    CostOfEdge(index.Keys, words[current], c);
  }

  // f is the longest proper suffix of w among the words.
  ghost predicate LongestProperSuffix(ws: set<word>, f: word, w: word) {
    && f in ws && |f| < |w| && IsSuffix(f, w)
    && forall v :: v in ws && |v| < |w| && IsSuffix(v, w) ==> |v| <= |f|
  }

  lemma LongestSuffixOfTail(ws: set<word>, w: word)
    requires PrefixClosed(ws) && w != []
    ensures LongestProperSuffix(ws, LongestSuffix(ws, w[1..]), w)
  {
    hide LongestSuffix;
    var t := w[1..];
    var f := LongestSuffix(ws, t);
    TargetInTrie(ws, w);
    LongestSuffixIsWord(ws, t);
    assert f == w[|w| - |f|..];
    forall v | v in ws && |v| < |w| && IsSuffix(v, w)
      ensures |v| <= |f|
    {
      assert v == t[|t| - |v|..];
      LongestSuffixIsLongest(ws, t, v);
    }
  }

  // Every failure link leads to the longest proper suffix that is a trie word, and every output
  // holds the patterns that end there, without repeats.
  ghost predicate ProperLinks(trie: seq<Node>, words: seq<word>, ws: set<word>, pats: seq<word>) {
    && |words| == |trie|
    && forall i :: 0 <= i < |trie| ==> ProperLink(trie, words, ws, pats, i)
  }

  ghost predicate ProperLink(trie: seq<Node>, words: seq<word>, ws: set<word>, pats: seq<word>, i: nat)
    requires i < |trie| == |words|
  {
    var f := trie[i].fail;
    && (words[i] == [] <==> f == -1)
    && (words[i] != [] ==> 0 <= f < |trie| && LongestProperSuffix(ws, words[f], words[i]))
    && ReportsSuffixes(pats, words[i], trie[i].output)
    && Descending(pats, trie[i].output)
  }

  // What build() leaves behind at one node.
  lemma LinksAreLongest(trie: seq<Node>, words: seq<word>, index: map<word, nat>, pats: seq<word>, i: nat)
    requires Linked(trie, words, index, pats, index.Keys)
    requires index.Keys == TrieWords(pats, |pats|) && Distinct(pats)
    requires i < |trie|
    ensures |words| == |trie| && ProperLink(trie, words, index.Keys, pats, i)
  {
    hide LongestSuffix, Outputs, TrieWords, Shape, ReportsSuffixes, Descending, Linked, Distinct,
         LongestProperSuffix, PrefixClosed;
    var k := index.Keys;
    LinkedShape(trie, words, index, pats, k);
    LinkedClosed(trie, words, index, pats, k);
    ChildNode(trie, words, index, i, 0);
    var w := words[i];
    LinkedNode(trie, words, index, pats, k, w);
    PatternsInTrie(pats, |pats|);
    OutputsExact(pats, k, w);
    OutputsDescend(pats, k, w);
    if w != [] {
      TargetInTrie(k, w);
      LinkedNode(trie, words, index, pats, k, LongestSuffix(k, w[1..]));
      LongestSuffixOfTail(k, w);
    }
  }

  lemma AllLinksAreLongest(trie: seq<Node>, words: seq<word>, index: map<word, nat>, pats: seq<word>)
    requires Linked(trie, words, index, pats, index.Keys)
    requires index.Keys == TrieWords(pats, |pats|) && Distinct(pats)
    ensures ProperLinks(trie, words, index.Keys, pats)
  {
    hide Linked, TrieWords, Distinct, ProperLink;
    LinkedShape(trie, words, index, pats, index.Keys);
    forall i | 0 <= i < |trie|
      ensures ProperLink(trie, words, index.Keys, pats, i)
    {
      LinksAreLongest(trie, words, index, pats, i);
    }
  }
}
