/** The Aho-Corasick matcher of lifter/FunctionSignatures.hpp: the constructor grows the trie,
    Build links it breadth first, Search walks it. */
module AhoCorasickMatcher {
  import opened Ints
  import opened MatchSpec
  import opened TrieSpec
  import opened BreadthFirst
  import opened LinkCost
  import opened LinkStep

  class AhoCorasick {
    var trie: seq<Node>
    var patterns: map<int32, word>

    ghost const pats: seq<word>          // the patterns in the order the map yields them
    ghost var words: seq<word>           // the word each node spells
    ghost var index: map<word, nat>      // its inverse

    ghost predicate PatternsOf(n: nat)
      reads this
    {
      && n <= |pats| <= INT_MAX
      && (forall i: int32 :: i in patterns <==> 0 <= i < n)
      && (forall i: int32 :: 0 <= i < n ==> patterns[i] == pats[i])
    }

    // The first n patterns are in the trie, which is not linked yet.
    ghost predicate Inserted(n: nat)
      reads this
    {
      && Holding(trie, words, index, pats, n)
      && index.Keys == TrieWords(pats, n)
      && PatternsOf(n)
    }

    // The finished automaton.
    ghost predicate Valid()
      reads this
    {
      && Distinct(pats)
      && index.Keys == TrieWords(pats, |pats|)
      && Linked(trie, words, index, pats, index.Keys)
      && PatternsOf(|pats|)
    }

    constructor (patternsMap: seq<word>)
      requires Distinct(patternsMap)
      requires |patternsMap| <= INT_MAX && TotalLength(patternsMap, |patternsMap|) <= INT_MAX - 1
      ensures Valid() && pats == patternsMap
      ensures ProperLinks(trie, words, index.Keys, pats)
    {
      pats := patternsMap;
      trie := [EMPTY_NODE];
      patterns := map[];
      words, index := [[]], map[[] := 0];
      new;
      hide Shape, Own, TrieWords, Holding, Distinct, TotalLength;
      RootHolding(pats);
      InsertPatterns(patternsMap);
      hide Inserted, Valid, ProperLinks;
      ghost var steps := Build();
    }

    // The constructor's loop over the pattern map.
    method InsertPatterns(patternsMap: seq<word>)
      requires patternsMap == pats && Inserted(0) && |trie| == 1
      requires TotalLength(pats, |pats|) <= INT_MAX - 1 && |pats| <= INT_MAX
      modifies this
      ensures Inserted(|pats|)
    {
      hide TotalLength;
      TotalLengthZero(pats);
      for id := 0 to |patternsMap|
        invariant Inserted(id)
        invariant |trie| <= 1 + TotalLength(pats, id)
      {
        hide Inserted;
        TotalLengthStep(pats, id);
        TotalLengthMonotone(pats, id + 1, |pats|);
        InsertPattern(id, patternsMap[id]);
      }
    }

    // One round of the constructor's loop over the pattern map.
    method InsertPattern(id: int32, pattern: word)
      requires 0 <= id < |pats| && pattern == pats[id]
      requires Inserted(id)
      requires |trie| + |pattern| <= INT_MAX
      modifies this
      ensures Inserted(id + 1)
      ensures |trie| <= old(|trie|) + |pattern|
    {
      hide Shape, TrieWords, Own, Prefixes;
      var current: int32 := 0;
      ghost var ws := index.Keys;
      RootNode(trie, words, index);
      FirstPrefix();
      TrieWordsGrow(pats, id);
      for j := 0 to |pattern|
        invariant Holding(trie, words, index, pats, id)
        invariant 0 <= current < |trie| == |words| && words[current] == pattern[..j]
        invariant index.Keys == ws + Prefixes(pattern[..j])
        invariant |trie| <= old(|trie|) + j
        invariant patterns == old(patterns)
      {
        var c := pattern[j];
        assert pattern[..j + 1] == pattern[..j] + [c];
        PrefixesGrow(pattern[..j], c);
        ChildNode(trie, words, index, current, c);
        if c !in trie[current].children {
          HoldingGrows(trie, words, index, pats, id, current, c);
          trie, words, index := WithChild(trie, current, c), words + [words[current] + [c]],
            index[words[current] + [c] := |words|];
          ChildNode(trie, words, index, current, c);
        }
        current := trie[current].children[c];
      }
      assert pattern[..|pattern|] == pattern;
      HoldingOwns(trie, words, index, pats, id, current);
      trie := WithOutput(trie, current, [id]);
      patterns := patterns[id := pattern];
    }

    // The loop that search() and build() share: follow failure links until c can be read or the
    // root has failed (-1).
    method FollowFailures(from: int32, c: byte, ghost seen: set<word>, ghost target: word)
      returns (node: int32, ghost steps: nat)
      requires Linked(trie, words, index, pats, seen)
      requires 0 <= from < |trie| == |words| && Walking(words, index, from, c, target)
      requires forall w :: w in index && |w| <= |words[from]| ==> w in seen
      ensures Walking(words, index, node, c, target)
      ensures -1 <= node < |trie| && (node == -1 || c in trie[node].children)
      ensures Depth(words, node) + steps <= |words[from]|
      ensures node == Fallen(trie, from, steps)
    {
      hide Linked, LongestSuffix, Goto, Shape;
      LinkedShape(trie, words, index, pats, seen);
      node, steps := from, 0;
      while node != -1 && c !in trie[node].children
        invariant Walking(words, index, node, c, target)
        invariant Depth(words, node) + steps <= |words[from]|
        invariant node == Fallen(trie, from, steps)
        decreases Depth(words, node)
      {
        ChildNode(trie, words, index, node, c);
        WalkStep(trie, words, index, pats, seen, node, c, target);
        node := trie[node].fail;
        steps := steps + 1;
      }
    }

    // One child of a node taken from the queue: the body of build()'s inner loop.
    method LinkChild(current: int32, c: byte, ghost seen: set<word>, ghost w: word)
      returns (next: int32, ghost steps: nat)
      requires 0 <= current < |trie| == |words| && c in trie[current].children
      requires words[current] != [] && words[current] in seen && w == words[current] + [c] && w !in seen
      requires forall v :: v in index && |v| <= |words[current]| ==> v in seen
      requires Linked(trie, words, index, pats, seen)
      modifies `trie
      ensures |trie| == old(|trie|) && 0 <= next < |trie| && words[next] == w
      ensures Linked(trie, words, index, pats, seen + {w})
      ensures steps <= Cost(index.Keys, w)
    {
      hide Linked, LongestSuffix, Goto, Shape, Walking, Cost, PrefixClosed;
      ghost var target := LinkStart(trie, words, index, pats, seen, current, c);
      next := trie[current].children[c];
      var fail;
      fail, steps := FollowFailures(trie[current].fail, c, seen, target);
      LinkEnd(trie, words, index, pats, seen, current, c, fail, steps, target);
      ghost var linked := WithLink(trie, next, LinkOf(trie, fail, c));
      if fail != -1 {
        trie := trie[next := trie[next].(fail := trie[fail].children[c])];
      } else {
        trie := trie[next := trie[next].(fail := 0)];
      }
      trie := WithOutput(trie, next, trie[trie[next].fail].output);
      assert trie == linked;
    }

    // build()'s first loop: the children of the root.
    method LinkRoot() returns (q: seq<int32>, ghost seen: set<word>)
      requires Inserted(|pats|)
      modifies `trie
      ensures Linked(trie, words, index, pats, seen)
      ensures Frontier(words, index, {[]}, seen, q)
      ensures CostSum(index.Keys, seen) == 0
    {
      hide Linked, Shape, Cost, CostSum, Own, TrieWords, Queue, Queued, Expanding, Frontier;
      q := [];
      seen := {[]};
      RootNode(trie, words, index);
      InsertedIsLinked(trie, words, index, pats);
      StartRoot(words, index);
      CostOfRoot(index.Keys);
      for c := 0 to 256
        invariant Linked(trie, words, index, pats, seen)
        invariant |trie| == |words| > 0 && words[0] == []
        invariant Expanding(words, index, {}, seen, q, [], c)
        invariant CostSum(index.Keys, seen) == 0
      {
        LinkedShape(trie, words, index, pats, seen);
        ChildNode(trie, words, index, 0, c);
        assert words[0] + [c] == [c];
        if c in trie[0].children {
          var next := trie[0].children[c];
          ExpandChild(words, index, {}, seen, q, [], c, next);
          RootLinkFinishes(trie, words, index, pats, seen, [c]);
          CostSumAdd(index.Keys, seen, [c]);
          CostOfShort(index.Keys, [c]);
          trie := trie[next := trie[next].(fail := 0)];
          q := q + [next];
          seen := seen + {words[next]};
        } else {
          SkipChild(words, index, {}, seen, q, [], c);
        }
      }
      FinishExpanding(words, index, {}, seen, q, []);
      ghost var none: set<word>, root: set<word> := {}, {[]};
      assert none + root == root;
    }

    // One round of build()'s queue loop: the children of the node taken from the queue.
    method ExpandNode(current: int32, q0: seq<int32>, ghost done: set<word>, ghost seen0: set<word>)
      returns (q: seq<int32>, ghost seen: set<word>, ghost steps: nat)
      requires Linked(trie, words, index, pats, seen0)
      requires 0 <= current < |words| && words[current] != [] && words[current] in seen0
      requires Expanding(words, index, done, seen0, q0, words[current], 0)
      modifies `trie
      ensures Linked(trie, words, index, pats, seen)
      ensures Frontier(words, index, done + {words[current]}, seen, q)
      ensures steps + CostSum(index.Keys, seen0) <= CostSum(index.Keys, seen)
    {
      hide Linked, Shape, Cost, CostSum, Own, TrieWords, Queue, Queued, Expanding, Frontier, PrefixClosed,
           Indexed, InRange;
      q, seen, steps := q0, seen0, 0;
      ghost var u := words[current];
      LinkedShape(trie, words, index, pats, seen);
      for c := 0 to 256
        invariant Linked(trie, words, index, pats, seen)
        invariant |trie| == |words| == old(|trie|) && u in seen
        invariant Expanding(words, index, done, seen, q, u, c)
        invariant steps + CostSum(index.Keys, seen0) <= CostSum(index.Keys, seen)
      {
        LinkedShape(trie, words, index, pats, seen);
        LinkedClosed(trie, words, index, pats, seen);
        ShapeIndexed(trie, words, index);
        ChildNode(trie, words, index, current, c);
        AllShallowSeen(words, index, done, seen, q, u, c);
        if c in trie[current].children {
          ExpandChild(words, index, done, seen, q, u, c, trie[current].children[c]);
          CostSumAdd(index.Keys, seen, u + [c]);
          var next, walked := LinkChild(current, c, seen, u + [c]);
          q := q + [next];
          seen, steps := seen + {u + [c]}, steps + walked;
        } else {
          SkipChild(words, index, done, seen, q, u, c);
        }
      }
      FinishExpanding(words, index, done, seen, q, u);
    }

    method Build() returns (ghost steps: nat)
      requires Inserted(|pats|)
      modifies `trie
      ensures Distinct(pats) ==> Valid() && ProperLinks(trie, words, index.Keys, pats)
      ensures steps <= TotalLength(pats, |pats|)
    {
      hide Linked, Shape, Cost, CostSum, Own, TrieWords, Expanding, Frontier, Queue, Queued, Indexed, PrefixClosed;
      var q, seen := LinkRoot();
      ghost var done: set<word> := {[]};
      steps := 0;
      while q != []
        invariant Linked(trie, words, index, pats, seen)
        invariant Frontier(words, index, done, seen, q)
        invariant [] in done
        invariant steps <= CostSum(index.Keys, seen)
        decreases index.Keys - done
      {
        LinkedShape(trie, words, index, pats, seen);
        ShapeIndexed(trie, words, index);
        StartExpanding(words, index, done, seen, q);
        var current := q[0];
        q := q[1..];
        ExpandingWord(words, index, done, seen, q, words[current], 0);
        ghost var walked;
        ghost var done' := done + {words[current]};
        assert index.Keys - done' < index.Keys - done;
        q, seen, walked := ExpandNode(current, q, done, seen);
        done, steps := done', steps + walked;
      }
      LinkedClosed(trie, words, index, pats, seen);
      forall w | w in index.Keys
        ensures w in seen
      {
        EverythingSeen(words, index, done, seen, w);
      }
      LinkedShape(trie, words, index, pats, seen);
      assert seen == index.Keys;
      CostOfTrie(index.Keys, pats, |pats|);
      if Distinct(pats) {
        AllLinksAreLongest(trie, words, index, pats);
      }
    }

    // search(): the node reached after each byte spells the longest suffix read so far that is a
    // trie word, and the results are exactly the occurrences of the patterns.
    method Search(text: word) returns (results: seq<(int32, int32)>, ghost states: seq<int>, ghost steps: nat)
      requires Valid() && |text| <= INT_MAX
      ensures Ordered(pats, results)
      ensures SoundAndComplete(pats, text, results)
      ensures Exact(pats, text, results) <==> [] !in pats
      ensures ExactlyReported(pats, text, results)
      ensures |states| == |text| && Tracks(words, index.Keys, text, states)
      ensures steps <= |text|
    {
      hide Linked, LongestSuffix, Goto, Shape, Outputs, Distinct, TrieWords, Ordered, Exact, ExactlyReported,
           SoundAndComplete,
           ScanOk, PrefixClosed, Scan, Emit, Tracks, Walking, Finished;
      NothingTracked(words, index.Keys, text);
      results, states, steps := [], [], 0;
      ghost var ws := index.Keys;
      var current: int32 := 0;
      LinkedShape(trie, words, index, pats, ws);
      LinkedClosed(trie, words, index, pats, ws);
      RootNode(trie, words, index);
      PatternsInTrie(pats, |pats|);
      NothingRead(ws);
      ScanNothing(pats, ws, text);
      for i := 0 to |text|
        invariant 0 <= current < |trie| && words[current] == LongestSuffix(ws, text[..i])
        invariant results == Scan(pats, ws, text, i)
        invariant |states| == i && Tracks(words, ws, text, states)
        invariant steps + |words[current]| <= i
      {
        var emitted;
        ghost var walked;
        current, emitted, walked := Advance(current, text, i);
        steps := steps + walked;
        TracksMore(words, ws, text, states, current);
        states := states + [current];
        results := results + emitted;
      }
      assert text[..|text|] == text;
      ScanIsRight(pats, ws, text, |text|);
      ScanExactIff(pats, ws, text);
      ScanReportsExactly(pats, ws, text);
      ScanOkAtEnd(pats, text, results);
    }

    // The body of search()'s loop: read byte i of the text.
    method Advance(node: int32, text: word, i: nat)
      returns (current: int32, emitted: seq<(int32, int32)>, ghost steps: nat)
      requires i < |text| <= INT_MAX && 0 <= node < |trie| == |words|
      requires words[node] == LongestSuffix(index.Keys, text[..i])
      requires forall p :: p in pats ==> p in index.Keys
      requires Valid()
      ensures 0 <= current < |trie| && words[current] == LongestSuffix(index.Keys, text[..i + 1])
      ensures Scan(pats, index.Keys, text, i) + emitted == Scan(pats, index.Keys, text, i + 1)
      ensures steps + |words[current]| <= |words[node]| + 1
    {
      hide Linked, LongestSuffix, Goto, Shape, Outputs, Distinct, TrieWords, PrefixClosed, Scan, Emit, Walking,
           Finished;
      ghost var ws := index.Keys;
      assert text[..i + 1] == text[..i] + [text[i]];
      ghost var target := LongestSuffix(ws, text[..i + 1]);
      LinkedShape(trie, words, index, pats, ws);
      LinkedClosed(trie, words, index, pats, ws);
      WalkBegin(words, index, node, text[..i], text[i]);
      ScanStep(pats, ws, text, i + 1);
      current, steps := FollowFailures(node, text[i], ws, target);
      if current == -1 {
        WalkFell(words, index, text[i], target);
        RootNode(trie, words, index);
        current := 0;
        emitted := [];
        return;
      }
      WalkEnd(trie, words, index, current, text[i], target);
      ChildNode(trie, words, index, current, text[i]);
      current := trie[current].children[text[i]];
      LinkedNode(trie, words, index, pats, ws, target);
      FinishedOutput(trie[current], target, pats, index);
      emitted := Report(i, current);
    }

    // The results appended for the node reached by byte i.
    method Report(i: int32, node: int32) returns (emitted: seq<(int32, int32)>)
      requires PatternsOf(|pats|) && 0 <= i < INT_MAX && 0 <= node < |trie|
      requires forall id :: id in trie[node].output ==> 0 <= id < |pats| && |pats[id]| <= i + 1
      ensures emitted == Emit(pats, i, trie[node].output)
    {
      var ids := trie[node].output;
      emitted := [];
      for k := 0 to |ids|
        invariant forall id :: id in ids[..k] ==> id in ids
        invariant emitted == Emit(pats, i, ids[..k])
      {
        assert ids[..k + 1] == ids[..k] + [ids[k]];
        assert ids[k] in trie[node].output;
        assert patterns[ids[k]] == pats[ids[k]];
        var pos: int32 := i - |patterns[ids[k]]| + 1;
        emitted := emitted + [(pos, ids[k])];
      }
      assert ids[..|ids|] == ids;
    }
  }
}
