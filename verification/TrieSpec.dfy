/** The trie of lifter/FunctionSignatures.hpp as a vector of nodes, and what it represents. */
module TrieSpec {
  import opened Ints
  import opened MatchSpec

  datatype Node = Node(children: map<byte, int32>, fail: int32, output: seq<int32>)

  const EMPTY_NODE := Node(map[], -1, [])

  // words[i] is the word spelled by node i, and index is its inverse.
  ghost predicate Indexed(words: seq<word>, index: map<word, nat>) {
    && (forall i :: 0 <= i < |words| ==> words[i] in index && index[words[i]] == i)
    && (forall w :: w in index ==> index[w] < |words| && words[index[w]] == w)
  }

  // The children of a node with word u: c leads to the node of u + [c], if that is a trie word.
  ghost predicate Edges(n: Node, u: word, index: map<word, nat>) {
    forall c: byte ::
      && (c in n.children <==> u + [c] in index)
      && (c in n.children ==> n.children[c] == index[u + [c]])
  }

  ghost predicate Shape(trie: seq<Node>, words: seq<word>, index: map<word, nat>) {
    && |trie| == |words|
    && Indexed(words, index)
    && [] in index && index[[]] == 0
    && PrefixClosed(index.Keys)
    && forall i :: 0 <= i < |trie| ==> Edges(trie[i], words[i], index)
  }

  function WithChild(trie: seq<Node>, current: nat, c: byte): seq<Node>
    requires current < |trie| <= INT_MAX
  {
    trie[current := trie[current].(children := trie[current].children[c := |trie|])] + [EMPTY_NODE]
  }

  lemma WordsExtend(u: word, c: byte, v: word, d: byte)
    ensures u + [c] == v + [d] <==> u == v && c == d
  {
    if u + [c] == v + [d] {
      assert (u + [c])[..|u|] == u && (v + [d])[..|v|] == v;
      assert (u + [c])[|u|] == c;
    }
  }

  // Adding a missing child keeps the shape; exactly one word is new.
  lemma GrowShape(trie: seq<Node>, words: seq<word>, index: map<word, nat>, current: nat, c: byte)
    requires Shape(trie, words, index)
    requires current < |trie| <= INT_MAX && c !in trie[current].children
    ensures words[current] + [c] !in index
    ensures Shape(WithChild(trie, current, c), words + [words[current] + [c]],
                  index[words[current] + [c] := |words|])
  {
    var w := words[current] + [c];
    var trie' := WithChild(trie, current, c);
    var words' := words + [w];
    var index' := index[w := |words|];
    assert Edges(trie[current], words[current], index);
    ClosedGrows(index.Keys, words[current], c);
    assert index'.Keys == index.Keys + {w};
    forall i | 0 <= i < |trie'|
      ensures Edges(trie'[i], words'[i], index')
    {
      if i == |trie| {
        NoGrandchild(index.Keys, w);
      } else {
        assert Edges(trie[i], words[i], index);
        EdgesGrow(trie[i], trie'[i], words[i], words[current], c, index, |words|, i == current);
      }
    }
  }

  lemma ClosedGrows(ws: set<word>, u: word, c: byte)
    requires PrefixClosed(ws) && u in ws
    ensures PrefixClosed(ws + {u + [c]})
  {
    InitOf(u, c);
  }

  lemma NoGrandchild(ws: set<word>, w: word)
    requires PrefixClosed(ws) && w !in ws
    ensures forall d: byte :: w + [d] !in ws + {w}
  {
    forall d: byte
      ensures w + [d] !in ws + {w}
    {
      InitOf(w, d);
      assert |w + [d]| != |w|;
    }
  }

  lemma EdgesGrow(n: Node, n': Node, u: word, v: word, c: byte, index: map<word, nat>, child: int32, here: bool)
    requires 0 <= child
    requires Edges(n, u, index) && v + [c] !in index && (here <==> u == v)
    requires n' == if here then n.(children := n.children[c := child]) else n
    ensures Edges(n', u, index[v + [c] := child])
  {
    forall d: byte
      ensures u + [d] == v + [c] <==> here && c == d
    {
      WordsExtend(u, d, v, c);
    }
  }

  lemma RootShape()
    ensures Shape([EMPTY_NODE], [[]], map[[] := 0])
  {
    assert forall d: byte :: [] + [d] != [];
  }

  lemma {:induction false} NotYetOwned(pats: seq<word>, n: nat, w: word)
    requires n <= |pats| && w !in TrieWords(pats, n)
    ensures Own(pats, n, w) == []
  {
    if n > 0 {
      NotYetOwned(pats, n - 1, w);
      assert pats[n - 1][..|pats[n - 1]|] == pats[n - 1];
    }
  }

  lemma RootNode(trie: seq<Node>, words: seq<word>, index: map<word, nat>)
    requires Shape(trie, words, index)
    ensures |trie| == |words| > 0 && words[0] == [] && [] in index.Keys
  {
  }

  lemma ShapeIndexed(trie: seq<Node>, words: seq<word>, index: map<word, nat>)
    requires Shape(trie, words, index)
    ensures Indexed(words, index)
  {
  }

  lemma ChildNode(trie: seq<Node>, words: seq<word>, index: map<word, nat>, i: nat, c: byte)
    requires Shape(trie, words, index) && i < |trie|
    ensures |words| == |trie|
    ensures words[i] in index.Keys && index[words[i]] == i
    ensures c in trie[i].children <==> words[i] + [c] in index.Keys
    ensures c in trie[i].children ==>
      var n := trie[i].children[c];
      0 < n < |trie| && words[n] == words[i] + [c] && n == index[words[i] + [c]]
  {
    assert Edges(trie[i], words[i], index);
  }

  // ------------------------------------------------------------------ inserting patterns

  // Before linking: every node holds the ids below n inserted at its word.
  ghost predicate Holding(trie: seq<Node>, words: seq<word>, index: map<word, nat>, pats: seq<word>, n: nat) {
    && n <= |pats|
    && Shape(trie, words, index)
    && trie[0].fail == -1
    && forall i :: 0 <= i < |trie| ==> trie[i].output == Own(pats, n, words[i])
  }

  lemma HoldingGrows(trie: seq<Node>, words: seq<word>, index: map<word, nat>, pats: seq<word>, n: nat,
                     current: nat, c: byte)
    requires Holding(trie, words, index, pats, n)
    requires TrieWords(pats, n) <= index.Keys
    requires current < |trie| <= INT_MAX && c !in trie[current].children
    ensures words[current] + [c] !in index
    ensures Holding(WithChild(trie, current, c), words + [words[current] + [c]],
                    index[words[current] + [c] := |words|], pats, n)
  {
    hide Shape, TrieWords, Own;
    RootNode(trie, words, index);
    GrowShape(trie, words, index, current, c);
    NotYetOwned(pats, n, words[current] + [c]);
  }

  lemma RootHolding(pats: seq<word>)
    ensures Holding([EMPTY_NODE], [[]], map[[] := 0], pats, 0)
    ensures TrieWords(pats, 0) == {[]}
  {
    RootShape();
  }

  function WithOutput(trie: seq<Node>, i: nat, ids: seq<int32>): seq<Node>
    requires i < |trie|
  {
    trie[i := trie[i].(output := trie[i].output + ids)]
  }

  lemma HoldingOwns(trie: seq<Node>, words: seq<word>, index: map<word, nat>, pats: seq<word>, id: int32, current: nat)
    requires 0 <= id < |pats| && current < |trie|
    requires Holding(trie, words, index, pats, id)
    requires words[current] == pats[id]
    ensures Holding(WithOutput(trie, current, [id]), words, index, pats, id + 1)
  {
    var trie' := WithOutput(trie, current, [id]);
    forall i | 0 <= i < |trie|
      ensures Edges(trie'[i], words[i], index)
      ensures trie'[i].output == Own(pats, id + 1, words[i])
    {
      assert Edges(trie[i], words[i], index);
      assert words[i] == pats[id] <==> i == current;
    }
  }

  // ------------------------------------------------------------------ finished nodes

  ghost predicate Finished(n: Node, w: word, pats: seq<word>, index: map<word, nat>)
  {
    && (if w == [] then n.fail == -1
        else
          var f := LongestSuffix(index.Keys, w[1..]);
          f in index && n.fail == index[f])
    && n.output == Outputs(pats, index.Keys, w)
  }

  // The words of `seen` have their final failure link and output; the others still hold exactly
  // the ids that were inserted at them.
  ghost predicate Linked(trie: seq<Node>, words: seq<word>, index: map<word, nat>, pats: seq<word>, seen: set<word>) {
    && Shape(trie, words, index)
    && (forall w :: w in seen ==> w in index && Finished(trie[index[w]], w, pats, index))
    && (forall i :: 0 <= i < |trie| && words[i] !in seen ==> trie[i].output == Own(pats, |pats|, words[i]))
  }

  lemma FinishedOutput(n: Node, w: word, pats: seq<word>, index: map<word, nat>)
    requires Finished(n, w, pats, index)
    ensures n.output == Outputs(pats, index.Keys, w)
  {
  }

  lemma InsertedIsLinked(trie: seq<Node>, words: seq<word>, index: map<word, nat>, pats: seq<word>)
    requires Holding(trie, words, index, pats, |pats|)
    ensures Linked(trie, words, index, pats, {[]})
  {
  }

  lemma LinkedShape(trie: seq<Node>, words: seq<word>, index: map<word, nat>, pats: seq<word>, seen: set<word>)
    requires Linked(trie, words, index, pats, seen)
    ensures Shape(trie, words, index) && |trie| == |words| && seen <= index.Keys
  {
  }

  // Setting the failure link of node n and appending its target's output, as build() does.
  function WithLink(trie: seq<Node>, n: nat, fail: nat): seq<Node>
    requires n < |trie| && fail < |trie| && fail <= INT_MAX
  {
    trie[n := trie[n].(fail := fail, output := trie[n].output + trie[fail].output)]
  }

  // Linking an unseen node to the node of its longest proper suffix finishes it, provided that
  // suffix is finished already.
  lemma LinkFinishes(trie: seq<Node>, words: seq<word>, index: map<word, nat>, pats: seq<word>, seen: set<word>,
                     w: word)
    requires Linked(trie, words, index, pats, seen)
    requires w in index && w !in seen && |w| >= 2
    requires var f := LongestSuffix(index.Keys, w[1..]); f in seen && f in index && index[f] <= INT_MAX
    ensures Linked(WithLink(trie, index[w], index[LongestSuffix(index.Keys, w[1..])]),
                   words, index, pats, seen + {w})
  {
    hide Shape;
    var f := LongestSuffix(index.Keys, w[1..]);
    LinkedNode(trie, words, index, pats, seen, w);
    LinkedNode(trie, words, index, pats, seen, f);
    FinishOne(trie, WithLink(trie, index[w], index[f]), words, index, pats, seen, w);
  }

  lemma LinkedNode(trie: seq<Node>, words: seq<word>, index: map<word, nat>, pats: seq<word>, seen: set<word>, w: word)
    requires Linked(trie, words, index, pats, seen)
    requires w in index
    ensures index[w] < |trie| == |words| && words[index[w]] == w
    ensures w in seen ==> Finished(trie[index[w]], w, pats, index)
    ensures w !in seen ==> trie[index[w]].output == Own(pats, |pats|, w)
  {
  }

  lemma FinishOne(trie: seq<Node>, trie': seq<Node>, words: seq<word>, index: map<word, nat>, pats: seq<word>,
                  seen: set<word>, w: word)
    requires Linked(trie, words, index, pats, seen)
    requires w in index && w !in seen && index[w] < |trie| == |trie'|
    requires forall i :: 0 <= i < |trie| && i != index[w] ==> trie'[i] == trie[i]
    requires trie'[index[w]].children == trie[index[w]].children
    requires Finished(trie'[index[w]], w, pats, index)
    ensures Linked(trie', words, index, pats, seen + {w})
  {
    hide Finished, Own, Edges, PrefixClosed;
    LinkKeepsShape(trie, trie', words, index);
    hide Shape;
    forall v | v in index && v != w
      ensures index[v] != index[w]
    {
      LinkedNode(trie, words, index, pats, seen, v);
      LinkedNode(trie, words, index, pats, seen, w);
    }
  }

  lemma LinkKeepsShape(trie: seq<Node>, trie': seq<Node>, words: seq<word>, index: map<word, nat>)
    requires Shape(trie, words, index)
    requires |trie'| == |trie| && forall i :: 0 <= i < |trie| ==> trie'[i].children == trie[i].children
    ensures Shape(trie', words, index)
  {
    forall i | 0 <= i < |trie'|
      ensures Edges(trie'[i], words[i], index)
    {
      assert Edges(trie[i], words[i], index);
    }
  }

  // A depth-one node only gets its failure link set to the root.
  lemma RootLinkFinishes(trie: seq<Node>, words: seq<word>, index: map<word, nat>, pats: seq<word>,
                         seen: set<word>, w: word)
    requires Linked(trie, words, index, pats, seen)
    requires w in index && w !in seen && |w| == 1
    ensures index[w] < |trie|
    ensures Linked(trie[index[w] := trie[index[w]].(fail := 0)], words, index, pats, seen + {w})
  {
    hide Shape;
    LinkedNode(trie, words, index, pats, seen, w);
    RootIndex(trie, words, index);
    assert w[1..] == [];
    FinishOne(trie, trie[index[w] := trie[index[w]].(fail := 0)], words, index, pats, seen, w);
  }

  lemma RootIndex(trie: seq<Node>, words: seq<word>, index: map<word, nat>)
    requires Shape(trie, words, index)
    ensures [] in index && index[[]] == 0
  {
  }

  // ------------------------------------------------------------------ following failure links

  function Depth(words: seq<word>, node: int): int
    requires -1 <= node < |words|
  {
    if node == -1 then -1 else |words[node]|
  }

  // The walk stands at `fail` on its way to the word `target`: -1 means that it fell off the root.
  ghost predicate Walking(words: seq<word>, index: map<word, nat>, fail: int, c: byte, target: word) {
    && -1 <= fail < |words|
    && (fail == -1 ==> target == [])
    && (fail >= 0 ==> Goto(index.Keys, words[fail], c) == target)
  }

  lemma WalkStart(trie: seq<Node>, words: seq<word>, index: map<word, nat>, pats: seq<word>, seen: set<word>,
                  s: word, c: byte)
    requires Linked(trie, words, index, pats, seen)
    requires s in seen && s != []
    ensures s in index && index[s] < |trie| == |words| && words[index[s]] == s
    ensures var f := trie[index[s]].fail;
            && 0 <= f
            && Walking(words, index, f, c, LongestSuffix(index.Keys, (s + [c])[1..]))
            && words[f] == LongestSuffix(index.Keys, s[1..])
  {
    hide Linked, LongestSuffix, Goto, Outputs, PrefixClosed, Shape, Walking;
    LinkedShape(trie, words, index, pats, seen);
    LinkedNode(trie, words, index, pats, seen, s);
    LinkedClosed(trie, words, index, pats, seen);
    LinkedFail(trie, words, index, pats, seen, s);
    assert (s + [c])[1..] == s[1..] + [c];
    WalkBegin(words, index, trie[index[s]].fail, s[1..], c);
  }

  lemma LinkedFail(trie: seq<Node>, words: seq<word>, index: map<word, nat>, pats: seq<word>, seen: set<word>, s: word)
    requires Linked(trie, words, index, pats, seen)
    requires s in seen && s != [] && s in index && index[s] < |trie| == |words|
    ensures var f := trie[index[s]].fail;
            0 <= f < |trie| && words[f] == LongestSuffix(index.Keys, s[1..])
  {
    hide LongestSuffix, Outputs, PrefixClosed, Edges;
    assert Finished(trie[index[s]], s, pats, index);
  }

  lemma LinkedClosed(trie: seq<Node>, words: seq<word>, index: map<word, nat>, pats: seq<word>, seen: set<word>)
    requires Linked(trie, words, index, pats, seen)
    ensures PrefixClosed(index.Keys)
  {
  }

  // The node of the longest suffix of s is where the walk for s + [c] starts.
  lemma WalkBegin(words: seq<word>, index: map<word, nat>, from: nat, s: word, c: byte)
    requires PrefixClosed(index.Keys)
    requires from < |words| && words[from] == LongestSuffix(index.Keys, s)
    ensures Walking(words, index, from, c, LongestSuffix(index.Keys, s + [c]))
  {
    GotoIsLongestSuffix(index.Keys, s, c);
  }

  lemma WalkingInRange(words: seq<word>, index: map<word, nat>, fail: int, c: byte, target: word)
    requires Walking(words, index, fail, c, target)
    ensures -1 <= fail < |words|
  {
  }

  lemma WalkFell(words: seq<word>, index: map<word, nat>, c: byte, target: word)
    requires Walking(words, index, -1, c, target)
    ensures target == []
  {
  }

  lemma WalkStep(trie: seq<Node>, words: seq<word>, index: map<word, nat>, pats: seq<word>, seen: set<word>,
                 fail: nat, c: byte, target: word)
    requires Linked(trie, words, index, pats, seen)
    requires Walking(words, index, fail, c, target)
    requires fail < |trie| && c !in trie[fail].children && words[fail] in seen
    ensures Walking(words, index, trie[fail].fail, c, target)
    ensures Depth(words, trie[fail].fail) < |words[fail]|
  {
    hide Linked, LongestSuffix, Outputs, Shape, PrefixClosed, Indexed;
    var u := words[fail];
    LinkedShape(trie, words, index, pats, seen);
    ChildNode(trie, words, index, fail, c);
    LinkedNode(trie, words, index, pats, seen, u);
    if u != [] {
      LinkedNode(trie, words, index, pats, seen, LongestSuffix(index.Keys, u[1..]));
    }
  }

  lemma WalkEnd(trie: seq<Node>, words: seq<word>, index: map<word, nat>, fail: nat, c: byte, target: word)
    requires Shape(trie, words, index)
    requires Walking(words, index, fail, c, target)
    requires fail < |trie| && c in trie[fail].children
    ensures target == words[fail] + [c] && |target| == |words[fail]| + 1
    ensures target in index && trie[fail].children[c] == index[target]
  {
    assert Edges(trie[fail], words[fail], index);
  }

  // Where following n failure links from a node leads.
  function Fallen(trie: seq<Node>, from: int, n: nat): int {
    if n == 0 then from
    else
      var node := Fallen(trie, from, n - 1);
      if 0 <= node < |trie| then trie[node].fail else -1
  }

  // After byte i the automaton stands at the longest suffix of what it has read.
  ghost predicate Tracks(words: seq<word>, ws: set<word>, text: word, states: seq<int>) {
    && |states| <= |text|
    && forall i :: 0 <= i < |states| ==>
         0 <= states[i] < |words| && words[states[i]] == LongestSuffix(ws, text[..i + 1])
  }

  lemma NothingTracked(words: seq<word>, ws: set<word>, text: word)
    ensures Tracks(words, ws, text, [])
  {
  }

  lemma TracksMore(words: seq<word>, ws: set<word>, text: word, states: seq<int>, node: int)
    requires Tracks(words, ws, text, states) && |states| < |text|
    requires 0 <= node < |words| && words[node] == LongestSuffix(ws, text[..|states| + 1])
    ensures Tracks(words, ws, text, states + [node])
  {
    hide LongestSuffix;
  }
}
