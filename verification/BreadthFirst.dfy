/** The order in which build() visits trie words: a word is seen once its parent is expanded, and
    shallow words are expanded first. */
module BreadthFirst {
  import opened Ints
  import opened MatchSpec
  import opened TrieSpec

  ghost predicate InRange(words: seq<word>, q: seq<int32>) {
    forall k :: 0 <= k < |q| ==> 0 <= q[k] < |words|
  }

  ghost function Queued(words: seq<word>, q: seq<int32>): set<word>
    requires InRange(words, q)
  {
    set k | 0 <= k < |q| :: words[q[k]]
  }

  // Distinct nodes, shallow ones first, at most one level apart, none shallower than `low`.
  ghost predicate Queue(words: seq<word>, q: seq<int32>, low: nat) {
    && InRange(words, q)
    && (forall k :: 0 <= k < |q| ==> low <= |words[q[k]]| <= low + 1)
    && (forall j, k :: 0 <= j < k < |q| ==> q[j] != q[k] && |words[q[j]]| <= |words[q[k]]|)
  }

  // Between two rounds: seen words are done or queued, and a word is seen iff its parent is done.
  ghost predicate Frontier(words: seq<word>, index: map<word, nat>, done: set<word>, seen: set<word>, q: seq<int32>) {
    && Queue(words, q, if q == [] || q[0] < 0 || q[0] >= |words| then 0 else |words[q[0]]|)
    && done !! Queued(words, q)
    && seen == done + Queued(words, q)
    && seen <= index.Keys
    && [] in seen
    && (forall w {:trigger Init(w)} :: w in index.Keys && w != [] ==> (w in seen <==> Init(w) in done))
  }

  // Within a round: u has been taken from the queue and its children on bytes below c pushed.
  ghost predicate Expanding(words: seq<word>, index: map<word, nat>, done: set<word>, seen: set<word>, q: seq<int32>,
                            u: word, c: nat)
  {
    && Queue(words, q, |u|)
    && u !in done && u !in Queued(words, q)
    && done !! Queued(words, q)
    && seen == done + {u} + Queued(words, q)
    && seen <= index.Keys
    && [] in seen
    && (forall w {:trigger Init(w)} :: w in index.Keys && w != [] ==>
          (w in seen <==> Init(w) in done || (Init(w) == u && w[|w| - 1] < c)))
  }

  lemma QueuedGrows(words: seq<word>, q: seq<int32>, n: int32)
    requires InRange(words, q)
    requires 0 <= n < |words|
    ensures Queued(words, q + [n]) == Queued(words, q) + {words[n]}
  {
    forall w
      ensures w in Queued(words, q + [n]) <==> w in Queued(words, q) || w == words[n]
    {
      if w in Queued(words, q) {
        var k :| 0 <= k < |q| && words[q[k]] == w;
        assert (q + [n])[k] == q[k];
      }
      assert (q + [n])[|q|] == n;
    }
  }

  lemma QueuedShrinks(words: seq<word>, index: map<word, nat>, q: seq<int32>)
    requires InRange(words, q)
    requires forall j, k :: 0 <= j < k < |q| ==> q[j] != q[k]
    requires Indexed(words, index) && q != []
    ensures Queued(words, q) == Queued(words, q[1..]) + {words[q[0]]}
    ensures words[q[0]] !in Queued(words, q[1..])
  {
    forall w
      ensures w in Queued(words, q) <==> w in Queued(words, q[1..]) || w == words[q[0]]
      ensures w in Queued(words, q[1..]) ==> w != words[q[0]]
    {
      if w in Queued(words, q[1..]) {
        var k :| 0 <= k < |q| - 1 && words[q[1..][k]] == w;
        assert q[1..][k] == q[k + 1];
        assert index[w] == q[k + 1] != q[0];
      }
      if w in Queued(words, q) {
        var k :| 0 <= k < |q| && words[q[k]] == w;
        assert k > 0 ==> q[1..][k - 1] == q[k];
      }
    }
  }

  lemma StartRoot(words: seq<word>, index: map<word, nat>)
    requires [] in index
    ensures Expanding(words, index, {}, {[]}, [], [], 0)
  {
  }

  lemma StartExpanding(words: seq<word>, index: map<word, nat>, done: set<word>, seen: set<word>, q: seq<int32>)
    requires Indexed(words, index)
    requires Frontier(words, index, done, seen, q) && q != []
    ensures 0 <= q[0] < |words|
    ensures Expanding(words, index, done, seen, q[1..], words[q[0]], 0)
  {
    hide Queued, Indexed;
    QueuedShrinks(words, index, q);
    QueueShrinks(words, q);
    hide Queue;
    ghost var u := words[q[0]];
    assert seen == done + {u} + Queued(words, q[1..]);
  }

  lemma QueueShrinks(words: seq<word>, q: seq<int32>)
    requires q != [] && 0 <= q[0] < |words| && Queue(words, q, |words[q[0]]|)
    ensures Queue(words, q[1..], |words[q[0]]|)
  {
  }

  lemma ExpandingWord(words: seq<word>, index: map<word, nat>, done: set<word>, seen: set<word>, q: seq<int32>,
                      u: word, c: nat)
    requires Expanding(words, index, done, seen, q, u, c)
    ensures u in seen && u !in done && seen <= index.Keys
  {
  }

  lemma ExpandChild(words: seq<word>, index: map<word, nat>, done: set<word>, seen: set<word>, q: seq<int32>,
                    u: word, c: byte, n: int32)
    requires Indexed(words, index)
    requires Expanding(words, index, done, seen, q, u, c)
    requires 0 <= n < |words| && words[n] == u + [c]
    ensures u + [c] !in seen
    ensures Expanding(words, index, done, seen + {u + [c]}, q + [n], u, c + 1)
  {
    hide Indexed, Queue, Queued;
    var w := u + [c];
    WordInIndex(words, index, n);
    QueueIsInRange(words, q, |u|);
    InitOf(u, c);
    QueueGrows(words, q, |u|, n);
    QueuedGrows(words, q, n);
    assert w !in done && w !in Queued(words, q);
    forall v | v in index.Keys && v != []
      ensures v == w <==> Init(v) == u && v[|v| - 1] == c
    {
      assert v == Init(v) + [v[|v| - 1]];
    }
  }

  lemma QueueIsInRange(words: seq<word>, q: seq<int32>, low: nat)
    requires Queue(words, q, low)
    ensures InRange(words, q)
  {
  }

  lemma QueueGrows(words: seq<word>, q: seq<int32>, low: nat, n: int32)
    requires Queue(words, q, low)
    requires 0 <= n < |words| && |words[n]| == low + 1
    requires InRange(words, q) && words[n] !in Queued(words, q)
    ensures Queue(words, q + [n], low)
  {
  }

  lemma WordInIndex(words: seq<word>, index: map<word, nat>, n: nat)
    requires Indexed(words, index) && n < |words|
    ensures words[n] in index.Keys && index[words[n]] == n
  {
  }

  lemma SkipChild(words: seq<word>, index: map<word, nat>, done: set<word>, seen: set<word>, q: seq<int32>,
                  u: word, c: byte)
    requires Expanding(words, index, done, seen, q, u, c)
    requires u + [c] !in index
    ensures Expanding(words, index, done, seen, q, u, c + 1)
  {
    forall v | v in index.Keys && v != [] && Init(v) == u
      ensures v[|v| - 1] != c
    {
      assert v == Init(v) + [v[|v| - 1]];
    }
  }

  lemma FinishExpanding(words: seq<word>, index: map<word, nat>, done: set<word>, seen: set<word>, q: seq<int32>,
                        u: word)
    requires Expanding(words, index, done, seen, q, u, 256)
    ensures Frontier(words, index, done + {u}, seen, q)
  {
  }

  // Nothing as shallow as the word being expanded is still unseen: this is why its children can be
  // linked to finished nodes.
  lemma {:induction false} ShallowIsSeen(
      words: seq<word>, index: map<word, nat>, done: set<word>, seen: set<word>, q: seq<int32>, u: word, c: nat,
      w: word)
    requires PrefixClosed(index.Keys)
    requires Expanding(words, index, done, seen, q, u, c)
    requires w in index && |w| <= |u|
    ensures w in seen
    decreases |w|
  {
    if w != [] {
      ShallowIsSeen(words, index, done, seen, q, u, c, Init(w));
    }
  }

  lemma AllShallowSeen(
      words: seq<word>, index: map<word, nat>, done: set<word>, seen: set<word>, q: seq<int32>, u: word, c: nat)
    requires PrefixClosed(index.Keys)
    requires Expanding(words, index, done, seen, q, u, c)
    ensures forall w :: w in index && |w| <= |u| ==> w in seen
  {
    forall w | w in index && |w| <= |u|
      ensures w in seen
    {
      ShallowIsSeen(words, index, done, seen, q, u, c, w);
    }
  }

  // The walk reaches every word of the trie.
  lemma {:induction false} EverythingSeen(
      words: seq<word>, index: map<word, nat>, done: set<word>, seen: set<word>, w: word)
    requires PrefixClosed(index.Keys)
    requires Frontier(words, index, done, seen, [])
    requires w in index
    ensures w in seen
    decreases |w|
  {
    if w != [] {
      EverythingSeen(words, index, done, seen, Init(w));
    }
  }
}
