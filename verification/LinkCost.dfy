/** Amortised cost of following failure links while the automaton is built. */
module LinkCost {
  import opened Ints
  import opened MatchSpec

  function TotalLength(pats: seq<word>, n: nat): nat
    requires n <= |pats|
  {
    if n == 0 then 0 else TotalLength(pats, n - 1) + |pats[n - 1]|
  }

  lemma {:induction false} TotalLengthMonotone(pats: seq<word>, m: nat, n: nat)
    requires m <= n <= |pats|
    ensures TotalLength(pats, m) <= TotalLength(pats, n)
  {
    if m < n {
      TotalLengthMonotone(pats, m, n - 1);
    }
  }

  lemma TotalLengthZero(pats: seq<word>)
    ensures TotalLength(pats, 0) == 0
  {
  }

  lemma TotalLengthStep(pats: seq<word>, n: nat)
    requires n < |pats|
    ensures TotalLength(pats, n + 1) == TotalLength(pats, n) + |pats[n]|
  {
  }

  // The most failure links that linking the node of w can follow: each one loses depth, and only
  // the final edge wins one back.
  function Cost(ws: set<word>, w: word): int {
    if |w| < 2 then 0
    else |LongestSuffix(ws, w[1..|w| - 1])| + 1 - |LongestSuffix(ws, w[1..])|
  }

  lemma CostOfEdge(ws: set<word>, s: word, c: byte)
    requires s != []
    ensures Cost(ws, s + [c]) == |LongestSuffix(ws, s[1..])| + 1 - |LongestSuffix(ws, (s + [c])[1..])|
  {
    hide LongestSuffix;
    var w := s + [c];
    assert w[1..|w| - 1] == s[1..];
  }

  lemma LongestSuffixGrowsByOne(ws: set<word>, x: word, c: byte)
    requires PrefixClosed(ws)
    ensures |LongestSuffix(ws, x + [c])| <= |LongestSuffix(ws, x)| + 1
  {
    var r := LongestSuffix(ws, x + [c]);
    LongestSuffixIsWord(ws, x + [c]);
    if r != [] {
      var init := Init(r);
      assert init == x[|x| - |init|..];
      LongestSuffixIsLongest(ws, x, init);
    }
  }

  lemma CostNonNegative(ws: set<word>, w: word)
    requires PrefixClosed(ws)
    ensures Cost(ws, w) >= 0
  {
    if |w| >= 2 {
      assert w[1..] == w[1..|w| - 1] + [w[|w| - 1]];
      LongestSuffixGrowsByOne(ws, w[1..|w| - 1], w[|w| - 1]);
    }
  }

  ghost function CostSum(ws: set<word>, s: set<word>): int {
    if s == {} then 0
    else var w :| w in s; Cost(ws, w) + CostSum(ws, s - {w})
  }

  lemma {:induction false} CostSumAdd(ws: set<word>, s: set<word>, w: word)
    requires w !in s
    ensures CostSum(ws, s + {w}) == CostSum(ws, s) + Cost(ws, w)
    decreases |s|
  {
    var t := s + {w};
    var v :| v in t && CostSum(ws, t) == Cost(ws, v) + CostSum(ws, t - {v});
    if v == w {
      assert t - {v} == s;
    } else {
      assert t - {v} == (s - {v}) + {w} && s == (s - {v}) + {v};
      CostSumAdd(ws, s - {v}, w);
      CostSumAdd(ws, s - {v}, v);
    }
  }

  lemma {:induction false} CostSumUnion(ws: set<word>, a: set<word>, b: set<word>)
    requires PrefixClosed(ws)
    ensures CostSum(ws, a + b) <= CostSum(ws, a) + CostSum(ws, b)
    decreases |b|
  {
    if b == {} {
      assert a + b == a;
    } else {
      var w :| w in b;
      var b' := b - {w};
      assert b == b' + {w} && a + b == (a + b') + {w};
      CostSumUnion(ws, a, b');
      CostSumAdd(ws, b', w);
      CostNonNegative(ws, w);
      if w in a {
        assert a + b == a + b';
      } else {
        CostSumAdd(ws, a + b', w);
      }
    }
  }

  lemma PrefixesGrow(p: word, c: byte)
    ensures Prefixes(p + [c]) == Prefixes(p) + {p + [c]}
    ensures p + [c] !in Prefixes(p)
  {
    var q := p + [c];
    forall w
      ensures w in Prefixes(q) <==> w in Prefixes(p) || w == q
    {
      assert q[..|q|] == q;
      assert forall j :: 0 <= j <= |p| ==> q[..j] == p[..j];
    }
  }

  // Along one pattern the costs telescope.
  lemma {:induction false} CostOfPrefixes(ws: set<word>, p: word)
    ensures CostSum(ws, Prefixes(p)) == if p == [] then 0 else |p| - 1 - |LongestSuffix(ws, p[1..])|
  {
    if p == [] {
      assert p[..0] == [] && Prefixes(p) == {} + {[]};
      CostSumAdd(ws, {}, []);
    } else {
      var init := p[..|p| - 1];
      assert p == init + [p[|p| - 1]];
      CostOfPrefixes(ws, init);
      PrefixesGrow(init, p[|p| - 1]);
      CostSumAdd(ws, Prefixes(init), p);
      assert init != [] ==> init[1..] == p[1..|p| - 1];
    }
  }

  lemma {:induction false} CostOfTrie(ws: set<word>, pats: seq<word>, n: nat)
    requires PrefixClosed(ws) && n <= |pats|
    ensures CostSum(ws, TrieWords(pats, n)) <= TotalLength(pats, n)
  {
    if n == 0 {
      CostOfRoot(ws);
    } else {
      CostOfTrie(ws, pats, n - 1);
      CostOfPrefixes(ws, pats[n - 1]);
      CostSumUnion(ws, TrieWords(pats, n - 1), Prefixes(pats[n - 1]));
    }
  }

  lemma CostOfRoot(ws: set<word>)
    ensures CostSum(ws, {[]}) == 0
  {
    var r: set<word> := {[]};
    assert r == {} + {[]};
    CostSumAdd(ws, {}, []);
  }

  lemma CostOfShort(ws: set<word>, w: word)
    requires |w| < 2
    ensures Cost(ws, w) == 0
  {
  }
}
