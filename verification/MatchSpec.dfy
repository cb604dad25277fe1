/** What multi-pattern matching means, independently of any automaton: words, the longest
    suffix that is a trie word, and the ids reported at each end position. */
module MatchSpec {
  import opened Ints

  type word = seq<byte>

  predicate IsSuffix(p: word, s: word) {
    |p| <= |s| && s[|s| - |p|..] == p
  }

  // The word without its last byte.
  function Init(w: word): word {
    if w == [] then [] else w[..|w| - 1]
  }

  lemma InitOf(w: word, c: byte)
    ensures Init(w + [c]) == w
  {
  }

  // Quantified over Init terms, so that the solver does not unroll prefixes on its own.
  ghost predicate PrefixClosed(ws: set<word>) {
    && [] in ws
    && forall w {:trigger Init(w)} :: w in ws ==> Init(w) in ws
  }

  function Prefixes(p: word): set<word> {
    set j | 0 <= j <= |p| :: p[..j]
  }

  // The words of a trie that holds the first n patterns.
  function TrieWords(pats: seq<word>, n: nat): set<word>
    requires n <= |pats|
  {
    if n == 0 then {[]} else TrieWords(pats, n - 1) + Prefixes(pats[n - 1])
  }

  lemma FirstPrefix()
    ensures Prefixes([]) == {[]}
  {
    var e: word := [];
    assert e[..0] == e;
  }

  lemma TrieWordsGrow(pats: seq<word>, n: nat)
    requires n < |pats|
    ensures TrieWords(pats, n + 1) == TrieWords(pats, n) + Prefixes(pats[n])
  {
  }

  // Trie words are exactly the prefixes of the patterns, and the empty word.
  lemma {:induction false} TrieWordsArePrefixes(pats: seq<word>, n: nat, w: word)
    requires n <= |pats|
    ensures w in TrieWords(pats, n) <==> w == [] || exists k :: 0 <= k < n && w <= pats[k]
  {
    if n > 0 {
      TrieWordsArePrefixes(pats, n - 1, w);
      var p := pats[n - 1];
      if w <= p {
        assert w == p[..|w|];
      }
    }
  }

  // ------------------------------------------------------------------ longest suffix

  // The longest suffix of s that is in ws (the empty word when there is none).
  function LongestSuffix(ws: set<word>, s: word): (r: word)
    ensures |r| <= |s|
  {
    if s == [] || s in ws then s else LongestSuffix(ws, s[1..])
  }

  lemma {:induction false} LongestSuffixIsWord(ws: set<word>, s: word)
    ensures var r := LongestSuffix(ws, s); IsSuffix(r, s) && (r == [] || r in ws)
  {
    if s != [] && s !in ws {
      LongestSuffixIsWord(ws, s[1..]);
    }
  }

  lemma TargetInTrie(ws: set<word>, w: word)
    requires PrefixClosed(ws) && w != []
    ensures LongestSuffix(ws, w[1..]) in ws && |LongestSuffix(ws, w[1..])| < |w|
  {
    LongestSuffixIsWord(ws, w[1..]);
  }

  lemma {:induction false} LongestSuffixIsLongest(ws: set<word>, s: word, x: word)
    requires x in ws && IsSuffix(x, s)
    ensures IsSuffix(x, LongestSuffix(ws, s))
  {
    if s != [] && s !in ws {
      LongestSuffixIsLongest(ws, s[1..], x);
    }
  }

  // Where reading c leads from the trie word u: follow failure words until one can be extended.
  function Goto(ws: set<word>, u: word, c: byte): word
    decreases |u|
  {
    if u + [c] in ws then u + [c]
    else if u == [] then []
    else Goto(ws, LongestSuffix(ws, u[1..]), c)
  }

  // The automaton step computes the longest suffix of the extended text.
  lemma {:induction false} GotoIsLongestSuffix(ws: set<word>, s: word, c: byte)
    requires PrefixClosed(ws)
    ensures Goto(ws, LongestSuffix(ws, s), c) == LongestSuffix(ws, s + [c])
    decreases |s|
  {
    if s == [] {
      assert [c][1..] == [];
    } else {
      var t := s[1..];
      assert (s + [c])[1..] == t + [c];
      assert s + [c] in ws ==> s in ws by {
        assert Init(s + [c]) == s;
      }
      GotoIsLongestSuffix(ws, t, c);
    }
  }

  // ------------------------------------------------------------------ reported ids

  // Ids below n of the patterns equal to s, in increasing order.
  function Own(pats: seq<word>, n: nat, s: word): seq<int>
    requires n <= |pats|
  {
    if n == 0 then []
    else Own(pats, n - 1, s) + if pats[n - 1] == s then [n - 1] else []
  }

  // The ids a finished trie node with word s reports.  A word of length one reports only its own
  // ids: build() never merges the root's output into a depth-one node.
  function Outputs(pats: seq<word>, ws: set<word>, s: word): seq<int>
    decreases |s|
  {
    Own(pats, |pats|, s) +
    if |s| <= 1 then [] else Outputs(pats, ws, LongestSuffix(ws, s[1..]))
  }

  ghost predicate Distinct(pats: seq<word>) {
    forall i, j :: 0 <= i < j < |pats| ==> pats[i] != pats[j]
  }

  lemma {:induction false} OwnMembers(pats: seq<word>, n: nat, s: word, id: int)
    requires n <= |pats|
    ensures id in Own(pats, n, s) <==> 0 <= id < n && pats[id] == s
  {
    if n > 0 {
      OwnMembers(pats, n - 1, s, id);
    }
  }

  lemma {:induction false} OwnIsSingle(pats: seq<word>, n: nat, s: word)
    requires n <= |pats| && Distinct(pats)
    ensures |Own(pats, n, s)| <= 1
  {
    if n > 0 {
      OwnIsSingle(pats, n - 1, s);
      if Own(pats, n - 1, s) != [] {
        OwnMembers(pats, n - 1, s, Own(pats, n - 1, s)[0]);
      }
    }
  }

  // o holds only ids of patterns that are suffixes of s, and every such non-empty pattern.
  ghost predicate ReportsSuffixes(pats: seq<word>, s: word, o: seq<int>) {
    forall id: int ::
      && (id in o ==> 0 <= id < |pats| && IsSuffix(pats[id], s))
      && (0 <= id < |pats| && pats[id] != [] && IsSuffix(pats[id], s) ==> id in o)
  }

  lemma {:induction false} OutputsExact(pats: seq<word>, ws: set<word>, s: word)
    requires forall p :: p in pats ==> p in ws
    ensures ReportsSuffixes(pats, s, Outputs(pats, ws, s))
    decreases |s|
  {
    forall id: int
      ensures id in Own(pats, |pats|, s) <==> 0 <= id < |pats| && pats[id] == s
    {
      OwnMembers(pats, |pats|, s, id);
    }
    if |s| > 1 {
      var u := LongestSuffix(ws, s[1..]);
      OutputsExact(pats, ws, u);
      LongestSuffixReports(pats, ws, s[1..], Outputs(pats, ws, u));
      ReportsOneMore(pats, s, Own(pats, |pats|, s), Outputs(pats, ws, u));
    }
  }

  // A suffix of s is s itself or a suffix of its tail.
  lemma ReportsOneMore(pats: seq<word>, s: word, own: seq<int>, rest: seq<int>)
    requires |s| > 1 && ReportsSuffixes(pats, s[1..], rest)
    requires forall id: int :: id in own <==> 0 <= id < |pats| && pats[id] == s
    ensures ReportsSuffixes(pats, s, own + rest)
  {
    forall id | 0 <= id < |pats|
      ensures IsSuffix(pats[id], s) <==> pats[id] == s || IsSuffix(pats[id], s[1..])
    {
      var p := pats[id];
      if |p| < |s| {
        assert s[|s| - |p|..] == s[1..][|s| - 1 - |p|..];
      }
    }
  }

  lemma SuffixTransitive(p: word, s: word, t: word)
    requires IsSuffix(p, s) && IsSuffix(s, t)
    ensures IsSuffix(p, t)
  {
    assert s[|s| - |p|..] == t[|t| - |s|..][|s| - |p|..];
  }

  // A word and its longest trie suffix have the same patterns as suffixes.
  lemma LongestSuffixReports(pats: seq<word>, ws: set<word>, t: word, o: seq<int>)
    requires forall p :: p in pats ==> p in ws
    requires ReportsSuffixes(pats, LongestSuffix(ws, t), o)
    ensures ReportsSuffixes(pats, t, o)
  {
    var s := LongestSuffix(ws, t);
    LongestSuffixIsWord(ws, t);
    forall id | 0 <= id < |pats|
      ensures IsSuffix(pats[id], s) <==> IsSuffix(pats[id], t)
    {
      if IsSuffix(pats[id], t) {
        assert pats[id] in pats;
        LongestSuffixIsLongest(ws, t, pats[id]);
      } else if IsSuffix(pats[id], s) {
        SuffixTransitive(pats[id], s, t);
      }
    }
  }

  predicate Longer(pats: seq<word>, a: int, b: int) {
    && 0 <= a < |pats| && 0 <= b < |pats| && |pats[a]| > |pats[b]|
  }

  // From the longest pattern to the shortest, so no id is repeated.
  ghost predicate Descending(pats: seq<word>, o: seq<int>) {
    forall j, k :: 0 <= j < k < |o| ==> Longer(pats, o[j], o[k])
  }

  lemma {:induction false} OutputsDescend(pats: seq<word>, ws: set<word>, s: word)
    requires Distinct(pats)
    requires forall p :: p in pats ==> p in ws
    ensures Descending(pats, Outputs(pats, ws, s))
    decreases |s|
  {
    OwnIsSingle(pats, |pats|, s);
    if |s| > 1 {
      var u := LongestSuffix(ws, s[1..]);
      OutputsDescend(pats, ws, u);
      OutputsExact(pats, ws, u);
      var own := Own(pats, |pats|, s);
      forall id | id in own
        ensures 0 <= id < |pats| && pats[id] == s
      {
        OwnMembers(pats, |pats|, s, id);
      }
      DescendFrom(pats, own, Outputs(pats, ws, u), |u|);
    }
  }

  lemma DescendFrom(pats: seq<word>, own: seq<int>, rest: seq<int>, n: nat)
    requires |own| <= 1 && Descending(pats, rest)
    requires forall id :: id in own ==> 0 <= id < |pats| && n < |pats[id]|
    requires forall id :: id in rest ==> 0 <= id < |pats| && |pats[id]| <= n
    ensures Descending(pats, own + rest)
  {
    forall j, k | 0 <= j < k < |own + rest|
      ensures Longer(pats, (own + rest)[j], (own + rest)[k])
    {
      if j < |own| {
        assert own[0] in own && rest[k - |own|] in rest;
      }
    }
  }

  // ------------------------------------------------------------------ whole texts

  // Pattern id occurs in the text at offset m.0.
  predicate Occurs(pats: seq<word>, text: word, m: (int, int)) {
    && 0 <= m.1 < |pats|
    && 0 <= m.0 <= m.0 + |pats[m.1]| <= |text|
    && text[m.0..m.0 + |pats[m.1]|] == pats[m.1]
  }

  function EndOf(pats: seq<word>, m: (int, int)): int
    requires 0 <= m.1 < |pats|
  {
    m.0 + |pats[m.1]|
  }

  // Results are ordered by end position; at one position, longer patterns come first.
  predicate Before(pats: seq<word>, a: (int, int), b: (int, int)) {
    && 0 <= a.1 < |pats| && 0 <= b.1 < |pats|
    && (EndOf(pats, a) < EndOf(pats, b)
        || (EndOf(pats, a) == EndOf(pats, b) && |pats[a.1]| > |pats[b.1]|))
  }

  ghost predicate Ordered(pats: seq<word>, res: seq<(int, int)>) {
    forall j, k :: 0 <= j < k < |res| ==> Before(pats, res[j], res[k])
  }

  // Everything reported occurs, and every occurrence of a non-empty pattern is reported.
  ghost predicate SoundAndComplete(pats: seq<word>, text: word, res: seq<(int, int)>) {
    && (forall m :: m in res ==> Occurs(pats, text, m))
    && (forall m :: Occurs(pats, text, m) && pats[m.1] != [] ==> m in res)
  }

  // The naive specification: exactly the occurrences.
  ghost predicate Exact(pats: seq<word>, text: word, res: seq<(int, int)>) {
    forall m :: m in res <==> Occurs(pats, text, m)
  }

  // The matches of the given ids that end after byte i.
  function Emit(pats: seq<word>, i: nat, ids: seq<int>): seq<(int, int)>
    requires forall id :: id in ids ==> 0 <= id < |pats|
  {
    seq(|ids|, k requires 0 <= k < |ids| =>
      assert ids[k] in ids;
      (i - |pats[ids[k]]| + 1, ids[k]))
  }

  // What reading the byte that leads to the trie word s reports: falling back to the root itself
  // reports nothing.
  function Reported(pats: seq<word>, ws: set<word>, s: word): seq<int> {
    if s == [] then [] else Outputs(pats, ws, s)
  }

  lemma ReportedIsRight(pats: seq<word>, ws: set<word>, t: word)
    requires forall p :: p in pats ==> p in ws
    ensures ReportsSuffixes(pats, t, Reported(pats, ws, LongestSuffix(ws, t)))
    ensures Distinct(pats) ==> Descending(pats, Reported(pats, ws, LongestSuffix(ws, t)))
  {
    var s := LongestSuffix(ws, t);
    OutputsExact(pats, ws, s);
    LongestSuffixReports(pats, ws, t, Reported(pats, ws, s));
    if Distinct(pats) {
      OutputsDescend(pats, ws, s);
    }
  }

  // What a scan has reported after n bytes.
  function Scan(pats: seq<word>, ws: set<word>, text: word, n: nat): seq<(int, int)>
    requires n <= |text|
    requires forall p :: p in pats ==> p in ws
  {
    if n == 0 then []
    else
      ReportedIsRight(pats, ws, text[..n]);
      Scan(pats, ws, text, n - 1) + Emit(pats, n - 1, Reported(pats, ws, LongestSuffix(ws, text[..n])))
  }

  lemma OccursAsSuffix(pats: seq<word>, text: word, m: (int, int))
    requires 0 <= m.1 < |pats|
    requires 0 <= EndOf(pats, m) <= |text|
    ensures Occurs(pats, text, m) <==> IsSuffix(pats[m.1], text[..EndOf(pats, m)])
  {
    var e := EndOf(pats, m);
    var p := pats[m.1];
    if |p| <= e {
      assert text[..e][e - |p|..] == text[m.0..e];
    }
  }

  lemma ScanStep(pats: seq<word>, ws: set<word>, text: word, n: nat)
    requires 0 < n <= |text|
    requires forall p :: p in pats ==> p in ws
    ensures var s := LongestSuffix(ws, text[..n]);
            && (s == [] ==> Scan(pats, ws, text, n) == Scan(pats, ws, text, n - 1))
            && (forall id :: id in Outputs(pats, ws, s) ==> 0 <= id < |pats| && |pats[id]| <= n)
            && (s != [] ==>
                  Scan(pats, ws, text, n) == Scan(pats, ws, text, n - 1) + Emit(pats, n - 1, Outputs(pats, ws, s)))
  {
    OutputsExact(pats, ws, LongestSuffix(ws, text[..n]));
    LongestSuffixIsWord(ws, text[..n]);
  }

  lemma ScanNothing(pats: seq<word>, ws: set<word>, text: word)
    requires forall p :: p in pats ==> p in ws
    ensures Scan(pats, ws, text, 0) == []
  {
  }

  lemma ScanOkAtEnd(pats: seq<word>, text: word, res: seq<(int, int)>)
    requires ScanOk(pats, text, |text|, res)
    ensures Ordered(pats, res) && SoundAndComplete(pats, text, res)
  {
  }

  lemma NothingRead(ws: set<word>)
    ensures LongestSuffix(ws, []) == []
  {
  }

  lemma PatternsInTrie(pats: seq<word>, n: nat)
    requires n <= |pats|
    ensures forall p :: p in pats[..n] ==> p in TrieWords(pats, n)
    ensures n == |pats| ==> forall p :: p in pats ==> p in TrieWords(pats, n)
  {
    forall p | p in pats[..n]
      ensures p in TrieWords(pats, n)
    {
      TrieWordsArePrefixes(pats, n, p);
    }
    assert n == |pats| ==> pats[..n] == pats;
  }

  ghost predicate ScanOk(pats: seq<word>, text: word, n: nat, res: seq<(int, int)>) {
    && Ordered(pats, res)
    && (forall m :: m in res ==> Occurs(pats, text, m) && EndOf(pats, m) <= n)
    && (forall m :: Occurs(pats, text, m) && pats[m.1] != [] && EndOf(pats, m) <= n ==> m in res)
  }

  // The matches that end exactly after byte n - 1, in order.
  lemma EmitIsRight(pats: seq<word>, text: word, n: nat, ids: seq<int>)
    requires 0 < n <= |text|
    requires ReportsSuffixes(pats, text[..n], ids) && Descending(pats, ids)
    ensures var add := Emit(pats, n - 1, ids);
            && Ordered(pats, add)
            && (forall m :: m in add ==> Occurs(pats, text, m) && EndOf(pats, m) == n)
            && (forall m :: Occurs(pats, text, m) && pats[m.1] != [] && EndOf(pats, m) == n ==> m in add)
  {
    var add := Emit(pats, n - 1, ids);
    forall m | m in add
      ensures Occurs(pats, text, m) && EndOf(pats, m) == n
    {
      var k :| 0 <= k < |add| && add[k] == m;
      assert ids[k] in ids;
      OccursAsSuffix(pats, text, m);
    }
    forall m | Occurs(pats, text, m) && pats[m.1] != [] && EndOf(pats, m) == n
      ensures m in add
    {
      OccursAsSuffix(pats, text, m);
      var k :| 0 <= k < |ids| && ids[k] == m.1;
      assert add[k] == m;
    }
    forall j, k | 0 <= j < k < |add|
      ensures Before(pats, add[j], add[k])
    {
      assert Longer(pats, ids[j], ids[k]);
    }
  }

  // Appending matches that all end after byte n - 1 keeps a scan of n - 1 bytes right.
  lemma ScanGrows(pats: seq<word>, text: word, n: nat, res: seq<(int, int)>, add: seq<(int, int)>)
    requires 0 < n
    requires ScanOk(pats, text, n - 1, res)
    requires Ordered(pats, add)
    requires forall m :: m in add ==> Occurs(pats, text, m) && EndOf(pats, m) == n
    requires forall m :: Occurs(pats, text, m) && pats[m.1] != [] && EndOf(pats, m) == n ==> m in add
    ensures ScanOk(pats, text, n, res + add)
  {
    forall j, k | 0 <= j < k < |res + add|
      ensures Before(pats, (res + add)[j], (res + add)[k])
    {
      if j < |res| && k >= |res| {
        assert res[j] in res && add[k - |res|] in add;
      }
    }
  }

  lemma ScanOkAtStart(pats: seq<word>, text: word)
    ensures ScanOk(pats, text, 0, [])
  {
  }

  lemma {:induction false} ScanIsRight(pats: seq<word>, ws: set<word>, text: word, n: nat)
    requires n <= |text| && Distinct(pats)
    requires forall p :: p in pats ==> p in ws
    ensures ScanOk(pats, text, n, Scan(pats, ws, text, n))
  {
    hide LongestSuffix, Outputs, ScanOk;
    if n == 0 {
      ScanOkAtStart(pats, text);
    } else {
      hide Reported;
      ScanIsRight(pats, ws, text, n - 1);
      ReportedIsRight(pats, ws, text[..n]);
      var ids := Reported(pats, ws, LongestSuffix(ws, text[..n]));
      EmitIsRight(pats, text, n, ids);
      ScanGrows(pats, text, n, Scan(pats, ws, text, n - 1), Emit(pats, n - 1, ids));
    }
  }

  // With the empty word among the patterns the scan misses its occurrence at offset 0 of every
  // text; without it the scan is the naive specification.
  lemma ScanExactIff(pats: seq<word>, ws: set<word>, text: word)
    requires Distinct(pats)
    requires forall p :: p in pats ==> p in ws
    ensures Exact(pats, text, Scan(pats, ws, text, |text|)) <==> [] !in pats
  {
    ScanIsRight(pats, ws, text, |text|);
    if [] in pats {
      var id :| 0 <= id < |pats| && pats[id] == [];
      assert Occurs(pats, text, (0, id));
      if (0, id) in Scan(pats, ws, text, |text|) {
        ScanEndsPositive(pats, ws, text, |text|, (0, id));
      }
    }
  }

  lemma {:induction false} ScanEndsPositive(pats: seq<word>, ws: set<word>, text: word, n: nat, m: (int, int))
    requires n <= |text|
    requires forall p :: p in pats ==> p in ws
    requires m in Scan(pats, ws, text, n)
    ensures 0 <= m.1 < |pats| && EndOf(pats, m) > 0
  {
    hide LongestSuffix, Outputs;
    if n > 0 {
      ReportedIsRight(pats, ws, text[..n]);
    }
    if n > 0 && m in Scan(pats, ws, text, n - 1) {
      ScanEndsPositive(pats, ws, text, n - 1, m);
    }
  }

  // ------------------------------------------------------------------ the empty pattern

  ghost predicate StartsPattern(pats: seq<word>, w: word) {
    exists k :: 0 <= k < |pats| && w <= pats[k]
  }

  // Before offset e the text ends with the beginning of a pattern, but its last byte begins none.
  ghost predicate EmptyHit(pats: seq<word>, text: word, e: int) {
    && 0 < e <= |text|
    && !StartsPattern(pats, [text[e - 1]])
    && exists j :: 0 <= j < e && StartsPattern(pats, text[j..e])
  }

  // A node reports the empty pattern exactly if it is the root or its last byte is no trie word.
  lemma {:induction false} EmptyOutput(pats: seq<word>, ws: set<word>, s: word, id: int)
    requires 0 <= id < |pats| && pats[id] == []
    ensures id in Outputs(pats, ws, s) <==> s == [] || (|s| > 1 && [s[|s| - 1]] !in ws)
    decreases |s|
  {
    OwnMembers(pats, |pats|, s, id);
    if |s| > 1 {
      var t := s[1..];
      var u := LongestSuffix(ws, t);
      EmptyOutput(pats, ws, u, id);
      LongestSuffixIsWord(ws, t);
      var last := [s[|s| - 1]];
      assert IsSuffix(last, t);
      if last in ws {
        LongestSuffixIsLongest(ws, t, last);
      }
      assert u != [] ==> u[|u| - 1] == s[|s| - 1];
      assert |u| == 1 ==> u == last;
    }
  }

  lemma EmptyReported(pats: seq<word>, ws: set<word>, t: word, id: int)
    requires 0 <= id < |pats| && pats[id] == [] && t != []
    ensures id in Reported(pats, ws, LongestSuffix(ws, t)) <==>
              [t[|t| - 1]] !in ws && LongestSuffix(ws, t) != []
  {
    var s := LongestSuffix(ws, t);
    var last := [t[|t| - 1]];
    EmptyOutput(pats, ws, s, id);
    LongestSuffixIsWord(ws, t);
    assert s != [] ==> s[|s| - 1] == t[|t| - 1];
    assert |s| == 1 ==> s == last;
  }

  lemma EmitMembers(pats: seq<word>, i: nat, ids: seq<int>, m: (int, int))
    requires forall id :: id in ids ==> 0 <= id < |pats|
    ensures m in Emit(pats, i, ids) <==> m.1 in ids && m.0 == i - |pats[m.1]| + 1
  {
    if m.1 in ids && m.0 == i - |pats[m.1]| + 1 {
      var k :| 0 <= k < |ids| && ids[k] == m.1;
      assert Emit(pats, i, ids)[k] == m;
    }
  }

  lemma {:induction false} ScanEmpty(pats: seq<word>, ws: set<word>, text: word, n: nat, m: (int, int))
    requires n <= |text| && forall p :: p in pats ==> p in ws
    requires 0 <= m.1 < |pats| && pats[m.1] == []
    ensures m in Scan(pats, ws, text, n) <==>
              0 < m.0 <= n && [text[m.0 - 1]] !in ws && LongestSuffix(ws, text[..m.0]) != []
  {
    hide LongestSuffix, Reported, Emit;
    if n == 0 {
      ScanNothing(pats, ws, text);
    } else {
      ScanEmpty(pats, ws, text, n - 1, m);
      ReportedIsRight(pats, ws, text[..n]);
      EmitMembers(pats, n - 1, Reported(pats, ws, LongestSuffix(ws, text[..n])), m);
      EmptyReported(pats, ws, text[..n], m.1);
    }
  }

  lemma SomeSuffixStarts(pats: seq<word>, ws: set<word>, text: word, e: int)
    requires forall w :: w in ws <==> w == [] || StartsPattern(pats, w)
    requires 0 < e <= |text|
    ensures LongestSuffix(ws, text[..e]) != [] <==> exists j :: 0 <= j < e && StartsPattern(pats, text[j..e])
  {
    hide StartsPattern;
    var t := text[..e];
    var s := LongestSuffix(ws, t);
    LongestSuffixIsWord(ws, t);
    if s != [] {
      assert s == text[e - |s|..e];
    }
    if j :| 0 <= j < e && StartsPattern(pats, text[j..e]) {
      assert t[|t| - (e - j)..] == text[j..e];
      LongestSuffixIsLongest(ws, t, text[j..e]);
    }
  }

  // With empty patterns too, exactly which occurrences a scan reports.
  ghost predicate ExactlyReported(pats: seq<word>, text: word, res: seq<(int, int)>) {
    forall m :: m in res <==> Occurs(pats, text, m) && (pats[m.1] != [] || EmptyHit(pats, text, m.0))
  }

  lemma ScanReportsExactly(pats: seq<word>, ws: set<word>, text: word)
    requires Distinct(pats) && ws == TrieWords(pats, |pats|)
    requires forall p :: p in pats ==> p in ws
    ensures ExactlyReported(pats, text, Scan(pats, ws, text, |text|))
  {
    hide LongestSuffix, Scan, TrieWords;
    forall w
      ensures w in ws <==> w == [] || StartsPattern(pats, w)
    {
      TrieWordsArePrefixes(pats, |pats|, w);
    }
    ScanIsRight(pats, ws, text, |text|);
    var res := Scan(pats, ws, text, |text|);
    forall m
      ensures m in res <==> Occurs(pats, text, m) && (pats[m.1] != [] || EmptyHit(pats, text, m.0))
    {
      if 0 <= m.1 < |pats| && pats[m.1] == [] {
        ScanEmpty(pats, ws, text, |text|, m);
        if 0 < m.0 <= |text| {
          SomeSuffixStarts(pats, ws, text, m.0);
        }
      }
    }
  }

  // The two result properties leave no choice: an ordered result with given members is unique.
  lemma {:induction false} OrderedIsUnique(pats: seq<word>, a: seq<(int, int)>, b: seq<(int, int)>)
    requires Ordered(pats, a) && Ordered(pats, b)
    requires forall m :: m in a <==> m in b
    ensures a == b
    decreases |a|
  {
    HasMember(a);
    HasMember(b);
    if a != [] && b != [] {
      FirstIsLeast(pats, a, b[0]);
      FirstIsLeast(pats, b, a[0]);
      forall m
        ensures m in a[1..] <==> m in b[1..]
      {
        OrderedTail(pats, a, m);
        OrderedTail(pats, b, m);
      }
      OrderedIsUnique(pats, a[1..], b[1..]);
    }
  }

  lemma HasMember<T>(a: seq<T>)
    ensures a != [] ==> exists m :: m in a
  {
    assert a != [] ==> a[0] in a;
  }

  lemma FirstIsLeast(pats: seq<word>, a: seq<(int, int)>, m: (int, int))
    requires Ordered(pats, a) && m in a
    ensures m == a[0] || Before(pats, a[0], m)
  {
    var k :| 0 <= k < |a| && a[k] == m;
    assert k > 0 ==> Before(pats, a[0], a[k]);
  }

  lemma OrderedTail(pats: seq<word>, a: seq<(int, int)>, m: (int, int))
    requires Ordered(pats, a) && a != []
    ensures m in a[1..] <==> m in a && m != a[0]
  {
    if m in a[1..] {
      var k :| 0 <= k < |a| - 1 && a[1..][k] == m;
      assert Before(pats, a[0], a[k + 1]);
    }
    if m in a && m != a[0] {
      var k :| 0 <= k < |a| && a[k] == m;
      assert a[1..][k - 1] == m;
    }
  }
}
