/** The ordered set of ranges behind MemoryPolicyDynamic (lifter/MemoryPolicy.hpp), as a sequence
    sorted by start, and its reading as a partial map from addresses to access modes. */
module RangeSet {
  import opened Ints
  import opened Wrappers
  import SortedSeq

  datatype AccessMode = SYMBOLIC | CONCRETE

  datatype MemoryRange = MemoryRange(start: uint64, end: uint64, mode: AccessMode)

  predicate Contains(r: MemoryRange, a: int) {
    r.start <= a <= r.end
  }

  // Sorted by start, non-empty and pairwise disjoint.
  ghost predicate WellFormed(rs: seq<MemoryRange>) {
    && (forall i :: 0 <= i < |rs| ==> rs[i].start <= rs[i].end)
    && (forall i, j :: 0 <= i < j < |rs| ==> rs[i].end < rs[j].start)
  }

  // The mode stored for address a, if any.
  ghost function Stored(rs: seq<MemoryRange>, a: int): Option<AccessMode> {
    if exists i :: 0 <= i < |rs| && Contains(rs[i], a) then
      var i :| 0 <= i < |rs| && Contains(rs[i], a);
      Some(rs[i].mode)
    else None
  }

  lemma StoredAt(rs: seq<MemoryRange>, i: nat, a: int)
    requires WellFormed(rs) && i < |rs| && Contains(rs[i], a)
    ensures Stored(rs, a) == Some(rs[i].mode)
  {
    forall j | 0 <= j < |rs| && Contains(rs[j], a)
      ensures j == i
    {
      assert !(j < i) && !(i < j);
    }
  }

  // std::set::upper_bound and lower_bound: the first range starting after, or not before, x.
  function UpperBound(rs: seq<MemoryRange>, x: int): (k: nat)
    ensures k <= |rs|
    ensures k > 0 ==> rs[k - 1].start <= x
    ensures forall i :: k <= i < |rs| ==> x < rs[i].start
  {
    SortedSeq.UpperBound((r: MemoryRange) => r.start, rs, x)
  }

  function LowerBound(rs: seq<MemoryRange>, x: int): nat {
    UpperBound(rs, x - 1)
  }

  // std::set::insert: no effect when a range with the same start is already there.
  function Insert(rs: seq<MemoryRange>, r: MemoryRange): seq<MemoryRange> {
    var k := LowerBound(rs, r.start);
    if k < |rs| && rs[k].start == r.start then rs else rs[..k] + [r] + rs[k..]
  }

  predicate Apart(r: MemoryRange, s: MemoryRange) {
    r.end < s.start || s.end < r.start
  }

  lemma StoredAround(pre: seq<MemoryRange>, r: MemoryRange, post: seq<MemoryRange>, a: int)
    requires WellFormed(pre + [r] + post) && WellFormed(pre + post)
    ensures Stored(pre + [r] + post, a) == if Contains(r, a) then Some(r.mode) else Stored(pre + post, a)
  {
    var with, without := pre + [r] + post, pre + post;
    if Contains(r, a) {
      assert with[|pre|] == r;
      StoredAt(with, |pre|, a);
    } else if exists i :: 0 <= i < |without| && Contains(without[i], a) {
      var i :| 0 <= i < |without| && Contains(without[i], a);
      StoredAt(without, i, a);
      assert without[i] == with[if i < |pre| then i else i + 1];
      StoredAt(with, if i < |pre| then i else i + 1, a);
    } else {
      forall i | 0 <= i < |with|
        ensures !Contains(with[i], a)
      {
        assert i != |pre| ==> with[i] == without[if i < |pre| then i else i - 1];
      }
    }
  }

  lemma InsertBounds(rs: seq<MemoryRange>, r: MemoryRange) returns (k: nat)
    requires WellFormed(rs) && r.start <= r.end
    requires forall s :: s in rs ==> Apart(r, s)
    ensures k <= |rs| && Insert(rs, r) == rs[..k] + [r] + rs[k..]
    ensures forall i :: 0 <= i < k ==> rs[i].end < r.start
    ensures forall i :: k <= i < |rs| ==> r.end < rs[i].start
  {
    k := LowerBound(rs, r.start);
    assert k < |rs| ==> rs[k] in rs;
    assert k > 0 ==> rs[k - 1] in rs;
    assert k > 0 ==> forall i :: 0 <= i < k - 1 ==> rs[i].end < rs[k - 1].start;
    assert forall i :: k < i < |rs| ==> rs[k].end < rs[i].start;
  }

  lemma InsertPlace(rs: seq<MemoryRange>, r: MemoryRange) returns (k: nat)
    requires WellFormed(rs) && r.start <= r.end
    requires forall s :: s in rs ==> Apart(r, s)
    ensures k <= |rs| && Insert(rs, r) == rs[..k] + [r] + rs[k..]
    ensures WellFormed(Insert(rs, r))
  {
    hide Insert, WellFormed;
    k := InsertBounds(rs, r);
    WellFormedSplit(rs, k);
    AroundIsWellFormed(rs[..k], r, rs[k..]);
  }

  lemma AroundIsWellFormed(pre: seq<MemoryRange>, r: MemoryRange, post: seq<MemoryRange>)
    requires WellFormed(pre) && WellFormed(post) && Below(pre, post) && r.start <= r.end
    requires forall i :: 0 <= i < |pre| ==> pre[i].end < r.start
    requires forall i :: 0 <= i < |post| ==> r.end < post[i].start
    ensures WellFormed(pre + [r] + post)
  {
  }

  // Inserting a range that is apart from all others adds exactly its own addresses.
  lemma InsertApart(rs: seq<MemoryRange>, r: MemoryRange)
    requires WellFormed(rs) && r.start <= r.end
    requires forall s :: s in rs ==> Apart(r, s)
    ensures WellFormed(Insert(rs, r))
    ensures forall s :: s in Insert(rs, r) <==> s in rs || s == r
    ensures forall a: int :: Stored(Insert(rs, r), a) == if Contains(r, a) then Some(r.mode) else Stored(rs, a)
  {
    var k := InsertPlace(rs, r);
    assert rs == rs[..k] + rs[k..];
    hide Insert, Stored, WellFormed;
    forall a: int
      ensures Stored(Insert(rs, r), a) == if Contains(r, a) then Some(r.mode) else Stored(rs, a)
    {
      StoredAround(rs[..k], r, rs[k..], a);
    }
  }

  // ------------------------------------------------------------------ replacing a window

  // The addresses of rs outside [lo, hi], with the ranges cut at the window's edges.
  function LeftPiece(hit: seq<MemoryRange>, lo: uint64): seq<MemoryRange> {
    if hit != [] && hit[0].start < lo then [MemoryRange(hit[0].start, lo - 1, hit[0].mode)] else []
  }

  function RightPiece(hit: seq<MemoryRange>, hi: uint64): seq<MemoryRange> {
    if hit != [] && hit[|hit| - 1].end > hi then
      [MemoryRange(hi + 1, hit[|hit| - 1].end, hit[|hit| - 1].mode)]
    else []
  }

  lemma PiecesOf(r: MemoryRange, lo: uint64, hi: uint64)
    ensures LeftPiece([r], lo) == if r.start < lo then [MemoryRange(r.start, lo - 1, r.mode)] else []
    ensures RightPiece([r], hi) == if r.end > hi then [MemoryRange(hi + 1, r.end, r.mode)] else []
  {
  }

  lemma NoPieces(lo: uint64, hi: uint64)
    ensures LeftPiece([], lo) + RightPiece([], hi) == []
  {
  }

  ghost predicate Below(a: seq<MemoryRange>, b: seq<MemoryRange>) {
    forall i, j :: 0 <= i < |a| && 0 <= j < |b| ==> a[i].end < b[j].start
  }

  // addRange's erase loop has moved past `pre`, erased `hit`, and has `post` ahead.
  ghost predicate Sweep(pre: seq<MemoryRange>, hit: seq<MemoryRange>, post: seq<MemoryRange>, lo: int, hi: int) {
    && WellFormed(pre) && WellFormed(hit) && WellFormed(post)
    && Below(pre, hit) && Below(hit, post) && Below(pre, post)
    && (forall i :: 0 <= i < |pre| ==> pre[i].end < lo)
    && (forall i :: 0 <= i < |hit| ==> hit[i].start <= hi && lo <= hit[i].end)
  }

  // `pre` lies before the window, every range of `hit` meets it, and `post` lies after it.
  ghost predicate Cut(pre: seq<MemoryRange>, hit: seq<MemoryRange>, post: seq<MemoryRange>, lo: int, hi: int) {
    && Sweep(pre, hit, post, lo, hi)
    && (forall i :: 0 <= i < |post| ==> hi < post[i].start)
  }

  lemma SweepStart(rs: seq<MemoryRange>, lo: int, hi: int) returns (it: nat)
    requires WellFormed(rs)
    ensures it == if LowerBound(rs, lo) == 0 then 0 else LowerBound(rs, lo) - 1
    ensures it <= |rs| && rs[..it] + rs[it..] == rs && Sweep(rs[..it], [], rs[it..], lo, hi)
  {
    hide UpperBound;
    it := LowerBound(rs, lo);
    if it > 0 {
      it := it - 1;
      assert rs[it].start < lo;
      forall i | 0 <= i < it
        ensures rs[i].end < lo
      {
        assert rs[i].end < rs[it].start;
      }
    }
    WellFormedSplit(rs, it);
  }

  lemma SweepSkip(pre: seq<MemoryRange>, hit: seq<MemoryRange>, post: seq<MemoryRange>, lo: int, hi: int)
    requires Sweep(pre, hit, post, lo, hi)
    requires post != [] && post[0].end < lo
    ensures hit == [] && Sweep(pre + [post[0]], [], post[1..], lo, hi)
  {
    LastBelow(hit, post);
  }

  lemma PiecesGrow(hit: seq<MemoryRange>, r: MemoryRange, lo: uint64, hi: uint64)
    requires hit != [] ==> hit[|hit| - 1].end < r.start <= hi && lo <= hit[|hit| - 1].end
    ensures LeftPiece(hit + [r], lo) + RightPiece(hit + [r], hi) ==
            LeftPiece(hit, lo) + RightPiece(hit, hi) + LeftPiece([r], lo) + RightPiece([r], hi)
  {
    assert hit != [] ==> (hit + [r])[0] == hit[0];
  }

  lemma LastBelow(a: seq<MemoryRange>, b: seq<MemoryRange>)
    requires Below(a, b) && b != []
    ensures a != [] ==> a[|a| - 1].end < b[0].start
  {
  }

  lemma WellFormedSplit(rs: seq<MemoryRange>, k: nat)
    requires WellFormed(rs) && k <= |rs|
    ensures WellFormed(rs[..k]) && WellFormed(rs[k..]) && Below(rs[..k], rs[k..])
    ensures rs[..k] + rs[k..] == rs
  {
  }

  // The three ways the erase loop's bookkeeping moves the range at the front of `post`.
  lemma MoveFront(pre: seq<MemoryRange>, hit: seq<MemoryRange>, post: seq<MemoryRange>)
    requires post != []
    ensures (pre + post)[|pre|] == post[0]
    ensures (pre + post)[..|pre|] + (pre + post)[|pre| + 1..] == pre + post[1..]
    ensures (pre + [post[0]]) + post[1..] == pre + post
    ensures hit == [] ==> (pre + [post[0]]) + hit + post[1..] == pre + hit + post
    ensures pre + (hit + [post[0]]) + post[1..] == pre + hit + post
  {
  }

  lemma SweepHit(pre: seq<MemoryRange>, hit: seq<MemoryRange>, post: seq<MemoryRange>, lo: uint64, hi: uint64)
    requires Sweep(pre, hit, post, lo, hi)
    requires post != [] && post[0].start <= hi && lo <= post[0].end
    ensures Sweep(pre, hit + [post[0]], post[1..], lo, hi)
    ensures LeftPiece(hit + [post[0]], lo) + RightPiece(hit + [post[0]], hi) ==
            LeftPiece(hit, lo) + RightPiece(hit, hi) + LeftPiece([post[0]], lo) + RightPiece([post[0]], hi)
  {
    LastBelow(hit, post);
    PiecesGrow(hit, post[0], lo, hi);
    hide LeftPiece, RightPiece;
    assert post == [post[0]] + post[1..];
  }

  lemma SweepDone(pre: seq<MemoryRange>, hit: seq<MemoryRange>, post: seq<MemoryRange>, lo: int, hi: int)
    requires Sweep(pre, hit, post, lo, hi)
    requires post != [] ==> hi < post[0].start
    ensures Cut(pre, hit, post, lo, hi)
  {
    assert forall i :: 0 < i < |post| ==> post[0].end < post[i].start;
  }

  // After erasing `hit`, the pieces and the new range can be inserted one by one.
  lemma PiecesFit(pre: seq<MemoryRange>, hit: seq<MemoryRange>, post: seq<MemoryRange>, lo: uint64, hi: uint64)
    requires lo <= hi && Cut(pre, hit, post, lo, hi)
    ensures WellFormed(pre + post)
    ensures forall p, s :: p in LeftPiece(hit, lo) + RightPiece(hit, hi) && s in pre + post ==> Apart(p, s)
    ensures forall p :: p in LeftPiece(hit, lo) + RightPiece(hit, hi) ==>
              p.start <= p.end && (p.end < lo || hi < p.start)
    ensures forall s :: s in pre + post ==> s.end < lo || hi < s.start
  {
  }

  // The mode outside the window, by where the address lies.
  ghost function Outside(pre: seq<MemoryRange>, hit: seq<MemoryRange>, post: seq<MemoryRange>, lo: uint64, hi: uint64,
                         a: int): Option<AccessMode>
  {
    var l, r := LeftPiece(hit, lo), RightPiece(hit, hi);
    if r != [] && Contains(r[0], a) then Some(r[0].mode)
    else if l != [] && Contains(l[0], a) then Some(l[0].mode)
    else Stored(pre + post, a)
  }

  lemma StoredConcat(x: seq<MemoryRange>, y: seq<MemoryRange>, a: int)
    requires WellFormed(x) && WellFormed(y) && WellFormed(x + y)
    ensures Stored(x + y, a) == if Stored(x, a).Some? then Stored(x, a) else Stored(y, a)
  {
    var z := x + y;
    if i :| 0 <= i < |x| && Contains(x[i], a) {
      assert z[i] == x[i];
      StoredAt(z, i, a);
      StoredAt(x, i, a);
    } else if i :| 0 <= i < |y| && Contains(y[i], a) {
      assert z[|x| + i] == y[i];
      StoredAt(z, |x| + i, a);
      StoredAt(y, i, a);
    } else {
      assert forall i :: 0 <= i < |z| ==> z[i] == if i < |x| then x[i] else y[i - |x|];
    }
  }

  // Outside the window only the cut pieces of the ranges that meet it remain.
  lemma HitOutside(hit: seq<MemoryRange>, lo: uint64, hi: uint64, a: int)
    requires lo <= hi && WellFormed(hit) && !(lo <= a <= hi)
    requires forall i :: 0 <= i < |hit| ==> hit[i].start <= hi && lo <= hit[i].end
    ensures var l, r := LeftPiece(hit, lo), RightPiece(hit, hi);
            Stored(hit, a) == if r != [] && Contains(r[0], a) then Some(r[0].mode)
                              else if l != [] && Contains(l[0], a) then Some(l[0].mode)
                              else None
  {
    if i :| 0 <= i < |hit| && Contains(hit[i], a) {
      StoredAt(hit, i, a);
      assert i > 0 ==> hit[0].end < hit[i].start;
      assert i < |hit| - 1 ==> hit[i].end < hit[|hit| - 1].start;
    }
  }

  lemma WellFormedConcat(x: seq<MemoryRange>, y: seq<MemoryRange>)
    requires WellFormed(x) && WellFormed(y) && Below(x, y)
    ensures WellFormed(x + y)
  {
  }

  lemma BelowConcat(x: seq<MemoryRange>, y: seq<MemoryRange>, z: seq<MemoryRange>)
    requires Below(x, z) && Below(y, z)
    ensures Below(x + y, z)
  {
  }

  lemma NoneStored(x: seq<MemoryRange>, a: int)
    requires forall i :: 0 <= i < |x| ==> !Contains(x[i], a)
    ensures Stored(x, a) == None
  {
  }

  lemma OutsideKept(pre: seq<MemoryRange>, hit: seq<MemoryRange>, post: seq<MemoryRange>, lo: uint64, hi: uint64,
                    a: int)
    requires lo <= hi && Cut(pre, hit, post, lo, hi)
    requires !(lo <= a <= hi)
    ensures Outside(pre, hit, post, lo, hi, a) == Stored(pre + hit + post, a)
  {
    BelowConcat(pre, hit, post);
    WellFormedConcat(pre, hit);
    WellFormedConcat(pre + hit, post);
    WellFormedConcat(pre, post);
    StoredConcat(pre + hit, post, a);
    StoredConcat(pre, hit, a);
    StoredConcat(pre, post, a);
    HitOutside(hit, lo, hi, a);
    if Stored(hit, a).Some? {
      var i :| 0 <= i < |hit| && Contains(hit[i], a);
      NoneStored(pre, a);
    }
  }

  function PiecesAndNew(hit: seq<MemoryRange>, lo: uint64, hi: uint64, mode: AccessMode): seq<MemoryRange> {
    LeftPiece(hit, lo) + RightPiece(hit, hi) + [MemoryRange(lo, hi, mode)]
  }

  // Inserting ranges that are apart from each other and from what is stored adds them all.
  lemma {:induction false} InsertAllApart(rs: seq<MemoryRange>, toAdd: seq<MemoryRange>)
    requires WellFormed(rs)
    requires forall p :: p in toAdd ==> p.start <= p.end
    requires forall p, s :: p in toAdd && s in rs ==> Apart(p, s)
    requires forall i, j :: 0 <= i < j < |toAdd| ==> Apart(toAdd[i], toAdd[j])
    ensures WellFormed(InsertAll(rs, toAdd))
    ensures forall a: int :: Stored(InsertAll(rs, toAdd), a) ==
              if Stored(toAdd, a).Some? then Stored(toAdd, a) else Stored(rs, a)
    decreases |toAdd|
  {
    hide Insert, WellFormed, Stored;
    if toAdd == [] {
      forall a: int
        ensures Stored(toAdd, a) == None
      {
        NoneStored(toAdd, a);
      }
    } else {
      var p, rest := toAdd[0], toAdd[1..];
      assert toAdd == [p] + rest;
      InsertApart(rs, p);
      RestApart(rs, p, rest);
      InsertAllApart(Insert(rs, p), rest);
      forall a: int
        ensures Stored(InsertAll(rs, toAdd), a) == if Stored(toAdd, a).Some? then Stored(toAdd, a) else Stored(rs, a)
      {
        StoredFirst(p, rest, a);
        assert Stored(InsertAll(Insert(rs, p), rest), a) ==
               if Stored(rest, a).Some? then Stored(rest, a) else Stored(Insert(rs, p), a);
        NotBoth(p, rest, a);
      }
    }
  }

  lemma NotBoth(p: MemoryRange, rest: seq<MemoryRange>, a: int)
    requires forall i :: 0 <= i < |rest| ==> Apart(p, rest[i])
    ensures Contains(p, a) ==> Stored(rest, a) == None
  {
    if Contains(p, a) {
      NoneStored(rest, a);
    }
  }

  lemma RestApart(rs: seq<MemoryRange>, p: MemoryRange, rest: seq<MemoryRange>)
    requires forall q, s :: q in [p] + rest && s in rs ==> Apart(q, s)
    requires forall i, j :: 0 <= i < j < |[p] + rest| ==> Apart(([p] + rest)[i], ([p] + rest)[j])
    requires forall s :: s in Insert(rs, p) <==> s in rs || s == p
    ensures forall q, s :: q in rest && s in Insert(rs, p) ==> Apart(q, s)
    ensures forall i :: 0 <= i < |rest| ==> Apart(p, rest[i])
    ensures forall i, j :: 0 <= i < j < |rest| ==> Apart(rest[i], rest[j])
  {
    hide Insert;
    var t := [p] + rest;
    forall i | 0 <= i < |rest|
      ensures Apart(p, rest[i])
    {
      assert Apart(t[0], t[i + 1]);
    }
    forall i, j | 0 <= i < j < |rest|
      ensures Apart(rest[i], rest[j])
    {
      assert Apart(t[i + 1], t[j + 1]);
    }
    forall q | q in rest
      ensures q in t
    {
    }
  }

  lemma StoredFirst(p: MemoryRange, rest: seq<MemoryRange>, a: int)
    requires forall i :: 0 <= i < |rest| ==> Apart(p, rest[i])
    requires forall i, j :: 0 <= i < j < |rest| ==> Apart(rest[i], rest[j])
    ensures Stored([p] + rest, a) == if Contains(p, a) then Some(p.mode) else Stored(rest, a)
  {
    var t := [p] + rest;
    assert t[0] == p;
    assert forall i :: 0 <= i < |rest| ==> t[i + 1] == rest[i];
    assert forall i :: 1 <= i < |t| ==> t[i] == rest[i - 1];
  }

  // addRange's net effect: the window gets the new mode and nothing else changes.
  lemma ReplacedWindow(pre: seq<MemoryRange>, hit: seq<MemoryRange>, post: seq<MemoryRange>,
                       lo: uint64, hi: uint64, mode: AccessMode)
    requires lo <= hi && Cut(pre, hit, post, lo, hi)
    ensures var rs := InsertAll(pre + post, PiecesAndNew(hit, lo, hi, mode));
            && WellFormed(rs)
            && forall a: int :: Stored(rs, a) == if lo <= a <= hi then Some(mode) else Stored(pre + hit + post, a)
  {
    var toAdd := PiecesAndNew(hit, lo, hi, mode);
    PiecesFit(pre, hit, post, lo, hi);
    InsertAllApart(pre + post, toAdd);
    hide InsertAll, Cut;
    forall a: int
      ensures Stored(InsertAll(pre + post, toAdd), a) ==
                if lo <= a <= hi then Some(mode) else Stored(pre + hit + post, a)
    {
      PiecesStored(hit, lo, hi, mode, a);
      if lo <= a <= hi {
      } else {
        OutsideKept(pre, hit, post, lo, hi, a);
      }
    }
  }

  lemma PiecesStored(hit: seq<MemoryRange>, lo: uint64, hi: uint64, mode: AccessMode, a: int)
    requires lo <= hi
    ensures var l, r := LeftPiece(hit, lo), RightPiece(hit, hi);
            Stored(PiecesAndNew(hit, lo, hi, mode), a) ==
              if lo <= a <= hi then Some(mode)
              else if r != [] && Contains(r[0], a) then Some(r[0].mode)
              else if l != [] && Contains(l[0], a) then Some(l[0].mode)
              else None
  {
    var l, r, n := LeftPiece(hit, lo), RightPiece(hit, hi), MemoryRange(lo, hi, mode);
    var t := PiecesAndNew(hit, lo, hi, mode);
    assert l != [] ==> t[0] == l[0];
    assert r != [] ==> t[|l|] == r[0];
    assert t[|l| + |r|] == n;
  }

  function InsertAll(rs: seq<MemoryRange>, toAdd: seq<MemoryRange>): seq<MemoryRange>
    decreases |toAdd|
  {
    if toAdd == [] then rs else InsertAll(Insert(rs, toAdd[0]), toAdd[1..])
  }
}

/** What a history of policy updates means for one address. */
module PolicyHistory {
  import opened Ints
  import opened Wrappers
  import opened RangeSet

  datatype Update =
    | AddRange(start: uint64, end: uint64, mode: AccessMode)
    | SetDefault(mode: AccessMode)

  // The bounds of a range may be given in either order.
  predicate Covers(u: Update, a: int) {
    u.AddRange? && (u.start <= a <= u.end || u.end <= a <= u.start)
  }

  // The mode of the latest added range that covers a.
  function LatestCover(h: seq<Update>, a: int): Option<AccessMode> {
    if h == [] then None
    else if Covers(h[|h| - 1], a) then Some(h[|h| - 1].mode)
    else LatestCover(h[..|h| - 1], a)
  }

  function LatestDefault(h: seq<Update>): AccessMode {
    if h == [] then SYMBOLIC
    else if h[|h| - 1].SetDefault? then h[|h| - 1].mode
    else LatestDefault(h[..|h| - 1])
  }

  function ModeAfter(h: seq<Update>, a: int): AccessMode {
    match LatestCover(h, a)
    case Some(m) => m
    case None => LatestDefault(h)
  }

  // One more range overrides exactly its own addresses, and no default.
  lemma CoverGrows(h: seq<Update>, start: uint64, end: uint64, mode: AccessMode)
    ensures var h' := h + [AddRange(start, end, mode)];
            && LatestDefault(h') == LatestDefault(h)
            && forall a: int :: LatestCover(h', a) ==
                 if start <= a <= end || end <= a <= start then Some(mode) else LatestCover(h, a)
  {
    var h' := h + [AddRange(start, end, mode)];
    assert h'[..|h'| - 1] == h;
  }

  // An added range decides its addresses until a later range covers them.
  lemma {:induction false} LatestCoverWins(h: seq<Update>, k: nat, a: int)
    requires k < |h| && Covers(h[k], a)
    requires forall j :: k < j < |h| ==> !Covers(h[j], a)
    ensures LatestCover(h, a) == Some(h[k].mode) && ModeAfter(h, a) == h[k].mode
  {
    if k < |h| - 1 {
      LatestCoverWins(h[..|h| - 1], k, a);
    }
  }

  // The last default that was set is in effect, and symbolic before any was.
  lemma {:induction false} LatestDefaultWins(h: seq<Update>, k: nat)
    requires k <= |h| && forall j :: k <= j < |h| ==> !h[j].SetDefault?
    ensures k == 0 ==> LatestDefault(h) == SYMBOLIC
    ensures k > 0 && h[k - 1].SetDefault? ==> LatestDefault(h) == h[k - 1].mode
  {
    if k < |h| {
      LatestDefaultWins(h[..|h| - 1], k);
    }
  }

  // An address that was never covered has the latest default mode.
  lemma {:induction false} UncoveredIsDefault(h: seq<Update>, a: int)
    requires forall j :: 0 <= j < |h| ==> !Covers(h[j], a)
    ensures ModeAfter(h, a) == LatestDefault(h)
    ensures LatestCover(h, a) == None
  {
    if h != [] {
      UncoveredIsDefault(h[..|h| - 1], a);
    }
  }
}

/** MemoryPolicyDynamic: the ranges and default mode, updated in place. */
module MemoryPolicy {
  import opened Ints
  import opened Wrappers
  import opened RangeSet
  import opened PolicyHistory
  import opened Coverage

  class MemoryPolicyDynamic {
    var range: seq<MemoryRange>
    var defaultMode: AccessMode
    ghost var history: seq<Update>

    ghost predicate Valid()
      reads this
    {
      && WellFormed(range)
      && defaultMode == LatestDefault(history)
      && forall a: int :: Stored(range, a) == LatestCover(history, a)
    }

    constructor ()
      ensures Valid() && history == [] && range == []
    {
      range := [];
      defaultMode := SYMBOLIC;
      history := [];
    }

    method SetDefaultMode(mode: AccessMode)
      requires Valid()
      modifies this
      ensures Valid() && history == old(history) + [SetDefault(mode)]
      ensures defaultMode == mode && range == old(range)
    {
      defaultMode := mode;
      history := history + [SetDefault(mode)];
    }

    // Step 1 of addRange: erase every range that meets [start, end], keeping the cut-off pieces.
    method EraseOverlaps(start: uint64, end: uint64)
      returns (toAdd: seq<MemoryRange>,
               ghost pre: seq<MemoryRange>, ghost hit: seq<MemoryRange>, ghost post: seq<MemoryRange>)
      requires WellFormed(range) && start <= end
      modifies `range
      ensures Cut(pre, hit, post, start, end)
      ensures old(range) == pre + hit + post && range == pre + post
      ensures toAdd == LeftPiece(hit, start) + RightPiece(hit, end)
    {
      hide Cut, Sweep, WellFormed, LowerBound, UpperBound, LeftPiece, RightPiece;
      ghost var k := SweepStart(range, start, end);
      NoPieces(start, end);
      var it: nat := LowerBound(range, start);
      if it != 0 {
        it := it - 1;
      }
      toAdd := [];
      pre, hit, post := range[..it], [], range[it..];
      while it < |range| && range[it].start <= end
        invariant it == |pre| && range == pre + post && old(range) == pre + hit + post
        invariant Sweep(pre, hit, post, start, end)
        invariant toAdd == LeftPiece(hit, start) + RightPiece(hit, end)
        decreases |post|
      {
        MoveFront(pre, hit, post);
        var r := range[it];
        if r.end < start {
          SweepSkip(pre, hit, post, start, end);
          pre, post := pre + [r], post[1..];
          it := it + 1;
          continue;
        }
        SweepHit(pre, hit, post, start, end);
        PiecesOf(r, start, end);
        if r.start < start {
          toAdd := toAdd + [MemoryRange(r.start, start - 1, r.mode)];
        }
        if r.end > end {
          toAdd := toAdd + [MemoryRange(end + 1, r.end, r.mode)];
        }
        range := range[..it] + range[it + 1..];
        hit, post := hit + [r], post[1..];
      }
      if post != [] {
        MoveFront(pre, hit, post);
      }
      SweepDone(pre, hit, post, start, end);
    }

    method AddRangeMode(start0: uint64, end0: uint64, mode: AccessMode)
      requires Valid()
      modifies this
      ensures Valid() && history == old(history) + [AddRange(start0, end0, mode)]
      ensures defaultMode == old(defaultMode)
      ensures forall a: int :: Stored(range, a) ==
                if start0 <= a <= end0 || end0 <= a <= start0 then Some(mode) else Stored(old(range), a)
    {
      hide Cut, InsertAll, Stored, WellFormed, LeftPiece, RightPiece;
      var start, end := start0, end0;
      if start > end {
        start, end := end, start;
      }
      var toAdd, pre, hit, post := EraseOverlaps(start, end);
      toAdd := toAdd + [MemoryRange(start, end, mode)];
      ReplacedWindow(pre, hit, post, start, end, mode);
      InsertRanges(toAdd);
      CoverGrows(history, start0, end0, mode);
      hide LatestCover, LatestDefault;
      history := history + [AddRange(start0, end0, mode)];
    }

    // Step 2 of addRange.
    method InsertRanges(toAdd: seq<MemoryRange>)
      modifies `range
      ensures range == InsertAll(old(range), toAdd)
    {
      ghost var result := InsertAll(range, toAdd);
      for k := 0 to |toAdd|
        invariant InsertAll(range, toAdd[k..]) == result
      {
        range := Insert(range, toAdd[k]);
        assert toAdd[k..][1..] == toAdd[k + 1..];
      }
    }

    // getAccessMode
    method GetAccessMode(address: uint64) returns (mode: AccessMode)
      requires Valid()
      ensures mode == ModeAfter(history, address)
    {
      var it := UpperBound(range, address);
      if it != 0 {
        it := it - 1;
        if address >= range[it].start && address <= range[it].end {
          StoredAt(range, it, address);
          return range[it].mode;
        }
      }
      NoneStored(range, address);
      return defaultMode;
    }

    // isRangeFullyCovered, for the queries on which its loop ends (Coverage.DivergesExactly says
    // which do not).
    method IsRangeFullyCovered(start0: uint64, end0: uint64, mode: AccessMode) returns (covered: bool)
      requires Valid()
      requires !Diverges(range, defaultMode, if start0 <= end0 then start0 else end0,
                         if start0 <= end0 then end0 else start0, mode)
      ensures var lo, hi := if start0 <= end0 then start0 else end0, if start0 <= end0 then end0 else start0;
              covered <==>
                && (forall a: int :: lo <= a <= hi ==> ModeAfter(history, a) == mode)
                && !StaleNeighbour(range, lo, mode)
                && !WrapsToDefault(range, defaultMode, hi, mode)
    {
      hide WellFormed, Good, Diverges, StaleNeighbour, WrapsToDefault, Stored, FullyCovered;
      var start, end := start0, end0;
      if start > end {
        start, end := end, start;
      }
      var cursor: uint64 := start;
      var it: nat := UpperBound(range, start);
      if it != 0 {
        it := it - 1;
      }
      StartIsGood(range, defaultMode, start, end, mode);
      while cursor <= end
        invariant Good(range, defaultMode, start, end, mode, Running(cursor, it))
        decreases |range| - it, end + 1 - cursor
      {
        StepIsGood(range, defaultMode, start, end, mode, Running(cursor, it));
        StepDescends(range, defaultMode, start, end, mode, cursor, it);
        if it == |range| || range[it].start > cursor {
          var gapEnd: uint64 := if it != |range| && range[it].start - 1 < end then range[it].start - 1 else end;
          if defaultMode != mode {
            AnswerMeans(range, defaultMode, start, end, mode, false);
            return false;
          }
          cursor := Next(gapEnd);
          continue;
        }
        if range[it].mode != mode {
          AnswerMeans(range, defaultMode, start, end, mode, false);
          return false;
        }
        if range[it].start > cursor {
          return false;
        }
        cursor := Next(range[it].end);
        it := it + 1;
      }
      StepIsGood(range, defaultMode, start, end, mode, Running(cursor, it));
      AnswerMeans(range, defaultMode, start, end, mode, true);
      return true;
    }

    lemma AnswerMeans(rs: seq<MemoryRange>, dm: AccessMode, lo: uint64, hi: uint64, mode: AccessMode, b: bool)
      requires Valid() && rs == range && dm == defaultMode
      requires Good(rs, dm, lo, hi, mode, Answer(b))
      ensures b <==> && (forall a: int :: lo <= a <= hi ==> ModeAfter(history, a) == mode)
                     && !StaleNeighbour(rs, lo, mode)
                     && !WrapsToDefault(rs, dm, hi, mode)
    {
      forall a: int
        ensures ModeAfter(history, a) == ModeAt(rs, dm, a)
      {
      }
    }
  }
}
