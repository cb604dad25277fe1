/** markMemPaged and isMemPaged of lifter/lifterClass.hpp: half-open pages in an ordered map keyed
    by start. */
module PageMap {
  import opened Ints
  import SortedSeq

  datatype Page = Page(start: int64, end: int64)

  predicate Holds(p: Page, a: int) {
    p.start <= a < p.end
  }

  ghost predicate Ascending(ps: seq<Page>) {
    forall i, j :: 0 <= i < j < |ps| ==> ps[i].start < ps[j].start
  }

  // std::map::upper_bound
  function UpperBound(ps: seq<Page>, a: int): (k: nat)
    ensures k <= |ps|
    ensures k > 0 ==> ps[k - 1].start <= a
    ensures forall i :: k <= i < |ps| ==> a < ps[i].start
  {
    SortedSeq.UpperBound((p: Page) => p.start, ps, a)
  }

  // std::map::operator[] assignment: one entry a start.
  function Assign(ps: seq<Page>, p: Page): seq<Page> {
    var k := UpperBound(ps, p.start);
    if k > 0 && ps[k - 1].start == p.start then ps[k - 1 := p] else ps[..k] + [p] + ps[k..]
  }

  lemma InsertIsUpdate(pre: seq<Page>, p: Page, post: seq<Page>)
    requires Ascending(pre + post)
    requires forall q :: q in pre ==> q.start < p.start
    requires forall q :: q in post ==> p.start < q.start
    ensures Ascending(pre + [p] + post)
    ensures forall q :: q in pre + [p] + post <==> q == p || (q in pre + post && q.start != p.start)
  {
    var t, u := pre + [p] + post, pre + post;
    forall i, j | 0 <= i < j < |t|
      ensures t[i].start < t[j].start
    {
      var i', j' := if i < |pre| then i else i - 1, if j < |pre| then j else j - 1;
      assert i != |pre| ==> t[i] == u[i'];
      assert j != |pre| ==> t[j] == u[j'];
      assert i == |pre| ==> t[j] in post;
      assert j == |pre| ==> t[i] in pre;
    }
  }

  lemma ReplaceIsUpdate(ps: seq<Page>, k: nat, p: Page)
    requires Ascending(ps) && k < |ps| && ps[k].start == p.start
    ensures Ascending(ps[k := p])
    ensures forall q :: q in ps[k := p] <==> q == p || (q in ps && q.start != p.start)
  {
    var t := ps[k := p];
    assert t[k] == p;
    forall q | q in ps && q.start != p.start
      ensures q in t
    {
      var i :| 0 <= i < |ps| && ps[i] == q;
      assert t[i] == q;
    }
    forall q | q in t && q != p
      ensures q in ps && q.start != p.start
    {
      var i :| 0 <= i < |t| && t[i] == q;
      assert ps[i] == q && i != k;
    }
  }

  // Assignment replaces the entry with the same start, if any, and keeps all others.
  lemma AssignIsUpdate(ps: seq<Page>, p: Page)
    requires Ascending(ps)
    ensures Ascending(Assign(ps, p))
    ensures forall q :: q in Assign(ps, p) <==> q == p || (q in ps && q.start != p.start)
  {
    hide UpperBound, Ascending;
    var k := UpperBound(ps, p.start);
    if k > 0 && ps[k - 1].start == p.start {
      ReplaceIsUpdate(ps, k - 1, p);
    } else {
      assert Assign(ps, p) == ps[..k] + [p] + ps[k..];
      hide Assign;
      BoundSplits(ps, p.start);
      InsertIsUpdate(ps[..k], p, ps[k..]);
    }
  }

  lemma BoundSplits(ps: seq<Page>, a: int)
    requires Ascending(ps)
    ensures var k := UpperBound(ps, a);
            && ps == ps[..k] + ps[k..]
            && (k == 0 || ps[k - 1].start != a ==> forall q :: q in ps[..k] ==> q.start < a)
            && (forall q :: q in ps[k..] ==> a < q.start)
  {
    hide UpperBound, Ascending;
    var k := UpperBound(ps, a);
    forall q | q in ps[..k] && (k == 0 || ps[k - 1].start != a)
      ensures q.start < a
    {
      var i :| 0 <= i < k && ps[..k][i] == q;
      BeforeBound(ps, a, i);
    }
    forall q | q in ps[k..]
      ensures a < q.start
    {
      var i :| 0 <= i < |ps| - k && ps[k..][i] == q;
      assert ps[k + i] == q;
    }
  }

  lemma BeforeBound(ps: seq<Page>, a: int, i: nat)
    requires Ascending(ps) && i < UpperBound(ps, a) && ps[UpperBound(ps, a) - 1].start != a
    ensures ps[i].start < a
  {
    hide UpperBound;
    var k := UpperBound(ps, a);
    assert i < k - 1 ==> ps[i].start < ps[k - 1].start;
  }

  // The latest mark with its start.
  ghost predicate Current(marks: seq<Page>, p: Page) {
    exists k :: 0 <= k < |marks| && marks[k] == p && forall j :: k < j < |marks| ==> marks[j].start != p.start
  }

  lemma CurrentAfter(marks: seq<Page>, p: Page, q: Page)
    ensures Current(marks + [p], q) <==> q == p || (Current(marks, q) && q.start != p.start)
  {
    var m := marks + [p];
    if Current(marks, q) && q.start != p.start {
      var k :| 0 <= k < |marks| && marks[k] == q && forall j :: k < j < |marks| ==> marks[j].start != q.start;
      assert m[k] == q;
    }
    if q == p {
      assert m[|marks|] == q;
    }
    if Current(m, q) && q != p {
      var k :| 0 <= k < |m| && m[k] == q && forall j :: k < j < |m| ==> m[j].start != q.start;
      assert m[|marks|] == p && marks[k] == q;
      assert forall j :: k < j < |marks| ==> marks[j] == m[j];
    }
  }

  // A current page holds a and no current page starts between its start and a.
  ghost predicate Visible(marks: seq<Page>, p: Page, a: int) {
    && Current(marks, p) && Holds(p, a)
    && forall q :: Current(marks, q) && p.start < q.start ==> a < q.start
  }

  ghost predicate Separate(marks: seq<Page>) {
    && (forall i :: 0 <= i < |marks| ==> marks[i].start < marks[i].end)
    && (forall i, j :: 0 <= i < j < |marks| ==> marks[i].end <= marks[j].start || marks[j].end <= marks[i].start)
  }

  // Among separate marks every holder of an address is visible.
  lemma SeparateIsVisible(marks: seq<Page>, k: nat, a: int)
    requires Separate(marks) && k < |marks| && Holds(marks[k], a)
    ensures Visible(marks, marks[k], a)
  {
    forall q | Current(marks, q) && marks[k].start < q.start
      ensures a < q.start
    {
      var j :| 0 <= j < |marks| && marks[j] == q;
      assert j != k;
    }
    assert forall j :: k < j < |marks| ==> marks[j].start != marks[k].start;
  }

  // The entries of the map after these marks.
  function PagesAfter(marks: seq<Page>): seq<Page> {
    if marks == [] then [] else Assign(PagesAfter(marks[..|marks| - 1]), marks[|marks| - 1])
  }

  // ps holds exactly the current pages, in order.
  ghost predicate Tracks(ps: seq<Page>, marks: seq<Page>) {
    Ascending(ps) && forall q :: q in ps <==> Current(marks, q)
  }

  lemma TracksMore(ps: seq<Page>, marks: seq<Page>, p: Page)
    requires Tracks(ps, marks)
    ensures Tracks(Assign(ps, p), marks + [p])
  {
    hide Assign, Current, Ascending;
    AssignIsUpdate(ps, p);
    forall q
      ensures Current(marks + [p], q) <==> q == p || (Current(marks, q) && q.start != p.start)
    {
      CurrentAfter(marks, p, q);
    }
  }

  lemma {:induction false} PagesAreCurrent(marks: seq<Page>)
    ensures Tracks(PagesAfter(marks), marks)
    decreases |marks|
  {
    if marks != [] {
      hide Tracks, Assign;
      var init, p := marks[..|marks| - 1], marks[|marks| - 1];
      PagesAreCurrent(init);
      TracksMore(PagesAfter(init), init, p);
      assert marks == init + [p];
    }
  }

  function Last(q: Page): int {
    if q.start < q.end then q.end else q.start
  }

  // q starts inside p and ends before p does, and no later page takes over where q ends.
  ghost predicate Nest(marks: seq<Page>, p: Page, q: Page) {
    && Current(marks, p) && Current(marks, q)
    && p.start < q.start < p.end && q.end < p.end
    && forall r :: Current(marks, r) && q.start < r.start ==> Last(q) < r.start
  }

  ghost predicate Paged(marks: seq<Page>, a: int) {
    exists p :: Visible(marks, p, a)
  }

  ghost predicate Held(marks: seq<Page>, a: int) {
    exists p :: Current(marks, p) && Holds(p, a)
  }

  lemma CurrentIsUnique(marks: seq<Page>, p: Page, q: Page)
    requires Current(marks, p) && Current(marks, q) && p.start == q.start
    ensures p == q
  {
  }

  // The address where q ends is held by p, but the lookup stops at q.
  lemma NestMisleads(marks: seq<Page>, p: Page, q: Page)
    requires Nest(marks, p, q)
    ensures Held(marks, Last(q)) && !Paged(marks, Last(q))
  {
    hide Current;
    var a := Last(q);
    assert Current(marks, p) && Holds(p, a);
    forall r
      ensures !Visible(marks, r, a)
    {
      if Visible(marks, r, a) && r.start == q.start {
        CurrentIsUnique(marks, r, q);
      }
    }
  }

  // An address that a page holds and the lookup misses comes from a nest.
  lemma MissIsNest(marks: seq<Page>, p: Page, a: int) returns (q: Page)
    requires Current(marks, p) && Holds(p, a) && !Paged(marks, a)
    ensures Nest(marks, p, q)
  {
    PagesAreCurrent(marks);
    hide Current, PagesAfter;
    var ps := PagesAfter(marks);
    assert p in ps;
    var k := UpperBound(ps, a);
    assert k > 0;
    q := ps[k - 1];
    assert q in ps;
    forall r | Current(marks, r) && q.start < r.start
      ensures a < r.start
    {
      var i :| 0 <= i < |ps| && ps[i] == r;
    }
    assert !Visible(marks, q, a);
    if p.start == q.start {
      CurrentIsUnique(marks, p, q);
    }
  }

  // The lookup finds every held address exactly when no page nests in another.
  lemma PagedIffNoNest(marks: seq<Page>)
    ensures (forall a: int :: Paged(marks, a) <==> Held(marks, a)) <==> !exists p, q :: Nest(marks, p, q)
  {
    hide Current, Nest;
    if p, q :| Nest(marks, p, q) {
      NestMisleads(marks, p, q);
    } else {
      forall a: int
        ensures Paged(marks, a) <==> Held(marks, a)
      {
        if p :| Current(marks, p) && Holds(p, a) && !Paged(marks, a) {
          var q := MissIsNest(marks, p, a);
        }
      }
    }
  }

  // The candidate before the upper bound holds the address exactly when some page is visible there.
  lemma LookupFinds(ps: seq<Page>, marks: seq<Page>, a: int)
    requires Tracks(ps, marks)
    ensures var k := UpperBound(ps, a); (k > 0 && Holds(ps[k - 1], a)) <==> Paged(marks, a)
  {
    hide Current, UpperBound;
    var k := UpperBound(ps, a);
    forall p | Visible(marks, p, a)
      ensures k > 0 && ps[k - 1] == p
    {
      var i :| 0 <= i < |ps| && ps[i] == p;
      assert ps[k - 1] in ps;
    }
    if k > 0 && Holds(ps[k - 1], a) {
      var p := ps[k - 1];
      assert p in ps;
      forall q | Current(marks, q) && p.start < q.start
        ensures a < q.start
      {
        var j :| 0 <= j < |ps| && ps[j] == q;
      }
      assert Visible(marks, p, a);
    }
  }

  lemma AnswerMeans(marks: seq<Page>, a: int, paged: bool)
    requires paged <==> Paged(marks, a)
    ensures (forall p, q :: !Nest(marks, p, q)) ==> (paged <==> Held(marks, a))
    ensures Separate(marks) && paged ==> exists k :: 0 <= k < |marks| && marks[k].start <= a < marks[k].end
    ensures Separate(marks) && !paged ==> forall k :: 0 <= k < |marks| ==> !(marks[k].start <= a < marks[k].end)
  {
    hide Nest, Separate, Current, Visible;
    if Separate(marks) {
      MarksDecide(marks, a, paged);
    }
    hide Paged, Held;
    PagedIffNoNest(marks);
  }

  class PageTable {
    var pageMap: seq<Page>
    ghost var marks: seq<Page>

    ghost predicate Valid()
      reads this
    {
      Tracks(pageMap, marks)
    }

    constructor ()
      ensures Valid() && marks == []
    {
      pageMap, marks := [], [];
    }

    method MarkMemPaged(start: int64, end: int64)
      requires Valid()
      modifies this
      ensures Valid() && marks == old(marks) + [Page(start, end)]
    {
      var p := Page(start, end);
      TracksMore(pageMap, marks, p);
      hide Tracks, Assign;
      pageMap := Assign(pageMap, p);
      marks := marks + [p];
    }

    // True exactly when a visible page holds the address; for separate marks, exactly when any
    // mark does.
    method IsMemPaged(address: int64) returns (paged: bool)
      requires Valid()
      ensures paged <==> Paged(marks, address)
      ensures (forall p, q :: !Nest(marks, p, q)) ==> (paged <==> Held(marks, address))
      ensures Separate(marks) && paged ==> exists k :: 0 <= k < |marks| && marks[k].start <= address < marks[k].end
      ensures Separate(marks) && !paged ==>
                forall k :: 0 <= k < |marks| ==> !(marks[k].start <= address < marks[k].end)
    {
      LookupFinds(pageMap, marks, address);
      hide Nest, Held, Paged, Visible, Separate, Tracks, UpperBound, Current, Ascending;
      paged := false;
      var it := UpperBound(pageMap, address);
      if it != 0 {
        it := it - 1;
        paged := address >= pageMap[it].start && address < pageMap[it].end;
      }
      AnswerMeans(marks, address, paged);
    }
  }

  lemma MarksDecide(marks: seq<Page>, a: int, paged: bool)
    requires Separate(marks)
    requires paged <==> Paged(marks, a)
    ensures paged <==> exists k :: 0 <= k < |marks| && marks[k].start <= a < marks[k].end
  {
    if k :| 0 <= k < |marks| && Holds(marks[k], a) {
      SeparateIsVisible(marks, k, a);
    }
    if p :| Visible(marks, p, a) {
      var k :| 0 <= k < |marks| && marks[k] == p;
    }
  }

  // A page marked inside another hides the outer page's tail: address 7 lies in a marked page.
  lemma NestedMarkHides()
    ensures var marks := [Page(0, 10), Page(2, 4)];
            Nest(marks, marks[0], marks[1]) && Held(marks, 7) && !Paged(marks, 7)
  {
    var marks := [Page(0, 10), Page(2, 4)];
    assert marks[0] == Page(0, 10) && marks[1] == Page(2, 4);
    assert Current(marks, marks[0]) && Current(marks, marks[1]);
    forall p
      ensures !Visible(marks, p, 7)
    {
      assert Current(marks, p) ==> p in marks;
    }
  }
}
