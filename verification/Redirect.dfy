/** The shape shared by the passes: scan a function, put a new instruction in front of another for
    every target, redirect the target's uses to it, and erase all targets at the end. */
module Redirect {
  import opened Ir
  import opened Rewrite

  // The ids defined by instructions of a kind.
  function Ids(code: seq<Ins>, kind: Ins -> bool): set<Id> {
    set k | 0 <= k < |code| && !code[k].Store? && kind(code[k]) :: code[k].id
  }

  function Any(): Ins -> bool {
    _ => true
  }

  // The position of an id's definition, or the length of the code.
  function FindDef(code: seq<Ins>, id: Id): (k: nat)
    ensures k <= |code|
    ensures k < |code| ==> Defines(code[k], id)
    ensures k == |code| ==> !DefinedIn(code, id)
    decreases |code|
  {
    if code == [] then 0
    else if Defines(code[0], id) then 0
    else
      var k := FindDef(code[1..], id);
      assert forall j :: 0 < j < |code| ==> code[j] == code[1..][j - 1];
      k + 1
  }

  // eraseFromParent
  function EraseDef(code: seq<Ins>, id: Id): seq<Ins> {
    var k := FindDef(code, id);
    if k == |code| then code else code[..k] + code[k + 1..]
  }

  function AtLeast(n: nat): Id -> bool {
    id => id >= n
  }

  function NewOrIn(n: nat, gone: set<Id>): Id -> bool {
    id => id >= n || id in gone
  }

  // ------------------------------------------------------------------ facts about one function

  lemma DefBeforeUse(code: seq<Ins>, l: nat, i: nat, x: Id)
    requires Ssa(code) && l < |code| && i < |code|
    requires Defines(code[l], x) && Uses(code[i], x)
    ensures i > l
  {
  }

  lemma IdBelow(code: seq<Ins>, n: nat, i: nat, id: Id)
    requires IdsBelow(code, n) && i < |code| && (Defines(code[i], id) || Uses(code[i], id))
    ensures id < n
  {
  }

  lemma IdsAreBelow(code: seq<Ins>, n: nat, kind: Ins -> bool)
    requires IdsBelow(code, n)
    ensures forall e :: e in Ids(code, kind) ==> e < n
  {
    forall e | e in Ids(code, kind)
      ensures e < n
    {
      var k :| 0 <= k < |code| && !code[k].Store? && kind(code[k]) && code[k].id == e;
      assert Defines(code[k], e);
    }
  }

  // An id defined by an instruction of one kind is not among the ids of another kind.
  lemma OneKind(code: seq<Ins>, i: nat, kind: Ins -> bool)
    requires Ssa(code) && i < |code| && !code[i].Store? && !kind(code[i])
    ensures code[i].id !in Ids(code, kind)
  {
    var d := code[i].id;
    assert Defines(code[i], d);
    forall k | 0 <= k < |code| && !code[k].Store? && kind(code[k])
      ensures code[k].id != d
    {
      assert Defines(code[k], code[k].id);
    }
  }

  lemma AnyIsDefined(code: seq<Ins>, id: Id)
    ensures id in Ids(code, Any()) <==> DefinedIn(code, id)
  {
  }

  lemma NoneOfKind(code: seq<Ins>, k: nat, kind: Ins -> bool)
    requires k < |code| && !code[k].Store? && Ids(code, kind) == {}
    ensures !kind(code[k])
  {
    var id := code[k].id;
    assert kind(code[k]) ==> id in Ids(code, kind);
  }

  lemma FoundKind(code: seq<Ins>, x: Id, kind: Ins -> bool)
    requires Ssa(code)
    ensures x in Ids(code, kind) <==> FindDef(code, x) < |code| && kind(code[FindDef(code, x)])
  {
    if x in Ids(code, kind) {
      var k :| 0 <= k < |code| && !code[k].Store? && kind(code[k]) && code[k].id == x;
      assert Defines(code[k], x);
    }
  }

  // ------------------------------------------------------------------ ids after a redirection

  // c is code with one instruction put in at l and operands changed within each kind.
  ghost predicate Grown(code: seq<Ins>, c: seq<Ins>, l: nat, kind: Ins -> bool) {
    && |c| == |code| + 1 && l < |c|
    && forall k :: 0 <= k < |code| ==> SameKind(code[k], c[if k < l then k else k + 1], kind)
  }

  predicate SameKind(a: Ins, b: Ins, kind: Ins -> bool) {
    a.Store? == b.Store? && (!a.Store? ==> a.id == b.id && kind(a) == kind(b))
  }

  lemma SameIds(code: seq<Ins>, c: seq<Ins>, l: nat, kind: Ins -> bool)
    requires Grown(code, c, l, kind) && !c[l].Store?
    ensures Ids(c, kind) == Ids(code, kind) + if kind(c[l]) then {c[l].id} else {}
  {
    forall id
      ensures id in Ids(c, kind) <==> id in Ids(code, kind) || (kind(c[l]) && id == c[l].id)
    {
      if id in Ids(c, kind) {
        var k :| 0 <= k < |c| && !c[k].Store? && kind(c[k]) && c[k].id == id;
        assert k != l ==> SameKind(code[if k < l then k else k - 1], c[k], kind);
      }
      if id in Ids(code, kind) {
        var k :| 0 <= k < |code| && !code[k].Store? && kind(code[k]) && code[k].id == id;
        assert SameKind(code[k], c[if k < l then k else k + 1], kind);
      }
    }
  }

  // A kind that replacing d by n does not change.
  ghost predicate Stable(kind: Ins -> bool, d: Id, n: Id) {
    forall ins: Ins :: kind(SubstIns(ins, d, n)) == kind(ins)
  }

  lemma RedirectIds(code: seq<Ins>, l: nat, ins: Ins, d: Id, n: Id, kind: Ins -> bool)
    requires l <= |code| && Defines(ins, n) && Stable(kind, d, n)
    ensures Ids(Subst(InsertAt(code, l, ins), d, n), kind) == Ids(code, kind) + if kind(ins) then {n} else {}
  {
    var c := Subst(InsertAt(code, l, ins), d, n);
    forall k | 0 <= k < |code|
      ensures SameKind(code[k], c[if k < l then k else k + 1], kind)
    {
      assert c[if k < l then k else k + 1] == SubstIns(code[k], d, n);
    }
    assert c[l] == SubstIns(ins, d, n);
    SameIds(code, c, l, kind);
  }

  lemma UnusedStays(code: seq<Ins>, l: nat, ins: Ins, d: Id, n: Id, e: Id)
    requires l < |code| && d != n && e != n && !UsedIn(code, e)
    requires forall id: Id :: Uses(ins, id) ==> Uses(code[l], id)
    ensures !UsedIn(Subst(InsertAt(code, l, ins), d, n), e)
  {
    var c := InsertAt(code, l, ins);
    forall k | 0 <= k < |c|
      ensures !Uses(SubstIns(c[k], d, n), e)
    {
      assert c[k] == if k < l then code[k] else if k == l then ins else code[k - 1];
      assert !Uses(code[if k <= l then k else k - 1], e);
      SubstUses(c[k], d, n, e);
    }
  }

  // ------------------------------------------------------------------ scanning

  // `orig` has been rewritten into `code`; the targets at positions below i are marked for removal
  // and no longer used.
  ghost predicate Scanning(kind: Ins -> bool, orig: seq<Ins>, n0: Id, code: seq<Ins>, n: Id, i: nat, marked: seq<Id>) {
    && n0 <= n && i <= |code|
    && Ssa(code) && IdsBelow(code, n)
    && Equivalent(orig, code, AtLeast(n0))
    && Ids(code, kind) == Ids(orig, kind)
    && (forall id :: id < n0 ==> (id in Ids(code, Any()) <==> id in Ids(orig, Any())))
    && (forall d :: d in marked ==> d in Ids(orig, kind) && !UsedIn(code, d))
    && (forall k :: 0 <= k < i && !code[k].Store? && kind(code[k]) ==> code[k].id in marked)
  }

  lemma ScanStart(kind: Ins -> bool, code: seq<Ins>, n: Id)
    requires Ssa(code) && IdsBelow(code, n)
    ensures Scanning(kind, code, n, code, n, 0, [])
  {
    EquivalentSelf(code, AtLeast(n));
  }

  lemma ScanFacts(kind: Ins -> bool, orig: seq<Ins>, n0: Id, code: seq<Ins>, n: Id, i: nat, marked: seq<Id>)
    requires Scanning(kind, orig, n0, code, n, i, marked)
    ensures i <= |code| && Ssa(code) && IdsBelow(code, n) && n0 <= n
  {
  }

  lemma ScanSkip(kind: Ins -> bool, orig: seq<Ins>, n0: Id, code: seq<Ins>, n: Id, i: nat, marked: seq<Id>)
    requires Scanning(kind, orig, n0, code, n, i, marked) && i < |code|
    requires code[i].Store? || !kind(code[i])
    ensures Scanning(kind, orig, n0, code, n, i + 1, marked)
  {
  }

  lemma RedirectMeaning(orig: seq<Ins>, n0: Id, code: seq<Ins>, n: Id, l: nat, i: nat, ins: Ins, d: Id)
    requires Equivalent(orig, code, AtLeast(n0)) && n0 <= n && l <= i < |code|
    requires CanReplace(code, l, i, ins, d, n) && SameValue(code, l, i, ins, d, n)
    ensures var c := Subst(InsertAt(code, l, ins), d, n);
            && |c| == |code| + 1 && Ssa(c) && IdsBelow(c, n + 1) && !UsedIn(c, d)
            && Equivalent(orig, c, AtLeast(n0))
  {
    hide Ssa, IdsBelow, Equivalent, CanReplace, SameValue, UsedIn;
    ReplaceIsEquivalent(code, l, i, ins, d, n);
    ReplaceKeepsSsa(code, l, i, ins, d, n);
    EquivalentChain(orig, code, Subst(InsertAt(code, l, ins), d, n), AtLeast(n0), Just(n), AtLeast(n0));
  }

  lemma MarkedUnused(code: seq<Ins>, n: Id, l: nat, ins: Ins, d: Id, marked: seq<Id>)
    requires l < |code| && d != n
    requires forall id: Id :: Uses(ins, id) ==> Uses(code[l], id)
    requires forall e :: e in marked ==> e < n && !UsedIn(code, e)
    ensures forall e :: e in marked ==> !UsedIn(Subst(InsertAt(code, l, ins), d, n), e)
  {
    hide Subst, InsertAt, UsedIn;
    forall e | e in marked
      ensures !UsedIn(Subst(InsertAt(code, l, ins), d, n), e)
    {
      UnusedStays(code, l, ins, d, n, e);
    }
  }

  // The instructions scanned so far stay scanned: only operands that name d change.
  lemma ScannedStay(kind: Ins -> bool, code: seq<Ins>, l: nat, i: nat, ins: Ins, d: Id, n: Id)
    requires l <= i < |code| && Defines(code[i], d) && Defines(ins, n)
    requires Stable(kind, d, n) && !kind(ins)
    ensures var c := Subst(InsertAt(code, l, ins), d, n);
            forall k :: 0 <= k < i + 2 && !c[k].Store? && kind(c[k]) ==>
              c[k].id == d || exists j :: 0 <= j < i && !code[j].Store? && kind(code[j]) && code[j].id == c[k].id
  {
    var c := Subst(InsertAt(code, l, ins), d, n);
    forall k | 0 <= k < i + 2 && !c[k].Store? && kind(c[k])
      ensures c[k].id == d || exists j :: 0 <= j < i && !code[j].Store? && kind(code[j]) && code[j].id == c[k].id
    {
      assert c[k] == SubstIns(InsertAt(code, l, ins)[k], d, n);
      assert k != l;
      assert InsertAt(code, l, ins)[k] == code[if k < l then k else k - 1];
    }
  }

  // One target is redirected to the new instruction.
  lemma ScanRedirect(kind: Ins -> bool, orig: seq<Ins>, n0: Id, code: seq<Ins>, n: Id, i: nat, marked: seq<Id>,
                     l: nat, ins: Ins, d: Id)
    requires Scanning(kind, orig, n0, code, n, i, marked) && l <= i < |code|
    requires CanReplace(code, l, i, ins, d, n) && SameValue(code, l, i, ins, d, n)
    requires kind(code[i]) && !kind(ins) && Stable(kind, d, n)
    ensures Scanning(kind, orig, n0, Subst(InsertAt(code, l, ins), d, n), n + 1, i + 2, marked + [d])
  {
    var c := Subst(InsertAt(code, l, ins), d, n);
    RedirectMeaning(orig, n0, code, n, l, i, ins, d);
    IdBelow(code, n, i, d);
    IdsAreBelow(code, n, kind);
    hide Ssa, IdsBelow, Equivalent, UsedIn, Subst, InsertAt, Stable;
    assert Stable(Any(), d, n) by { AnyIsStable(d, n); }
    RedirectIds(code, l, ins, d, n, kind);
    RedirectIds(code, l, ins, d, n, Any());
    MarkedUnused(code, n, l, ins, d, marked);
    ScannedStay(kind, code, l, i, ins, d, n);
    assert d in Ids(code, kind);
    hide Ids, SameValue;
  }

  lemma AnyIsStable(d: Id, n: Id)
    ensures Stable(Any(), d, n)
  {
  }

  // ------------------------------------------------------------------ erasing

  lemma EraseIds(code: seq<Ins>, d: Id, kind: Ins -> bool)
    requires Ssa(code)
    ensures Ids(EraseDef(code, d), kind) == Ids(code, kind) - {d}
  {
    var k := FindDef(code, d);
    var c := EraseDef(code, d);
    if k < |code| {
      forall j | 0 <= j < |code| && j != k
        ensures !Defines(code[j], d)
        ensures c[if j < k then j else j - 1] == code[j]
      {
      }
      hide Ssa;
      Erased(code, c, k, d, kind);
    }
  }

  lemma Erased(code: seq<Ins>, c: seq<Ins>, k: nat, d: Id, kind: Ins -> bool)
    requires k < |code| == |c| + 1 && Defines(code[k], d)
    requires forall j :: 0 <= j < |code| && j != k ==> !Defines(code[j], d) && c[if j < k then j else j - 1] == code[j]
    ensures Ids(c, kind) == Ids(code, kind) - {d}
  {
    assert forall j :: 0 <= j < |c| ==> c[j] == code[if j < k then j else j + 1];
    forall id
      ensures id in Ids(c, kind) <==> id in Ids(code, kind) && id != d
    {
      if id in Ids(code, kind) && id != d {
        var j :| 0 <= j < |code| && !code[j].Store? && kind(code[j]) && code[j].id == id;
        assert c[if j < k then j else j - 1] == code[j];
      }
    }
  }

  // The first m marked targets are gone.
  ghost predicate Erasing(kind: Ins -> bool, orig: seq<Ins>, n0: Id, code: seq<Ins>, n: Id, marked: seq<Id>, m: nat) {
    && m <= |marked|
    && Ssa(code) && IdsBelow(code, n)
    && Equivalent(orig, code, NewOrIn(n0, Ids(orig, kind)))
    && (forall id :: id in Ids(code, kind) <==> id in Ids(orig, kind) && id !in marked[..m])
    && (forall id :: id < n0 ==> (id in Ids(code, Any()) <==> id in Ids(orig, Any()) && id !in marked[..m]))
    && (forall d :: d in marked ==> d in Ids(orig, kind) && !UsedIn(code, d))
    && (forall d :: d in Ids(orig, kind) ==> d in marked)
  }

  lemma EraseStart(kind: Ins -> bool, orig: seq<Ins>, n0: Id, code: seq<Ins>, n: Id, marked: seq<Id>)
    requires Scanning(kind, orig, n0, code, n, |code|, marked)
    ensures Erasing(kind, orig, n0, code, n, marked, 0)
  {
    EquivalentSelf(code, AtLeast(n0));
    EquivalentChain(orig, code, code, AtLeast(n0), AtLeast(n0), NewOrIn(n0, Ids(orig, kind)));
    forall id | id in Ids(code, kind)
      ensures id in marked
    {
      var k :| 0 <= k < |code| && !code[k].Store? && kind(code[k]) && code[k].id == id;
    }
  }

  lemma EraseUses(code: seq<Ins>, d: Id, e: Id)
    requires !UsedIn(code, e)
    ensures !UsedIn(EraseDef(code, d), e)
  {
    var k := FindDef(code, d);
    var c := EraseDef(code, d);
    assert k < |code| ==> forall j :: 0 <= j < |c| ==> c[j] == code[if j < k then j else j + 1];
  }

  lemma EraseMeaning(code: seq<Ins>, d: Id, n: nat)
    requires Ssa(code) && IdsBelow(code, n) && !UsedIn(code, d)
    ensures var c := EraseDef(code, d); Ssa(c) && IdsBelow(c, n) && Equivalent(code, c, Just(d))
  {
    hide Equivalent;
    var k := FindDef(code, d);
    if k < |code| {
      EraseIsHidden(code, k, d);
      EraseKeepsSsa(code, k, n);
    } else {
      EquivalentSelf(code, Just(d));
    }
  }

  lemma EraseStep(kind: Ins -> bool, orig: seq<Ins>, n0: Id, code: seq<Ins>, n: Id, marked: seq<Id>, m: nat)
    requires Erasing(kind, orig, n0, code, n, marked, m) && m < |marked|
    ensures Erasing(kind, orig, n0, EraseDef(code, marked[m]), n, marked, m + 1)
  {
    hide Ssa, IdsBelow, Ids, Equivalent, UsedIn, EraseDef;
    var d := marked[m];
    var c := EraseDef(code, d);
    assert marked[..m + 1] == marked[..m] + [d];
    EraseMeaning(code, d, n);
    EraseIds(code, d, kind);
    EraseIds(code, d, Any());
    forall e | e in marked
      ensures !UsedIn(c, e)
    {
      EraseUses(code, d, e);
    }
    EquivalentChain(orig, code, c, NewOrIn(n0, Ids(orig, kind)), Just(d), NewOrIn(n0, Ids(orig, kind)));
  }

  // What a finished pass has done: the targets of `orig`, and only those, are gone and unused, and
  // every other value and the final memory are what they were.
  ghost predicate Redirected(kind: Ins -> bool, orig: seq<Ins>, n0: Id, code: seq<Ins>) {
    && Ids(code, kind) == {}
    && (forall id :: id < n0 ==> (id in Ids(code, Any()) <==> id in Ids(orig, Any()) && id !in Ids(orig, kind)))
    && (forall d :: d in Ids(orig, kind) ==> !UsedIn(code, d))
    && Equivalent(orig, code, NewOrIn(n0, Ids(orig, kind)))
  }

  lemma EraseEnd(kind: Ins -> bool, orig: seq<Ins>, n0: Id, code: seq<Ins>, n: Id, marked: seq<Id>)
    requires Erasing(kind, orig, n0, code, n, marked, |marked|)
    ensures Ssa(code) && IdsBelow(code, n) && Redirected(kind, orig, n0, code)
  {
    assert marked[..|marked|] == marked;
  }

  lemma SizeAfter(code: seq<Ins>, l: nat, ins: Ins, d: Id, n: Id)
    requires l <= |code|
    ensures |Subst(InsertAt(code, l, ins), d, n)| == |code| + 1
  {
  }

  // The loop both passes end with: erase every marked instruction.
  method EraseAll(F: IrFunction, toRemove: seq<Id>, ghost kind: Ins -> bool, ghost orig: seq<Ins>, ghost n0: Id)
    requires Scanning(kind, orig, n0, F.code, F.nextId, |F.code|, toRemove)
    modifies F
    ensures F.Valid() && F.nextId == old(F.nextId) && Redirected(kind, orig, n0, F.code)
  {
    hide Ssa, IdsBelow, Ids, Equivalent, UsedIn, Scanning, Erasing, Redirected;
    ghost var n := F.nextId;
    EraseStart(kind, orig, n0, F.code, n, toRemove);
    for m := 0 to |toRemove|
      invariant Erasing(kind, orig, n0, F.code, n, toRemove, m) && F.nextId == n
    {
      EraseStep(kind, orig, n0, F.code, n, toRemove, m);
      F.code := EraseDef(F.code, toRemove[m]);
    }
    EraseEnd(kind, orig, n0, F.code, n, toRemove);
  }
}
