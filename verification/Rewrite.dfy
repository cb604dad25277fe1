/** Inserting an instruction in front of another, replacing all uses of an id, and erasing dead
    definitions: each step keeps the meaning of a function. */
module Rewrite {
  import opened Ir

  // The same final memory and the same values, except for hidden ids, from every initial state.
  ghost predicate Equivalent(a: seq<Ins>, b: seq<Ins>, hidden: Id -> bool) {
    forall f: Alu, s: State :: Agree(Run(f, a, s), Run(f, b, s), hidden)
  }

  function Just(n: Id): Id -> bool {
    id => id == n
  }

  lemma EquivalentSelf(a: seq<Ins>, hidden: Id -> bool)
    ensures Equivalent(a, a, hidden)
  {
  }

  lemma EquivalentChain(a: seq<Ins>, b: seq<Ins>, c: seq<Ins>, h: Id -> bool, g: Id -> bool, hidden: Id -> bool)
    requires Equivalent(a, b, h) && Equivalent(b, c, g)
    requires forall id :: h(id) || g(id) ==> hidden(id)
    ensures Equivalent(a, c, hidden)
  {
    forall f: Alu, s: State
      ensures Agree(Run(f, a, s), Run(f, c, s), hidden)
    {
      assert Agree(Run(f, a, s), Run(f, b, s), h) && Agree(Run(f, b, s), Run(f, c, s), g);
    }
  }

  // ------------------------------------------------------------------ insert and replace

  function InsertAt(code: seq<Ins>, l: nat, ins: Ins): seq<Ins>
    requires l <= |code|
  {
    code[..l] + [ins] + code[l..]
  }

  // n is a new id that takes over d: `ins` defines n in front of position l, and d is defined at k.
  ghost predicate CanReplace(code: seq<Ins>, l: nat, k: nat, ins: Ins, d: Id, n: Id) {
    && Ssa(code) && IdsBelow(code, n)
    && l <= k < |code|
    && Defines(ins, n) && Defines(code[k], d)
    && (forall id: Id :: Uses(ins, id) ==> Uses(code[l], id))
  }

  // After position k both ids hold the same value, in every run.
  ghost predicate SameValue(code: seq<Ins>, l: nat, k: nat, ins: Ins, d: Id, n: Id)
    requires l <= k < |code|
  {
    EqualAfter(InsertAt(code, l, ins)[..k + 2], d, n)
  }

  ghost predicate EqualAfter(code: seq<Ins>, d: Id, n: Id) {
    forall f: Alu, s: State :: EqualIds(Run(f, code, s), d, n)
  }

  ghost predicate EqualIds(t: State, d: Id, n: Id) {
    d in t.env && n in t.env && t.env[d] == t.env[n]
  }

  lemma InsertIsHidden(code: seq<Ins>, l: nat, ins: Ins, n: Id)
    requires l <= |code| && Defines(ins, n) && IdsBelow(code, n)
    ensures Equivalent(code, InsertAt(code, l, ins), Just(n))
  {
    var h := Just(n);
    var a, b := code[..l], code[l..];
    forall f: Alu, s: State
      ensures Agree(Run(f, code, s), Run(f, InsertAt(code, l, ins), s), h)
    {
      assert code == a + b && InsertAt(code, l, ins) == a + ([ins] + b);
      RunConcat(f, a, b, s);
      RunConcat(f, a, [ins] + b, s);
      var t := Run(f, a, s);
      RunConcat(f, [ins], b, t);
      RunOne(f, ins, t);
      RunAgrees(f, b, t, Exec(f, ins, t), h);
    }
  }

  lemma UsesBefore(code: seq<Ins>, l: nat, k: nat, ins: Ins, d: Id, n: Id, i: nat)
    requires CanReplace(code, l, k, ins, d, n) && i < k + 2
    ensures !Uses(InsertAt(code, l, ins)[i], d)
  {
    var code' := InsertAt(code, l, ins);
    assert code'[i] == if i < l then code[i] else if i == l then ins else code[i - 1];
    assert !Uses(code[l], d);
  }

  // Up to d's definition there is nothing to replace.
  lemma SubstSplits(code: seq<Ins>, l: nat, k: nat, ins: Ins, d: Id, n: Id)
    requires CanReplace(code, l, k, ins, d, n)
    ensures var c := InsertAt(code, l, ins);
            Subst(c, d, n) == c[..k + 2] + Subst(c[k + 2..], d, n)
  {
    var c := InsertAt(code, l, ins);
    forall i | 0 <= i < k + 2
      ensures SubstIns(c[i], d, n) == c[i]
    {
      UsesBefore(code, l, k, ins, d, n, i);
      SubstUnused(c[i], d, n);
    }
  }

  lemma TailDefinesNeither(code: seq<Ins>, l: nat, k: nat, ins: Ins, d: Id, n: Id)
    requires CanReplace(code, l, k, ins, d, n)
    ensures var c := InsertAt(code, l, ins)[k + 2..]; !DefinedIn(c, d) && !DefinedIn(c, n)
  {
    var c := InsertAt(code, l, ins)[k + 2..];
    assert forall i :: 0 <= i < |c| ==> c[i] == code[k + 1 + i];
  }

  // Inserting and replacing changes no other value and no memory.
  lemma ReplaceIsEquivalent(code: seq<Ins>, l: nat, k: nat, ins: Ins, d: Id, n: Id)
    requires CanReplace(code, l, k, ins, d, n) && SameValue(code, l, k, ins, d, n)
    ensures Equivalent(code, Subst(InsertAt(code, l, ins), d, n), Just(n))
  {
    var c := InsertAt(code, l, ins);
    var x, y := c[..k + 2], c[k + 2..];
    InsertIsHidden(code, l, ins, n);
    SubstSplits(code, l, k, ins, d, n);
    TailDefinesNeither(code, l, k, ins, d, n);
    assert c == x + y;
    SubstTail(x, y, d, n);
    hide Subst, InsertAt, DefinedIn, CanReplace, Agree, EqualAfter;
    forall f: Alu, s: State
      ensures Agree(Run(f, code, s), Run(f, Subst(c, d, n), s), Just(n))
    {
      assert Agree(Run(f, code, s), Run(f, c, s), Just(n));
    }
  }

  lemma SubstTail(x: seq<Ins>, y: seq<Ins>, d: Id, n: Id)
    requires EqualAfter(x, d, n) && !DefinedIn(y, d) && !DefinedIn(y, n)
    ensures forall f: Alu, s: State :: Run(f, x + Subst(y, d, n), s) == Run(f, x + y, s)
  {
    hide Subst, DefinedIn;
    forall f: Alu, s: State
      ensures Run(f, x + Subst(y, d, n), s) == Run(f, x + y, s)
    {
      assert EqualIds(Run(f, x, s), d, n);
      RunConcat(f, x, y, s);
      RunConcat(f, x, Subst(y, d, n), s);
      SubstRun(f, y, Run(f, x, s), d, n);
    }
  }

  // The result is again in SSA form, over one more id, and d is no longer used.
  lemma ReplaceKeepsSsa(code: seq<Ins>, l: nat, k: nat, ins: Ins, d: Id, n: Id)
    requires CanReplace(code, l, k, ins, d, n)
    ensures var c := Subst(InsertAt(code, l, ins), d, n);
            && |c| == |code| + 1
            && Ssa(c) && IdsBelow(c, n + 1) && !UsedIn(c, d)
  {
    var c := Subst(InsertAt(code, l, ins), d, n);
    forall i, id: Id | 0 <= i < |c|
      ensures Defines(c[i], id) <==>
                if i == l then id == n else Defines(code[if i < l then i else i - 1], id)
      ensures Uses(c[i], id) ==>
                if id == n then i != l && Uses(code[if i < l then i else i - 1], d)
                else Uses(code[if i <= l then i else i - 1], id) && id != d
    {
      SubstUses(InsertAt(code, l, ins)[i], d, n, id);
    }
    SsaByPositions(code, c, l, k, d, n);
  }

  lemma SsaByPositions(code: seq<Ins>, c: seq<Ins>, l: nat, k: nat, d: Id, n: Id)
    requires Ssa(code) && IdsBelow(code, n) && l <= k < |code| && Defines(code[k], d) && |c| == |code| + 1
    requires forall i, id: Id :: 0 <= i < |c| ==>
               (Defines(c[i], id) <==> if i == l then id == n else Defines(code[if i < l then i else i - 1], id))
    requires forall i, id: Id :: 0 <= i < |c| && Uses(c[i], id) ==>
               if id == n then i != l && Uses(code[if i < l then i else i - 1], d)
               else Uses(code[if i <= l then i else i - 1], id) && id != d
    ensures Ssa(c) && IdsBelow(c, n + 1) && !UsedIn(c, d)
  {
    forall i, j, id: Id | 0 <= i < j < |c| && Defines(c[i], id)
      ensures !Defines(c[j], id)
    {
    }
    forall i, j, id: Id | 0 <= i <= j < |c| && Defines(c[j], id)
      ensures !Uses(c[i], id)
    {
    }
  }

  // ------------------------------------------------------------------ erasing

  lemma EraseIsHidden(code: seq<Ins>, k: nat, d: Id)
    requires k < |code| && Defines(code[k], d) && !UsedIn(code, d)
    ensures Equivalent(code, code[..k] + code[k + 1..], Just(d))
  {
    var h := Just(d);
    var a, b := code[..k], code[k + 1..];
    forall f: Alu, s: State
      ensures Agree(Run(f, code, s), Run(f, a + b, s), h)
    {
      assert code == a + ([code[k]] + b);
      RunConcat(f, a, b, s);
      RunConcat(f, a, [code[k]] + b, s);
      var t := Run(f, a, s);
      RunConcat(f, [code[k]], b, t);
      RunOne(f, code[k], t);
      RunAgrees(f, b, Exec(f, code[k], t), t, h);
    }
  }

  lemma EraseKeepsSsa(code: seq<Ins>, k: nat, n: nat)
    requires Ssa(code) && IdsBelow(code, n) && k < |code|
    ensures Ssa(code[..k] + code[k + 1..]) && IdsBelow(code[..k] + code[k + 1..], n)
  {
    var c := code[..k] + code[k + 1..];
    assert forall i :: 0 <= i < |c| ==> c[i] == code[if i < k then i else i + 1];
  }

  // A function under transformation: its instructions and the next id that is still free.
  class IrFunction {
    var code: seq<Ins>
    var nextId: Id

    ghost predicate Valid()
      reads this
    {
      Ssa(code) && IdsBelow(code, nextId)
    }

    constructor (code: seq<Ins>, nextId: Id)
      requires Ssa(code) && IdsBelow(code, nextId)
      ensures Valid() && this.code == code && this.nextId == nextId
    {
      this.code, this.nextId := code, nextId;
    }
  }
}
