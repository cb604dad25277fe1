/** PromotePseudoStackPass and PromotePseudoMemory of lifter/CustomPasses.hpp: GEPs from the memory
    argument move to a stack alloca or become absolute addresses. */
module PromotePass {
  import opened Bits
  import opened Ints
  import opened Ir
  import opened Rewrite
  import opened Redirect
  import opened Includes
  import opened Wrappers

  // What known-bits analysis says of values other than constants and selects: whether they are
  // below the stack limit, if it can tell.
  type Known = Id -> Option<bool>

  // KnownBits::ult against the stack limit.  The known bits of a select of two constants are the
  // bits they share: at least their and, at most their or.
  function KnownUlt(off: Offset, known: Known): Option<bool> {
    match off
    case Fixed(v) => Some(v < STACKP_VALUE)
    case Select(_, t, f) =>
      if Or(t, f) < STACKP_VALUE then Some(true)
      else if And(t, f) >= STACKP_VALUE then Some(false)
      else None
    case Other(id) => known(id)
  }

  // The pass's decision.  It tests whether the known-bits answer exists, not what it says.
  function Promotes(off: Offset, known: Known): bool {
    match off
    case Fixed(v) => v < STACKP_VALUE
    case Select(_, t, f) => KnownUlt(off, known).Some? || (t < STACKP_VALUE && f < STACKP_VALUE)
    case Other(_) => KnownUlt(off, known).Some?
  }

  function PromoteIns(ins: Ins, known: Known): Ins {
    if ins.Gep? && ins.base == MemoryArgument && Promotes(ins.off, known) then ins.(base := StackMemory) else ins
  }

  function Promote(code: seq<Ins>, known: Known): seq<Ins> {
    seq(|code|, k requires 0 <= k < |code| => PromoteIns(code[k], known))
  }

  // ------------------------------------------------------------------ the split memory

  // Where a byte of the original memory lives after promotion.
  function Home(l: Loc): Loc {
    if l.space == Absolute && l.addr < STACKP_VALUE then Loc(Stack, l.addr) else l
  }

  predicate RelatedVal(v: Val, w: Val) {
    match v
    case Num(_) => w == v
    case Ptr(l) => l.space == Absolute && w == Ptr(Home(l))
  }

  // Equal numbers, pointers to the home of what they pointed to, and the original memory
  // partitioned between the stack below the limit and absolute memory above it.
  ghost predicate Related(s: State, t: State) {
    && s.env.Keys == t.env.Keys
    && (forall id :: id in s.env ==> RelatedVal(s.env[id], t.env[id]))
    && (forall a: nat :: ByteOf(t.mem, Home(Loc(Absolute, a))) == ByteOf(s.mem, Loc(Absolute, a)))
  }

  // All bytes of an access are on one side of the limit.
  predicate OneSide(l: Loc, n: nat) {
    forall i :: 0 <= i < n ==> (Shifted(l, i).addr < STACKP_VALUE <==> l.addr < STACKP_VALUE)
  }

  // An instruction the simulation covers in state s: accesses go through pointers and do not
  // straddle the limit, and the pass puts each GEP on the side its address is on.
  predicate Placed(ins: Ins, s: State, known: Known) {
    match ins
    case Load(_, n, p) => p in s.env && s.env[p].Ptr? && OneSide(s.env[p].loc, n)
    case Store(n, p, _) => p in s.env && s.env[p].Ptr? && OneSide(s.env[p].loc, n)
    case Gep(_, base, off) =>
      base == MemoryArgument && (Promotes(off, known) <==> EvalOffset(off, s.env) % TWO_TO_THE_64 < STACKP_VALUE)
    case IntToPtr(_, off) => EvalOffset(off, s.env) % TWO_TO_THE_64 >= STACKP_VALUE
    case _ => true
  }

  predicate AllPlaced(f: Alu, code: seq<Ins>, s: State, known: Known)
    decreases |code|
  {
    code == [] || (Placed(code[0], s, known) && AllPlaced(f, code[1..], Exec(f, code[0], s), known))
  }

  lemma EvalRelated(op: Operand, s: State, t: State)
    requires Related(s, t)
    ensures Eval(op, s.env) == Eval(op, t.env)
  {
  }

  lemma OffsetRelated(off: Offset, s: State, t: State)
    requires Related(s, t)
    ensures EvalOffset(off, s.env) == EvalOffset(off, t.env)
  {
    match off
    case Fixed(_) =>
    case Select(c, _, _) => EvalRelated(c, s, t);
    case Other(id) => EvalRelated(Var(id), s, t);
  }

  lemma HomeShifted(l: Loc, n: nat, i: nat)
    requires l.space == Absolute && OneSide(l, n) && i < n
    ensures Shifted(Home(l), i) == Home(Shifted(l, i))
  {
  }

  lemma ReadRelated(s: State, t: State, l: Loc, n: nat)
    requires Related(s, t) && l.space == Absolute && OneSide(l, n)
    ensures ReadBytes(s.mem, l, n) == ReadBytes(t.mem, Home(l), n)
  {
    forall i | 0 <= i < n
      ensures ByteOf(s.mem, Shifted(l, i)) == ByteOf(t.mem, Shifted(Home(l), i))
    {
      HomeShifted(l, n, i);
      assert Shifted(l, i) == Loc(Absolute, Shifted(l, i).addr);
    }
  }

  ghost predicate RelatedMem(m: map<Loc, byte>, w: map<Loc, byte>) {
    forall a: nat :: ByteOf(w, Home(Loc(Absolute, a))) == ByteOf(m, Loc(Absolute, a))
  }

  lemma {:induction false} WriteRelated(m: map<Loc, byte>, w: map<Loc, byte>, l: Loc, bs: seq<byte>)
    requires RelatedMem(m, w) && l.space == Absolute && OneSide(l, |bs|)
    ensures RelatedMem(WriteBytes(m, l, bs), WriteBytes(w, Home(l), bs))
    decreases |bs|
  {
    if bs != [] {
      var n := |bs| - 1;
      WriteRelated(m, w, l, bs[..n]);
      HomeShifted(l, |bs|, n);
      var p, q := Shifted(l, n), Shifted(Home(l), n);
      var m', w' := WriteBytes(m, l, bs[..n]), WriteBytes(w, Home(l), bs[..n]);
      forall a: nat
        ensures ByteOf(w'[q := bs[n]], Home(Loc(Absolute, a))) == ByteOf(m'[p := bs[n]], Loc(Absolute, a))
      {
        assert Home(Loc(Absolute, a)) == q <==> Loc(Absolute, a) == p;
      }
    }
  }

  lemma ExecRelated(f: Alu, ins: Ins, s: State, t: State, known: Known)
    requires Related(s, t) && Placed(ins, s, known)
    ensures Related(Exec(f, ins, s), Exec(f, PromoteIns(ins, known), t))
  {
    match ins
    case Load(_, n, p) =>
      ReadRelated(s, t, s.env[p].loc, n);
    case Store(n, p, v) =>
      EvalRelated(v, s, t);
      WriteRelated(s.mem, t.mem, s.env[p].loc, LeBytes(Eval(v, s.env), n));
    case Trunc(_, _, _, src) =>
      EvalRelated(src, s, t);
    case Gep(_, _, off) =>
      OffsetRelated(off, s, t);
    case IntToPtr(_, off) =>
      OffsetRelated(off, s, t);
    case Op(_, _, args) =>
      forall i | 0 <= i < |args|
        ensures Eval(args[i], s.env) == Eval(args[i], t.env)
      {
        EvalRelated(args[i], s, t);
      }
      assert EvalAll(args, s.env) == EvalAll(args, t.env);
  }

  // The promoted function runs in step with the original one: same loads, partitioned memory.
  lemma {:induction false} PromoteSimulates(f: Alu, code: seq<Ins>, s: State, t: State, known: Known)
    requires Related(s, t) && AllPlaced(f, code, s, known)
    ensures Related(Run(f, code, s), Run(f, Promote(code, known), t))
    decreases |code|
  {
    if code != [] {
      ExecRelated(f, code[0], s, t, known);
      assert Promote(code, known)[1..] == Promote(code[1..], known);
      PromoteSimulates(f, code[1..], Exec(f, code[0], s), Exec(f, PromoteIns(code[0], known), t), known);
    }
  }

  // ------------------------------------------------------------------ which programs are covered

  // The selects of constants that the pass puts on the right side: both arms below the limit, or
  // both above it with an and below it (else the known-bits test takes "never below" for "below").
  predicate SelectSafe(t: nat, f: nat) {
    || (t < STACKP_VALUE && f < STACKP_VALUE)
    || (t >= STACKP_VALUE && f >= STACKP_VALUE && And(t, f) < STACKP_VALUE)
  }

  // The decision is right for both arms exactly for these selects.
  lemma SelectDecision(c: Operand, t: nat, f: nat, known: Known)
    ensures SelectSafe(t, f) <==>
              var p := Promotes(Select(c, t, f), known); (p <==> t < STACKP_VALUE) && (p <==> f < STACKP_VALUE)
  {
    AndIsBelow(t, f);
    OrIsAbove(t, f);
  }

  predicate IsArm(off: Offset, o: nat) {
    match off
    case Fixed(v) => o == v
    case Select(_, t, f) => o == t || o == f
    case Other(_) => false
  }

  predicate OffsetSafe(off: Offset) {
    match off
    case Fixed(v) => v < TWO_TO_THE_64
    case Select(_, t, f) => t < TWO_TO_THE_64 && f < TWO_TO_THE_64 && SelectSafe(t, f)
    case Other(_) => false
  }

  // The access at position k goes through an earlier GEP none of whose offsets straddles the limit.
  ghost predicate AccessSafe(code: seq<Ins>, k: nat, p: Id, n: nat)
    requires k <= |code|
  {
    exists j :: 0 <= j < k && code[j].Gep? && code[j].id == p
      && forall o: nat :: IsArm(code[j].off, o) ==> OneSide(Loc(Absolute, o), n)
  }

  ghost predicate InsSafe(code: seq<Ins>, k: nat)
    requires k < |code|
  {
    && !code[k].IntToPtr?
    && (code[k].Gep? ==> code[k].base == MemoryArgument && OffsetSafe(code[k].off))
    && (code[k].Load? || code[k].Store? ==> AccessSafe(code, k, code[k].ptr, code[k].bytes))
  }

  ghost predicate StaticSafe(code: seq<Ins>) {
    Ssa(code) && forall k :: 0 <= k < |code| ==> InsSafe(code, k)
  }

  // The GEPs executed so far hold pointers at one of their offsets.
  ghost predicate GepsKnown(code: seq<Ins>, k: nat, s: State)
    requires k <= |code|
  {
    forall j :: 0 <= j < k && code[j].Gep? ==>
      && code[j].id in s.env && s.env[code[j].id].Ptr?
      && s.env[code[j].id].loc.space == Absolute
      && IsArm(code[j].off, s.env[code[j].id].loc.addr)
  }

  lemma GepsStepKnown(f: Alu, code: seq<Ins>, k: nat, s: State)
    requires StaticSafe(code) && k < |code| && GepsKnown(code, k, s)
    ensures GepsKnown(code, k + 1, Exec(f, code[k], s))
  {
    assert InsSafe(code, k);
    forall j | 0 <= j < k && code[j].Gep?
      ensures !Defines(code[k], code[j].id)
    {
      assert Defines(code[j], code[j].id);
    }
    hide StaticSafe, Ssa, InsSafe, Result;
    if code[k].Gep? {
      GepResult(f, code[k], s);
    }
  }

  lemma GepResult(f: Alu, ins: Ins, s: State)
    requires ins.Gep? && ins.base == MemoryArgument && OffsetSafe(ins.off)
    ensures var v := Result(f, ins, s); v.Ptr? && v.loc.space == Absolute && IsArm(ins.off, v.loc.addr)
  {
  }

  lemma StepPlaced(code: seq<Ins>, k: nat, s: State, known: Known)
    requires StaticSafe(code) && k < |code| && GepsKnown(code, k, s)
    ensures Placed(code[k], s, known)
  {
    assert InsSafe(code, k);
    var ins := code[k];
    if ins.Gep? && ins.off.Select? {
      SelectDecision(ins.off.cond, ins.off.whenTrue, ins.off.whenFalse, known);
    }
  }

  // Programs whose accesses use constant offsets, or safe selects of constants, and do not
  // straddle the limit are covered from every initial state.
  lemma {:induction false} StaticIsPlaced(f: Alu, code: seq<Ins>, k: nat, s: State, known: Known)
    requires StaticSafe(code) && k <= |code| && GepsKnown(code, k, s)
    ensures AllPlaced(f, code[k..], s, known)
    decreases |code| - k
  {
    if k < |code| {
      StepPlaced(code, k, s, known);
      GepsStepKnown(f, code, k, s);
      StaticIsPlaced(f, code, k + 1, Exec(f, code[k], s), known);
      assert code[k..][1..] == code[k + 1..];
    }
  }

  // ------------------------------------------------------------------ the passes

  lemma PromoteKeepsSsa(code: seq<Ins>, known: Known, n: nat)
    requires Ssa(code) && IdsBelow(code, n)
    ensures Ssa(Promote(code, known)) && IdsBelow(Promote(code, known), n)
  {
    var c := Promote(code, known);
    forall k, id: Id | 0 <= k < |c|
      ensures Defines(c[k], id) == Defines(code[k], id) && Uses(c[k], id) == Uses(code[k], id)
    {
    }
  }

  class PromotePseudoStackPass {
    constructor () {}

    // Exactly the GEPs the pass decides on start from the alloca afterwards: constants below the
    // limit, selects with both arms below it or with shared bits that reach it, and other values
    // for which known bits give an answer.
    method Run(F: IrFunction, known: Known)
      requires F.Valid()
      modifies F
      ensures F.Valid() && F.nextId == old(F.nextId)
      ensures F.code == Promote(old(F.code), known)
      ensures |F.code| == |old(F.code)|
      ensures forall k :: 0 <= k < |F.code| ==>
                var was := old(F.code)[k];
                if !was.Gep? || was.base != MemoryArgument then F.code[k] == was
                else
                  && F.code[k].Gep? && F.code[k].id == was.id && F.code[k].off == was.off
                  && (F.code[k].base == StackMemory <==>
                        match was.off
                        case Fixed(v) => v < STACKP_VALUE
                        case Select(_, t, f) =>
                          (t < STACKP_VALUE && f < STACKP_VALUE) || And(t, f) >= STACKP_VALUE
                        case Other(id) => known(id).Some?)
    {
      PromoteKeepsSsa(F.code, known, F.nextId);
      ghost var orig := F.code;
      for k := 0 to |F.code|
        invariant |F.code| == |orig| && F.nextId == old(F.nextId)
        invariant forall j :: 0 <= j < |orig| ==> F.code[j] == if j < k then PromoteIns(orig[j], known) else orig[j]
      {
        var ins := F.code[k];
        if ins.Gep? && ins.base == MemoryArgument && Promotes(ins.off, known) {
          F.code := F.code[k := ins.(base := StackMemory)];
        }
      }
      assert F.code == Promote(orig, known);
      forall t: nat, f: nat
        ensures Or(t, f) < STACKP_VALUE ==> t < STACKP_VALUE && f < STACKP_VALUE
      {
        OrIsAbove(t, f);
      }
    }
  }

  function FromMemory(): Ins -> bool {
    (ins: Ins) => ins.Gep? && ins.base == MemoryArgument
  }

  // The inserted inttoptr and the GEP behind it compute the same absolute pointer.
  lemma GepEqualsIntToPtr(code: seq<Ins>, k: nat, n: Id)
    requires Ssa(code) && IdsBelow(code, n) && k < |code| && FromMemory()(code[k])
    ensures CanReplace(code, k, k, IntToPtr(n, code[k].off), code[k].id, n)
    ensures SameValue(code, k, k, IntToPtr(n, code[k].off), code[k].id, n)
    ensures Stable(FromMemory(), code[k].id, n)
  {
    var gep := code[k];
    var ins := IntToPtr(n, gep.off);
    assert Defines(gep, gep.id);
    forall id | Uses(ins, id)
      ensures Uses(gep, id) && id != n
    {
      IdBelow(code, n, k, id);
    }
    var a := code[..k];
    assert !Uses(gep, n);
    assert InsertAt(code, k, ins)[..k + 2] == a + [ins, gep];
    hide Ssa, IdsBelow, InsertAt;
    forall f: Alu, s: State
      ensures EqualIds(Run(f, a + [ins, gep], s), gep.id, n)
    {
      RunConcat(f, a, [ins, gep], s);
      var s0 := Run(f, a, s);
      var s1 := Exec(f, ins, s0);
      assert [ins, gep][1..] == [gep];
      RunOne(f, gep, s1);
      assert Agree(s0, s1, Just(n));
      OffsetAgrees(gep.off, s0, s1, Just(n));
    }
  }

  lemma NoneFromMemory(orig: seq<Ins>, n0: Id, code: seq<Ins>)
    requires Redirected(FromMemory(), orig, n0, code)
    ensures forall k :: 0 <= k < |code| && code[k].Gep? ==> code[k].base != MemoryArgument
  {
    forall k | 0 <= k < |code| && code[k].Gep?
      ensures code[k].base != MemoryArgument
    {
      NoneOfKind(code, k, FromMemory());
    }
  }

  lemma OnlyGepsGone(orig: seq<Ins>, n0: Id, code: seq<Ins>, i: nat)
    requires Redirected(FromMemory(), orig, n0, code)
    requires Ssa(orig) && IdsBelow(orig, n0) && i < |orig| && !orig[i].Store?
    ensures DefinedIn(code, orig[i].id) <==> !FromMemory()(orig[i])
  {
    var id := orig[i].id;
    IdBelow(orig, n0, i, id);
    AnyIsDefined(orig, id);
    AnyIsDefined(code, id);
    assert Defines(orig[i], id);
    if !FromMemory()(orig[i]) {
      OneKind(orig, i, FromMemory());
    } else {
      assert id in Ids(orig, FromMemory());
    }
  }

  class PromotePseudoMemory {
    constructor () {}

    // No GEP starts from the memory argument any more; every other value and the final memory are
    // unchanged from every initial state.
    method Run(F: IrFunction)
      requires F.Valid()
      modifies F
      ensures F.Valid() && F.nextId >= old(F.nextId)
      ensures Redirected(FromMemory(), old(F.code), old(F.nextId), F.code)
      ensures forall k :: 0 <= k < |F.code| && F.code[k].Gep? ==> F.code[k].base != MemoryArgument
      ensures forall i :: 0 <= i < |old(F.code)| && !old(F.code)[i].Store? ==>
                (DefinedIn(F.code, old(F.code)[i].id) <==>
                   !(old(F.code)[i].Gep? && old(F.code)[i].base == MemoryArgument))
    {
      hide Ssa, IdsBelow, Equivalent, UsedIn, Scanning, Subst, InsertAt, Redirected, CanReplace, SameValue, Stable;
      var toPromote: seq<Id> := [];
      var i: nat := 0;
      ghost var orig, n0, kind := F.code, F.nextId, FromMemory();
      ScanStart(kind, F.code, F.nextId);
      while i < |F.code|
        invariant Scanning(kind, orig, n0, F.code, F.nextId, i, toPromote) && n0 <= F.nextId
        decreases |F.code| - i
      {
        var ins := F.code[i];
        ScanFacts(kind, orig, n0, F.code, F.nextId, i, toPromote);
        if ins.Gep? && ins.base == MemoryArgument {
          var newPtr := IntToPtr(F.nextId, ins.off);
          GepEqualsIntToPtr(F.code, i, F.nextId);
          ScanRedirect(kind, orig, n0, F.code, F.nextId, i, toPromote, i, newPtr, ins.id);
          SizeAfter(F.code, i, newPtr, ins.id, F.nextId);
          F.code := Subst(InsertAt(F.code, i, newPtr), ins.id, F.nextId);
          F.nextId := F.nextId + 1;
          toPromote := toPromote + [ins.id];
          i := i + 2;
        } else {
          ScanSkip(kind, orig, n0, F.code, F.nextId, i, toPromote);
          i := i + 1;
        }
      }
      ScanFacts(kind, orig, n0, F.code, F.nextId, i, toPromote);
      EraseAll(F, toPromote, kind, orig, n0);
      NoneFromMemory(orig, n0, F.code);
      forall i | 0 <= i < |orig| && !orig[i].Store?
        ensures DefinedIn(F.code, orig[i].id) <==> !FromMemory()(orig[i])
      {
        OnlyGepsGone(orig, n0, F.code, i);
      }
    }
  }

  // What the two promotions together mean: from related states the final function's memory is the
  // partitioned original memory, and every remaining id of the original function has a related
  // value; in particular every load returns what it did.
  ghost predicate Simulates(orig: seq<Ins>, code: seq<Ins>, n0: Id, known: Known) {
    forall f: Alu, s: State, t: State :: Related(s, t) && AllPlaced(f, orig, s, known) ==>
      SimilarEnd(Run(f, orig, s), Run(f, code, t), NewOrIn(n0, Ids(Promote(orig, known), FromMemory())))
  }

  ghost predicate SimilarEnd(s: State, t: State, hidden: Id -> bool) {
    && RelatedMem(s.mem, t.mem)
    && forall id: Id :: !hidden(id) ==>
         (id in s.env <==> id in t.env) && (id in s.env ==> RelatedVal(s.env[id], t.env[id]))
  }

  lemma PromotionsSimulate(orig: seq<Ins>, code: seq<Ins>, n0: Id, known: Known)
    requires Redirected(FromMemory(), Promote(orig, known), n0, code)
    ensures Simulates(orig, code, n0, known)
  {
    var mid := Promote(orig, known);
    hide Promote;
    forall f: Alu, s: State, t: State | Related(s, t) && AllPlaced(f, orig, s, known)
      ensures SimilarEnd(Run(f, orig, s), Run(f, code, t), NewOrIn(n0, Ids(mid, FromMemory())))
    {
      PromoteSimulates(f, orig, s, t, known);
      assert Agree(Run(f, mid, t), Run(f, code, t), NewOrIn(n0, Ids(mid, FromMemory())));
    }
  }

  // For the statically safe programs this holds from all related initial states.
  lemma StaticallySafeSimulates(orig: seq<Ins>, code: seq<Ins>, n0: Id, known: Known)
    requires StaticSafe(orig) && Redirected(FromMemory(), Promote(orig, known), n0, code)
    ensures forall f: Alu, s: State, t: State :: Related(s, t) ==>
              SimilarEnd(Run(f, orig, s), Run(f, code, t), NewOrIn(n0, Ids(Promote(orig, known), FromMemory())))
  {
    PromotionsSimulate(orig, code, n0, known);
    hide SimilarEnd, Redirected, Promote;
    forall f: Alu, s: State, t: State | Related(s, t)
      ensures SimilarEnd(Run(f, orig, s), Run(f, code, t), NewOrIn(n0, Ids(Promote(orig, known), FromMemory())))
    {
      StaticIsPlaced(f, orig, 0, s, known);
      assert orig[0..] == orig;
    }
  }

  // The two promotions in the order run_opts adds them.
  method PromoteMemory(F: IrFunction, known: Known)
    requires F.Valid()
    modifies F
    ensures F.Valid()
    ensures Ids(F.code, FromMemory()) == {}
    ensures Simulates(old(F.code), F.code, old(F.nextId), known)
    ensures StaticSafe(old(F.code)) ==>
              forall f: Alu, s: State, t: State :: Related(s, t) ==>
                SimilarEnd(Run(f, old(F.code), s), Run(f, F.code, t),
                           NewOrIn(old(F.nextId), Ids(Promote(old(F.code), known), FromMemory())))
  {
    ghost var orig, n0 := F.code, F.nextId;
    var stack := new PromotePseudoStackPass();
    stack.Run(F, known);
    var memory := new PromotePseudoMemory();
    memory.Run(F);
    hide Simulates, SimilarEnd, Promote, StaticSafe;
    PromotionsSimulate(orig, F.code, n0, known);
    if StaticSafe(orig) {
      StaticallySafeSimulates(orig, F.code, n0, known);
    }
  }
}
