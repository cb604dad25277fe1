/** ReplaceTruncWithLoadPass of lifter/CustomPasses.hpp: a 64-to-32 trunc of a load becomes a
    32-bit load in front of the original one. */
module TruncPass {
  import opened Bits
  import opened Ints
  import opened Ir
  import opened Rewrite
  import opened Redirect

  function IsLoad64(): Ins -> bool {
    (ins: Ins) => ins.Load? && ins.bytes == 8
  }

  function Loads64(code: seq<Ins>): set<Id> {
    Ids(code, IsLoad64())
  }

  // A 64-to-32 trunc whose operand is one of the given loads.
  function TruncOf(loads: set<Id>): Ins -> bool {
    (ins: Ins) => ins.Trunc? && ins.fromBits == 64 && ins.toBits == 32 && ins.src.Var? && ins.src.id in loads
  }

  // ------------------------------------------------------------------ one replacement

  lemma LoadPrefix(mem: map<Loc, byte>, l: Loc)
    ensures LeValue(ReadBytes(mem, l, 4)) == LeValue(ReadBytes(mem, l, 8)) % Pow2(32)
  {
    var long, short := ReadBytes(mem, l, 8), ReadBytes(mem, l, 4);
    BytesOfValue(long);
    BytesPrefix(LeValue(long), 4, 8);
    assert short == long[..4];
    ValueOfBytes(LeValue(long), 4);
  }

  lemma {:induction false} BytesPrefix(v: nat, n: nat, m: nat)
    requires n <= m
    ensures LeBytes(v, n) == LeBytes(v, m)[..n]
    decreases n
  {
    if n > 0 {
      BytesPrefix(v / 256, n - 1, m - 1);
    }
  }

  // The narrow load in front of the wide one holds the wide load's low half.
  lemma NarrowLoadIsTrunc(f: Alu, n: Id, x: Id, p: Id, s: State)
    requires n != p && n != x
    ensures var t := Run(f, [Load(n, 4, p), Load(x, 8, p)], s);
            && t.env.Keys == s.env.Keys + {n, x} && t.mem == s.mem
            && t.env[x].Num? && t.env[n] == Num(t.env[x].n % Pow2(32))
  {
    hide LeValue, ReadBytes, Pow2;
    var ls, lx := Load(n, 4, p), Load(x, 8, p);
    var t := Exec(f, ls, s);
    assert [ls, lx][1..] == [lx];
    RunOne(f, lx, t);
    LoadPrefix(s.mem, PtrOf(p, s.env));
    assert PtrOf(p, t.env) == PtrOf(p, s.env);
  }

  // After the trunc its value is that of the narrow load, whatever lies in between.
  lemma TruncEqualsLoad(code: seq<Ins>, l: nat, k: nat, n: Id)
    requires Ssa(code) && IdsBelow(code, n) && l < k < |code|
    requires code[l].Load? && code[l].bytes == 8
    requires code[k].Trunc? && code[k].toBits == 32 && code[k].src == Var(code[l].id)
    ensures CanReplace(code, l, k, Load(n, 4, code[l].ptr), code[k].id, n)
    ensures SameValue(code, l, k, Load(n, 4, code[l].ptr), code[k].id, n)
  {
    var ins, wide, tr := Load(n, 4, code[l].ptr), code[l], code[k];
    assert Defines(wide, wide.id) && Uses(wide, wide.ptr) && Defines(tr, tr.id);
    var a, mid := code[..l], code[l + 1..k];
    assert InsertAt(code, l, ins)[..k + 2] == a + ([ins, wide] + (mid + [tr]));
    forall j | 0 <= j < |mid|
      ensures !Defines(mid[j], n) && !Defines(mid[j], wide.id)
    {
      assert mid[j] == code[l + 1 + j];
    }
    hide Ssa, InsertAt, IdsBelow;
    LoadThenTrunc(a, wide.id, wide.ptr, mid, tr, n);
  }

  lemma LoadThenTrunc(a: seq<Ins>, x: Id, p: Id, mid: seq<Ins>, tr: Ins, n: Id)
    requires tr.Trunc? && tr.toBits == 32 && tr.src == Var(x)
    requires n != x && n != p && n != tr.id
    requires forall j :: 0 <= j < |mid| ==> !Defines(mid[j], n) && !Defines(mid[j], x)
    ensures EqualAfter(a + ([Load(n, 4, p), Load(x, 8, p)] + (mid + [tr])), tr.id, n)
  {
    hide Pow2;
    var loads := [Load(n, 4, p), Load(x, 8, p)];
    forall f: Alu, s: State
      ensures EqualIds(Run(f, a + (loads + (mid + [tr])), s), tr.id, n)
    {
      RunConcat(f, a, loads + (mid + [tr]), s);
      var s0 := Run(f, a, s);
      RunConcat(f, loads, mid + [tr], s0);
      NarrowLoadIsTrunc(f, n, x, p, s0);
      var s1 := Run(f, loads, s0);
      RunConcat(f, mid, [tr], s1);
      RunKeeps(f, mid, s1, n);
      RunKeeps(f, mid, s1, x);
      RunOne(f, tr, Run(f, mid, s1));
    }
  }

  lemma KindsAreStable(loads: set<Id>, d: Id, n: Id)
    requires d !in loads && n !in loads
    ensures Stable(TruncOf(loads), d, n) && Stable(IsLoad64(), d, n)
  {
  }

  // ------------------------------------------------------------------ the pass

  // One trunc of a load is redirected to a new narrow load.
  lemma ScanReplace(orig: seq<Ins>, n0: Id, code: seq<Ins>, n: Id, i: nat, marked: seq<Id>, l: nat)
    requires Loads64(code) == Loads64(orig)
    requires Scanning(TruncOf(Loads64(orig)), orig, n0, code, n, i, marked) && i < |code|
    requires TruncOf(Loads64(orig))(code[i]) && l < |code|
    requires code[l].Load? && code[l].bytes == 8 && code[i].src == Var(code[l].id)
    ensures var c := Subst(InsertAt(code, l, Load(n, 4, code[l].ptr)), code[i].id, n);
            && |c| == |code| + 1 && Loads64(c) == Loads64(orig)
            && Scanning(TruncOf(Loads64(orig)), orig, n0, c, n + 1, i + 2, marked + [code[i].id])
  {
    var ins, d := Load(n, 4, code[l].ptr), code[i].id;
    var loads := Loads64(orig);
    hide Scanning, Ids, Equivalent, UsedIn, Subst, InsertAt, CanReplace, SameValue, Stable;
    ScanFacts(TruncOf(loads), orig, n0, code, n, i, marked);
    DefBeforeUse(code, l, i, code[l].id);
    OneKind(code, i, IsLoad64());
    IdsAreBelow(code, n, IsLoad64());
    KindsAreStable(loads, d, n);
    TruncEqualsLoad(code, l, i, n);
    hide Ssa, IdsBelow;
    SizeAfter(code, l, ins, d, n);
    RedirectIds(code, l, ins, d, n, IsLoad64());
    ScanRedirect(TruncOf(loads), orig, n0, code, n, i, marked, l, ins, d);
  }

  class ReplaceTruncWithLoadPass {
    constructor () {}

    // Every 64-to-32 trunc of a load is gone, and only those: all other values of the original
    // function and its final memory are unchanged from every initial state.
    method Run(F: IrFunction)
      requires F.Valid()
      modifies F
      ensures F.Valid() && F.nextId >= old(F.nextId)
      ensures Redirected(TruncOf(Loads64(old(F.code))), old(F.code), old(F.nextId), F.code)
      ensures forall k, j :: 0 <= k < |F.code| && 0 <= j < |old(F.code)| ==>
                !(F.code[k].Trunc? && F.code[k].fromBits == 64 && F.code[k].toBits == 32
                  && old(F.code)[j].Load? && old(F.code)[j].bytes == 8 && F.code[k].src == Var(old(F.code)[j].id))
      ensures forall i :: 0 <= i < |old(F.code)| && !old(F.code)[i].Store? ==>
                (DefinedIn(F.code, old(F.code)[i].id) <==> !NarrowsLoad(old(F.code), old(F.code)[i].id))
    {
      hide Ssa, IdsBelow, Loads64, Equivalent, UsedIn, Scanning, Subst, InsertAt, Redirected;
      var toRemove: seq<Id> := [];
      var i: nat := 0;
      ghost var orig, n0, kind := F.code, F.nextId, TruncOf(Loads64(F.code));
      ScanStart(kind, F.code, F.nextId);
      while i < |F.code|
        invariant Scanning(kind, orig, n0, F.code, F.nextId, i, toRemove) && n0 <= F.nextId
        invariant Loads64(F.code) == Loads64(orig)
        decreases |F.code| - i
      {
        var cur := F.code[i];
        ScanFacts(kind, orig, n0, F.code, F.nextId, i, toRemove);
        if cur.Trunc? && cur.fromBits == 64 && cur.toBits == 32 && cur.src.Var? {
          LoadFound(F.code, cur.src.id);
          var l := FindDef(F.code, cur.src.id);
          if l < |F.code| && F.code[l].Load? && F.code[l].bytes == 8 {
            ScanReplace(orig, n0, F.code, F.nextId, i, toRemove, l);
            var newLoad := Load(F.nextId, 4, F.code[l].ptr);
            F.code := Subst(InsertAt(F.code, l, newLoad), cur.id, F.nextId);
            F.nextId := F.nextId + 1;
            toRemove := toRemove + [cur.id];
            i := i + 2;
            continue;
          }
        }
        ScanSkip(kind, orig, n0, F.code, F.nextId, i, toRemove);
        i := i + 1;
      }
      ScanFacts(kind, orig, n0, F.code, F.nextId, i, toRemove);
      EraseAll(F, toRemove, kind, orig, n0);
      NoTruncLeft(orig, n0, F.code);
      forall i | 0 <= i < |orig| && !orig[i].Store?
        ensures DefinedIn(F.code, orig[i].id) <==> !NarrowsLoad(orig, orig[i].id)
      {
        OnlyTruncsGone(orig, n0, F.code, i);
      }
    }
  }

  // The id is defined by a 64-to-32 trunc of an 8-byte load.
  ghost predicate NarrowsLoad(code: seq<Ins>, id: Id) {
    exists k, j :: 0 <= k < |code| && 0 <= j < |code|
      && code[k].Trunc? && code[k].id == id && code[k].fromBits == 64 && code[k].toBits == 32
      && code[j].Load? && code[j].bytes == 8 && code[k].src == Var(code[j].id)
  }

  // Which ids the pass removes.
  lemma TruncsOfLoads(code: seq<Ins>, id: Id)
    ensures id in Ids(code, TruncOf(Loads64(code))) <==> NarrowsLoad(code, id)
  {
    var kind := TruncOf(Loads64(code));
    if id in Ids(code, kind) {
      var k :| 0 <= k < |code| && !code[k].Store? && kind(code[k]) && code[k].id == id;
      var j :| 0 <= j < |code| && !code[j].Store? && IsLoad64()(code[j]) && code[j].id == code[k].src.id;
      assert code[k].src == Var(code[j].id);
    }
    if NarrowsLoad(code, id) {
      var k, j :| 0 <= k < |code| && 0 <= j < |code|
        && code[k].Trunc? && code[k].id == id && code[k].fromBits == 64 && code[k].toBits == 32
        && code[j].Load? && code[j].bytes == 8 && code[k].src == Var(code[j].id);
      assert IsLoad64()(code[j]) && code[j].id in Loads64(code);
      assert kind(code[k]);
    }
  }

  lemma NoTruncLeft(orig: seq<Ins>, n0: Id, code: seq<Ins>)
    requires Redirected(TruncOf(Loads64(orig)), orig, n0, code)
    ensures forall k, j :: 0 <= k < |code| && 0 <= j < |orig| ==>
              !(code[k].Trunc? && code[k].fromBits == 64 && code[k].toBits == 32
                && orig[j].Load? && orig[j].bytes == 8 && code[k].src == Var(orig[j].id))
  {
    var kind := TruncOf(Loads64(orig));
    forall k, j | 0 <= k < |code| && 0 <= j < |orig| && code[k].Trunc? && orig[j].Load? && orig[j].bytes == 8
                  && code[k].fromBits == 64 && code[k].toBits == 32
      ensures code[k].src != Var(orig[j].id)
    {
      assert IsLoad64()(orig[j]) && orig[j].id in Loads64(orig);
      NoneOfKind(code, k, kind);
    }
  }

  lemma OnlyTruncsGone(orig: seq<Ins>, n0: Id, code: seq<Ins>, i: nat)
    requires Redirected(TruncOf(Loads64(orig)), orig, n0, code)
    requires IdsBelow(orig, n0) && i < |orig| && !orig[i].Store?
    ensures DefinedIn(code, orig[i].id) <==> !NarrowsLoad(orig, orig[i].id)
  {
    var id := orig[i].id;
    IdBelow(orig, n0, i, id);
    TruncsOfLoads(orig, id);
    AnyIsDefined(orig, id);
    AnyIsDefined(code, id);
    assert Defines(orig[i], id);
  }

  lemma LoadFound(code: seq<Ins>, x: Id)
    requires Ssa(code)
    ensures x in Loads64(code) <==>
              FindDef(code, x) < |code| && code[FindDef(code, x)].Load? && code[FindDef(code, x)].bytes == 8
  {
    FoundKind(code, x, IsLoad64());
  }
}
