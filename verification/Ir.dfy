/** A straight-line SSA language over byte memory: what the passes of lifter/CustomPasses.hpp
    rewrite. */
module Ir {
  import opened Bits
  import opened Ints

  type Id = nat

  datatype Operand = Const(value: nat) | Var(id: Id)

  // The pointer a GEP starts from: the function's memory argument or the stack alloca.
  datatype Base = MemoryArgument | StackMemory

  // A GEP offset: a constant, a select of two constants, or any other value.
  datatype Offset =
    | Fixed(value: nat)
    | Select(cond: Operand, whenTrue: nat, whenFalse: nat)
    | Other(id: Id)

  datatype Ins =
    | Load(id: Id, bytes: nat, ptr: Id)
    | Store(bytes: nat, ptr: Id, val: Operand)
    | Trunc(id: Id, fromBits: nat, toBits: nat, src: Operand)
    | Gep(id: Id, base: Base, off: Offset)
    | IntToPtr(id: Id, off: Offset)
    | Op(id: Id, code: nat, args: seq<Operand>)

  // ------------------------------------------------------------------ meaning

  // Absolute memory, where the memory argument points to address 0, and the stack alloca.
  datatype Space = Absolute | Stack

  datatype Loc = Loc(space: Space, addr: nat)

  datatype Val = Num(n: nat) | Ptr(loc: Loc)

  datatype State = State(env: map<Id, Val>, mem: map<Loc, byte>)

  // The meaning of the instructions that are not modelled one by one.
  type Alu = (nat, seq<nat>) -> nat

  function Eval(op: Operand, env: map<Id, Val>): nat {
    match op
    case Const(v) => v
    case Var(id) => if id in env && env[id].Num? then env[id].n else 0
  }

  function EvalOffset(off: Offset, env: map<Id, Val>): nat {
    match off
    case Fixed(v) => v
    case Select(c, t, f) => if Eval(c, env) != 0 then t else f
    case Other(id) => Eval(Var(id), env)
  }

  function EvalAll(ops: seq<Operand>, env: map<Id, Val>): seq<nat> {
    seq(|ops|, i requires 0 <= i < |ops| => Eval(ops[i], env))
  }

  function ByteOf(mem: map<Loc, byte>, l: Loc): byte {
    if l in mem then mem[l] else 0
  }

  function Shifted(l: Loc, i: nat): Loc {
    Loc(l.space, (l.addr + i) % TWO_TO_THE_64)
  }

  function ReadBytes(mem: map<Loc, byte>, l: Loc, n: nat): seq<byte> {
    seq(n, i requires 0 <= i < n => ByteOf(mem, Shifted(l, i)))
  }

  function WriteBytes(mem: map<Loc, byte>, l: Loc, bs: seq<byte>): map<Loc, byte> {
    if bs == [] then mem
    else WriteBytes(mem, l, bs[..|bs| - 1])[Shifted(l, |bs| - 1) := bs[|bs| - 1]]
  }

  function PtrOf(id: Id, env: map<Id, Val>): Loc {
    if id in env && env[id].Ptr? then env[id].loc else Loc(Absolute, 0)
  }

  function SpaceOf(base: Base): Space {
    if base == MemoryArgument then Absolute else Stack
  }

  predicate Defines(ins: Ins, id: Id) {
    !ins.Store? && ins.id == id
  }

  // The value an instruction gives to its id.
  function Result(f: Alu, ins: Ins, s: State): Val
    requires !ins.Store?
  {
    match ins
    case Load(_, n, p) => Num(LeValue(ReadBytes(s.mem, PtrOf(p, s.env), n)))
    case Trunc(_, _, bits, src) => Num(Eval(src, s.env) % Pow2(bits))
    case Gep(_, base, off) => Ptr(Loc(SpaceOf(base), EvalOffset(off, s.env) % TWO_TO_THE_64))
    case IntToPtr(_, off) => Ptr(Loc(Absolute, EvalOffset(off, s.env) % TWO_TO_THE_64))
    case Op(_, code, args) => Num(f(code, EvalAll(args, s.env)))
  }

  function Exec(f: Alu, ins: Ins, s: State): State {
    if ins.Store? then
      s.(mem := WriteBytes(s.mem, PtrOf(ins.ptr, s.env), LeBytes(Eval(ins.val, s.env), ins.bytes)))
    else s.(env := s.env[ins.id := Result(f, ins, s)])
  }

  function Run(f: Alu, code: seq<Ins>, s: State): State
    decreases |code|
  {
    if code == [] then s else Run(f, code[1..], Exec(f, code[0], s))
  }

  lemma {:induction false} RunConcat(f: Alu, a: seq<Ins>, b: seq<Ins>, s: State)
    ensures Run(f, a + b, s) == Run(f, b, Run(f, a, s))
    decreases |a|
  {
    if a == [] {
      assert a + b == b;
    } else {
      assert (a + b)[1..] == a[1..] + b;
      RunConcat(f, a[1..], b, Exec(f, a[0], s));
    }
  }

  lemma RunOne(f: Alu, ins: Ins, s: State)
    ensures Run(f, [ins], s) == Exec(f, ins, s)
  {
  }

  // ------------------------------------------------------------------ uses

  predicate OperandUses(op: Operand, id: Id) {
    op == Var(id)
  }

  predicate OffsetUses(off: Offset, id: Id) {
    match off
    case Fixed(_) => false
    case Select(c, _, _) => OperandUses(c, id)
    case Other(v) => v == id
  }

  predicate Uses(ins: Ins, id: Id) {
    match ins
    case Load(_, _, p) => p == id
    case Store(_, p, v) => p == id || OperandUses(v, id)
    case Trunc(_, _, _, src) => OperandUses(src, id)
    case Gep(_, _, off) => OffsetUses(off, id)
    case IntToPtr(_, off) => OffsetUses(off, id)
    case Op(_, _, args) => Var(id) in args
  }

  predicate UsedIn(code: seq<Ins>, id: Id) {
    exists k :: 0 <= k < |code| && Uses(code[k], id)
  }

  predicate DefinedIn(code: seq<Ins>, id: Id) {
    exists k :: 0 <= k < |code| && Defines(code[k], id)
  }

  // Single assignment, and no use before or at the definition.
  ghost predicate Ssa(code: seq<Ins>) {
    && (forall i, j, id :: 0 <= i < j < |code| && Defines(code[i], id) ==> !Defines(code[j], id))
    && (forall i, j, id :: 0 <= i <= j < |code| && Defines(code[j], id) ==> !Uses(code[i], id))
  }

  ghost predicate IdsBelow(code: seq<Ins>, n: nat) {
    forall k, id: Id :: 0 <= k < |code| && (Defines(code[k], id) || Uses(code[k], id)) ==> id < n
  }

  // ------------------------------------------------------------------ agreement

  // Equal memory, and equal values except possibly for hidden ids.
  ghost predicate Agree(s: State, t: State, hidden: Id -> bool) {
    && s.mem == t.mem
    && forall id: Id :: !hidden(id) ==>
         (id in s.env <==> id in t.env) && (id in s.env ==> s.env[id] == t.env[id])
  }

  ghost predicate NoUse(code: seq<Ins>, hidden: Id -> bool) {
    forall k, id :: 0 <= k < |code| && hidden(id) ==> !Uses(code[k], id)
  }

  lemma EvalAgrees(op: Operand, s: State, t: State, hidden: Id -> bool)
    requires Agree(s, t, hidden)
    requires forall id :: hidden(id) ==> !OperandUses(op, id)
    ensures Eval(op, s.env) == Eval(op, t.env)
  {
  }

  lemma ExecAgrees(f: Alu, ins: Ins, s: State, t: State, hidden: Id -> bool)
    requires Agree(s, t, hidden)
    requires forall id :: hidden(id) ==> !Uses(ins, id)
    ensures Agree(Exec(f, ins, s), Exec(f, ins, t), hidden)
  {
    match ins
    case Load(_, _, p) =>
    case Store(_, p, v) =>
      EvalAgrees(v, s, t, hidden);
    case Trunc(_, _, _, src) =>
      EvalAgrees(src, s, t, hidden);
    case Gep(_, _, off) =>
      OffsetAgrees(off, s, t, hidden);
    case IntToPtr(_, off) =>
      OffsetAgrees(off, s, t, hidden);
    case Op(_, _, args) =>
      forall i | 0 <= i < |args|
        ensures Eval(args[i], s.env) == Eval(args[i], t.env)
      {
        assert args[i] in args;
        EvalAgrees(args[i], s, t, hidden);
      }
      assert EvalAll(args, s.env) == EvalAll(args, t.env);
  }

  lemma OffsetAgrees(off: Offset, s: State, t: State, hidden: Id -> bool)
    requires Agree(s, t, hidden)
    requires forall id :: hidden(id) ==> !OffsetUses(off, id)
    ensures EvalOffset(off, s.env) == EvalOffset(off, t.env)
  {
    match off
    case Fixed(_) =>
    case Select(c, _, _) =>
      EvalAgrees(c, s, t, hidden);
    case Other(id) =>
      EvalAgrees(Var(id), s, t, hidden);
  }

  // Code that does not use hidden ids cannot tell agreeing states apart.
  lemma {:induction false} RunAgrees(f: Alu, code: seq<Ins>, s: State, t: State, hidden: Id -> bool)
    requires Agree(s, t, hidden) && NoUse(code, hidden)
    ensures Agree(Run(f, code, s), Run(f, code, t), hidden)
    decreases |code|
  {
    if code != [] {
      ExecAgrees(f, code[0], s, t, hidden);
      RunAgrees(f, code[1..], Exec(f, code[0], s), Exec(f, code[0], t), hidden);
    }
  }

  // An id keeps its value while code does not define it.
  lemma {:induction false} RunKeeps(f: Alu, code: seq<Ins>, s: State, id: Id)
    requires forall k :: 0 <= k < |code| ==> !Defines(code[k], id)
    ensures id in Run(f, code, s).env <==> id in s.env
    ensures id in s.env ==> Run(f, code, s).env[id] == s.env[id]
    decreases |code|
  {
    if code != [] {
      RunKeeps(f, code[1..], Exec(f, code[0], s), id);
    }
  }

  // ------------------------------------------------------------------ replacing uses

  function SubstOperand(op: Operand, d: Id, n: Id): Operand {
    if op == Var(d) then Var(n) else op
  }

  function SubstOffset(off: Offset, d: Id, n: Id): Offset {
    match off
    case Fixed(_) => off
    case Select(c, t, e) => Select(SubstOperand(c, d, n), t, e)
    case Other(id) => Other(SubstId(id, d, n))
  }

  function SubstId(p: Id, d: Id, n: Id): Id {
    if p == d then n else p
  }

  function SubstIns(ins: Ins, d: Id, n: Id): Ins {
    match ins
    case Load(id, k, p) => Load(id, k, SubstId(p, d, n))
    case Store(k, p, v) => Store(k, SubstId(p, d, n), SubstOperand(v, d, n))
    case Trunc(id, k, m, src) => Trunc(id, k, m, SubstOperand(src, d, n))
    case Gep(id, base, off) => Gep(id, base, SubstOffset(off, d, n))
    case IntToPtr(id, off) => IntToPtr(id, SubstOffset(off, d, n))
    case Op(id, code, args) => Op(id, code, seq(|args|, i requires 0 <= i < |args| => SubstOperand(args[i], d, n)))
  }

  // replaceAllUsesWith
  function Subst(code: seq<Ins>, d: Id, n: Id): seq<Ins> {
    seq(|code|, k requires 0 <= k < |code| => SubstIns(code[k], d, n))
  }

  lemma SubstUnused(ins: Ins, d: Id, n: Id)
    requires !Uses(ins, d)
    ensures SubstIns(ins, d, n) == ins
  {
    if ins.Op? {
      assert forall i :: 0 <= i < |ins.args| ==> ins.args[i] in ins.args;
      assert SubstIns(ins, d, n).args == ins.args;
    }
  }

  lemma SubstUses(ins: Ins, d: Id, n: Id, id: Id)
    requires d != n
    ensures Uses(SubstIns(ins, d, n), id) <==> (id != d && Uses(ins, id)) || (id == n && Uses(ins, d))
    ensures Defines(SubstIns(ins, d, n), id) <==> Defines(ins, id)
  {
    if ins.Op? {
      var t := SubstIns(ins, d, n).args;
      forall i | 0 <= i < |t|
        ensures t[i] == SubstOperand(ins.args[i], d, n)
      {
      }
      if Var(id) in t {
        var i :| 0 <= i < |t| && t[i] == Var(id);
        assert ins.args[i] in ins.args;
      }
      if id != d && Var(id) in ins.args {
        var i :| 0 <= i < |t| && ins.args[i] == Var(id);
        assert t[i] in t;
      }
      if id == n && Var(d) in ins.args {
        var i :| 0 <= i < |t| && ins.args[i] == Var(d);
        assert t[i] in t;
      }
    }
  }

  lemma SubstExec(f: Alu, ins: Ins, s: State, d: Id, n: Id)
    requires d in s.env && n in s.env && s.env[d] == s.env[n]
    ensures Exec(f, SubstIns(ins, d, n), s) == Exec(f, ins, s)
  {
    if ins.Op? {
      var t := SubstIns(ins, d, n).args;
      assert forall i :: 0 <= i < |t| ==> Eval(t[i], s.env) == Eval(ins.args[i], s.env);
      assert EvalAll(t, s.env) == EvalAll(ins.args, s.env);
    }
  }

  // While both ids hold one value, uses of the one can be replaced by uses of the other.
  lemma {:induction false} SubstRun(f: Alu, code: seq<Ins>, s: State, d: Id, n: Id)
    requires d in s.env && n in s.env && s.env[d] == s.env[n]
    requires !DefinedIn(code, d) && !DefinedIn(code, n)
    ensures Run(f, Subst(code, d, n), s) == Run(f, code, s)
    decreases |code|
  {
    if code != [] {
      assert !Defines(code[0], d) && !Defines(code[0], n);
      SubstExec(f, code[0], s, d, n);
      assert Subst(code, d, n)[1..] == Subst(code[1..], d, n);
      var s' := Exec(f, code[0], s);
      assert s'.env[d] == s.env[d] && s'.env[n] == s.env[n];
      SubstRun(f, code[1..], s', d, n);
    }
  }
}
