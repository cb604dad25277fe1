/** Per-block snapshots of lifter/lifterClass_concolic.hpp, with the InstructionCache of
    lifter/lifterClass.hpp as a mutable object that is copied deeply. */
module SnapshotSpec {
  import opened Ints

  // An IR value: its width in bits is all that matters here.  NULL_VALUE is the null pointer.
  datatype Value = Plain(id: nat, width: nat) | TruncatedToBit(of: Value)

  const NULL_VALUE := Plain(0, 0)

  function Width(v: Value): nat {
    if v.Plain? then v.width else 1
  }

  // What set_flag stores: a wider value is truncated to one bit first.
  function AsFlag(v: Value): (r: Value)
    ensures Width(r) <= 1 && (Width(v) <= 1 ==> r == v) && (Width(v) > 1 ==> r == TruncatedToBit(v))
  {
    if Width(v) > 1 then TruncatedToBit(v) else v
  }

  type Block = nat
  type Address = nat

  const OPCODES := 100
  const REGISTER_COUNT := 17
  const FLAGS_END := 12

  datatype Key = Key(operand1: Value, operand2: Value)

  datatype ByteReference = ByteReference(value: Value, byteOffset: nat)

  type CacheMap = map<Key, Value>

  // What a backup point captures.
  datatype View = View(
    vec: seq<Value>,
    vecflag: seq<Value>,
    buffer: map<Address, ByteReference>,
    cache: seq<CacheMap>,
    assumptions: map<Value, nat>,
    counter: uint32)

  predicate WellSized(v: View) {
    |v.vec| == REGISTER_COUNT && |v.vecflag| == FLAGS_END && |v.cache| == OPCODES
  }

  // The live state and the states saved for blocks, as plain values.
  datatype Snapshots = Snapshots(live: View, saved: map<Block, View>)

  datatype Step =
    | SetRegister(index: nat, value: Value)
    | SetFlag(index: nat, value: Value)
    | SetBuffer(address: Address, ref: ByteReference)
    | Insert(opcode: nat, key: Key, value: Value)
    | Suppose(condition: Value, bit: nat)
    | Count
    | Backup(bb: Block)
    | Load(bb: Block)

  // Register, flag and opcode indices are in range in the source.
  predicate InRange(step: Step) {
    match step
    case SetRegister(i, _) => i < REGISTER_COUNT
    case SetFlag(i, _) => i < FLAGS_END
    case Insert(o, _, _) => o < OPCODES
    case _ => true
  }

  function Apply(step: Step, s: Snapshots): (r: Snapshots)
    requires InRange(step) && WellSized(s.live) && forall b :: b in s.saved ==> WellSized(s.saved[b])
    ensures WellSized(r.live) && forall b :: b in r.saved ==> WellSized(r.saved[b])
  {
    var v := s.live;
    match step
    case SetRegister(i, x) => s.(live := v.(vec := v.vec[i := x]))
    case SetFlag(i, x) => s.(live := v.(vecflag := v.vecflag[i := AsFlag(x)]))
    case SetBuffer(a, ref) => s.(live := v.(buffer := v.buffer[a := ref]))
    case Insert(o, key, x) => s.(live := v.(cache := v.cache[o := v.cache[o][key := x]]))
    case Suppose(c, bit) => s.(live := v.(assumptions := v.assumptions[c := bit]))
    case Count => s.(live := v.(counter := (v.counter + 1) % TWO_TO_THE_32))
    case Backup(bb) => s.(saved := s.saved[bb := v])
    case Load(bb) => if bb in s.saved then s.(live := s.saved[bb]) else s
  }

  ghost predicate Sized(s: Snapshots) {
    WellSized(s.live) && forall b :: b in s.saved ==> WellSized(s.saved[b])
  }

  function ApplyAll(steps: seq<Step>, s: Snapshots): (r: Snapshots)
    requires Sized(s) && forall k :: 0 <= k < |steps| ==> InRange(steps[k])
    ensures Sized(r)
    decreases |steps|
  {
    if steps == [] then s else Apply(steps[|steps| - 1], ApplyAll(steps[..|steps| - 1], s))
  }

  // The steps take effect in their order.
  lemma {:induction false} AppliedInOrder(first: Step, rest: seq<Step>, s: Snapshots)
    requires Sized(s) && InRange(first) && forall k :: 0 <= k < |rest| ==> InRange(rest[k])
    ensures ApplyAll([first] + rest, s) == ApplyAll(rest, Apply(first, s))
    decreases |rest|
  {
    var steps := [first] + rest;
    if rest == [] {
      assert steps == [first] && steps[..0] == [];
      assert ApplyAll(steps[..0], s) == s;
    } else {
      var n := |rest| - 1;
      AppliedInOrder(first, rest[..n], s);
      assert steps[..|steps| - 1] == [first] + rest[..n] && steps[|steps| - 1] == rest[n];
    }
  }

  // Flags are at most one bit wide.
  ghost predicate FlagsAreBits(v: View) {
    forall i :: 0 <= i < |v.vecflag| ==> Width(v.vecflag[i]) <= 1
  }

  lemma StepKeepsBits(step: Step, s: Snapshots)
    requires Sized(s) && InRange(step)
    requires FlagsAreBits(s.live) && forall bb :: bb in s.saved ==> FlagsAreBits(s.saved[bb])
    ensures var r := Apply(step, s); FlagsAreBits(r.live) && forall bb :: bb in r.saved ==> FlagsAreBits(r.saved[bb])
  {
  }

  // In every run, the live flags and all saved ones stay at most one bit wide.
  lemma {:induction false} FlagsStayBits(steps: seq<Step>, s: Snapshots)
    requires Sized(s) && forall k :: 0 <= k < |steps| ==> InRange(steps[k])
    requires FlagsAreBits(s.live) && forall bb :: bb in s.saved ==> FlagsAreBits(s.saved[bb])
    ensures var r := ApplyAll(steps, s);
            FlagsAreBits(r.live) && forall bb :: bb in r.saved ==> FlagsAreBits(r.saved[bb])
    decreases steps
  {
    if steps != [] {
      hide FlagsAreBits;
      FlagsStayBits(steps[..|steps| - 1], s);
      StepKeepsBits(steps[|steps| - 1], ApplyAll(steps[..|steps| - 1], s));
    }
  }

  // A saved state only changes when its block is backed up again.
  lemma {:induction false} SavedStays(steps: seq<Step>, s: Snapshots, bb: Block)
    requires Sized(s) && forall k :: 0 <= k < |steps| ==> InRange(steps[k])
    requires bb in s.saved && Backup(bb) !in steps
    ensures var r := ApplyAll(steps, s); bb in r.saved && r.saved[bb] == s.saved[bb]
    decreases |steps|
  {
    if steps != [] {
      SavedStays(steps[..|steps| - 1], s, bb);
      assert steps[|steps| - 1] in steps;
    }
  }

  // Loading a block's snapshot restores the live state of its most recent backup, whatever ran in
  // between.
  lemma LoadRestores(steps: seq<Step>, s: Snapshots, bb: Block)
    requires Sized(s) && forall k :: 0 <= k < |steps| ==> InRange(steps[k])
    requires Backup(bb) !in steps
    ensures Apply(Load(bb), ApplyAll(steps, Apply(Backup(bb), s))).live == s.live
  {
    SavedStays(steps, Apply(Backup(bb), s), bb);
  }

  // A block that was never backed up keeps the live state on load.
  lemma {:induction false} LoadWithoutBackup(steps: seq<Step>, s: Snapshots, bb: Block)
    requires Sized(s) && forall k :: 0 <= k < |steps| ==> InRange(steps[k])
    requires bb !in s.saved && Backup(bb) !in steps
    ensures var r := ApplyAll(steps, s); bb !in r.saved && Apply(Load(bb), r) == r
    decreases |steps|
  {
    if steps != [] {
      LoadWithoutBackup(steps[..|steps| - 1], s, bb);
      assert steps[|steps| - 1] in steps;
    }
  }
}

module Snapshot {
  import opened Ints
  import opened SnapshotSpec

  class InstructionCache {
    const opcodeCaches: array<CacheMap>

    ghost predicate Valid() {
      opcodeCaches.Length == OPCODES
    }

    constructor ()
      ensures Valid() && fresh(opcodeCaches)
      ensures opcodeCaches[..] == seq(OPCODES, _ => map[])
    {
      opcodeCaches := new CacheMap[OPCODES](_ => map[]);
    }

    // Copies each map on its own: the new cache shares nothing with the other one.
    constructor Copy(other: InstructionCache)
      requires other.Valid()
      ensures Valid() && fresh(opcodeCaches)
      ensures opcodeCaches[..] == other.opcodeCaches[..]
    {
      var caches := new CacheMap[OPCODES](_ => map[]);
      for i := 0 to OPCODES
        invariant forall k :: 0 <= k < i ==> caches[k] == other.opcodeCaches[k]
      {
        caches[i] := other.opcodeCaches[i];
      }
      opcodeCaches := caches;
    }

    method Insert(opcode: nat, key: Key, value: Value)
      requires Valid() && opcode < OPCODES
      modifies opcodeCaches
      ensures opcodeCaches[..] == old(opcodeCaches[..])[opcode := old(opcodeCaches[opcode])[key := value]]
    {
      opcodeCaches[opcode] := opcodeCaches[opcode][key := value];
    }

    // found is false for a null result.
    method Lookup(opcode: nat, key: Key) returns (found: bool, value: Value)
      requires Valid() && opcode < OPCODES
      ensures found <==> key in opcodeCaches[opcode]
      ensures found ==> value == opcodeCaches[opcode][key]
    {
      found, value := false, NULL_VALUE;
      if key in opcodeCaches[opcode] {
        found, value := true, opcodeCaches[opcode][key];
      }
    }

    // operator=
    method Assign(other: InstructionCache)
      requires Valid() && other.Valid()
      requires other != this ==> other.opcodeCaches != opcodeCaches
      modifies opcodeCaches
      ensures opcodeCaches[..] == old(other.opcodeCaches[..])
    {
      if other == this {
        return;
      }
      for i := 0 to OPCODES
        invariant forall k :: 0 <= k < i ==> opcodeCaches[k] == other.opcodeCaches[k]
      {
        opcodeCaches[i] := other.opcodeCaches[i];
      }
    }
  }

  datatype BackupPoint = BackupPoint(
    vec: seq<Value>,
    vecflag: seq<Value>,
    buffer: map<Address, ByteReference>,
    cache: InstructionCache,
    assumptions: map<Value, nat>,
    ct: uint32)

  class LifterConcolic {
    const vec: array<Value>
    const vecflag: array<Value>
    var buffer: map<Address, ByteReference>
    const cache: InstructionCache
    var assumptions: map<Value, nat>
    var counter: uint32
    var BBbackup: map<Block, BackupPoint>
    ghost var saved: map<Block, View>     // the captured states as values

    ghost function BackupCaches(): set<object>
      reads this
    {
      set bb | bb in BBbackup :: BBbackup[bb].cache.opcodeCaches
    }

    // The stored point still holds the captured value.
    ghost predicate Holds(bb: Block)
      requires bb in BBbackup
      reads this, BBbackup[bb].cache.opcodeCaches
    {
      var b := BBbackup[bb];
      && bb in saved
      && b.cache.Valid()
      && b.cache.opcodeCaches != cache.opcodeCaches
      && saved[bb] == View(b.vec, b.vecflag, b.buffer, b.cache.opcodeCaches[..], b.assumptions, b.ct)
      && WellSized(saved[bb])
    }

    ghost predicate Valid()
      reads this, vec, vecflag, cache.opcodeCaches, BackupCaches()
    {
      && vec != vecflag && vec.Length == REGISTER_COUNT && vecflag.Length == FLAGS_END
      && cache.Valid()
      && saved.Keys == BBbackup.Keys
      && forall bb :: bb in BBbackup ==> Holds(bb)
    }

    ghost function Live(): View
      reads this, vec, vecflag, cache.opcodeCaches
    {
      View(vec[..], vecflag[..], buffer, cache.opcodeCaches[..], assumptions, counter)
    }

    ghost function State(): Snapshots
      reads this, vec, vecflag, cache.opcodeCaches
    {
      Snapshots(Live(), saved)
    }

    constructor ()
      ensures Valid() && saved == map[]
      ensures fresh(vec) && fresh(vecflag) && fresh(cache.opcodeCaches)
    {
      vec := new Value[REGISTER_COUNT](_ => NULL_VALUE);
      vecflag := new Value[FLAGS_END](_ => NULL_VALUE);
      buffer, assumptions, counter, BBbackup, saved := map[], map[], 0, map[], map[];
      cache := new InstructionCache();
    }

    method SetRegister(index: nat, value: Value)
      requires Valid() && index < REGISTER_COUNT
      modifies vec
      ensures Valid() && State() == Apply(Step.SetRegister(index, value), old(State()))
      ensures saved == old(saved) && Live() == old(Live()).(vec := old(vec[..])[index := value])
    {
      vec[index] := value;
    }

    method SetFlag(index: nat, value: Value)
      requires Valid() && index < FLAGS_END
      modifies vecflag
      ensures Valid() && State() == Apply(Step.SetFlag(index, value), old(State()))
      ensures saved == old(saved)
      ensures Live() == old(Live()).(vecflag :=
                old(vecflag[..])[index := if Width(value) > 1 then TruncatedToBit(value) else value])
    {
      vecflag[index] := if Width(value) > 1 then TruncatedToBit(value) else value;
    }

    method SetBuffer(address: Address, ref: ByteReference)
      requires Valid()
      modifies `buffer
      ensures Valid() && State() == Apply(Step.SetBuffer(address, ref), old(State()))
      ensures saved == old(saved) && Live() == old(Live()).(buffer := old(buffer)[address := ref])
    {
      buffer := buffer[address := ref];
    }

    method InsertCached(opcode: nat, key: Key, value: Value)
      requires Valid() && opcode < OPCODES
      modifies cache.opcodeCaches
      ensures Valid() && State() == Apply(Insert(opcode, key, value), old(State()))
      ensures saved == old(saved)
      ensures var was := old(cache.opcodeCaches[..]);
              Live() == old(Live()).(cache := was[opcode := was[opcode][key := value]])
    {
      cache.Insert(opcode, key, value);
    }

    method Suppose(condition: Value, bit: nat)
      requires Valid()
      modifies `assumptions
      ensures Valid() && State() == Apply(Step.Suppose(condition, bit), old(State()))
      ensures saved == old(saved) && Live() == old(Live()).(assumptions := old(assumptions)[condition := bit])
    {
      assumptions := assumptions[condition := bit];
    }

    method Count()
      requires Valid()
      modifies `counter
      ensures Valid() && State() == Apply(Step.Count, old(State()))
      ensures saved == old(saved) && Live() == old(Live()).(counter := (old(counter) + 1) % TWO_TO_THE_32)
    {
      counter := (counter + 1) % TWO_TO_THE_32;
    }

    // The point gets its own copy of the instruction cache.
    method BranchBackup(bb: Block)
      requires Valid()
      modifies `BBbackup, `saved
      ensures Valid() && State() == Apply(Backup(bb), old(State()))
      ensures Live() == old(Live()) && saved == old(saved)[bb := old(Live())]
    {
      var copy := new InstructionCache.Copy(cache);
      BBbackup := BBbackup[bb := BackupPoint(vec[..], vecflag[..], buffer, copy, assumptions, counter)];
      saved := saved[bb := Live()];
    }

    // The live cache is overwritten with the point's contents; the point keeps its own maps.
    method LoadBackup(bb: Block)
      requires Valid()
      modifies `buffer, `assumptions, `counter, vec, vecflag, cache.opcodeCaches
      ensures Valid() && State() == Apply(Load(bb), old(State()))
      ensures saved == old(saved) && Live() == if bb in saved then saved[bb] else old(Live())
    {
      if bb in BBbackup {
        assert Holds(bb);
        var point := BBbackup[bb];
        RestoreRegisters(point.vec, point.vecflag);
        buffer := point.buffer;
        cache.Assign(point.cache);
        assumptions := point.assumptions;
        counter := point.ct;
      }
    }

    method RestoreRegisters(registers: seq<Value>, flags: seq<Value>)
      requires vec != vecflag
      requires |registers| == vec.Length && |flags| == vecflag.Length
      modifies vec, vecflag
      ensures vec[..] == registers && vecflag[..] == flags
    {
      forall i | 0 <= i < vec.Length {
        vec[i] := registers[i];
      }
      forall i | 0 <= i < vecflag.Length {
        vecflag[i] := flags[i];
      }
    }

    // Any interleaving of state changes, backups and loads behaves like plain values.
    method Replay(steps: seq<Step>)
      requires Valid() && forall k :: 0 <= k < |steps| ==> InRange(steps[k])
      modifies this, vec, vecflag, cache.opcodeCaches
      ensures Valid() && State() == ApplyAll(steps, old(State()))
    {
      for k := 0 to |steps|
        invariant Valid() && State() == ApplyAll(steps[..k], old(State()))
      {
        assert steps[..k + 1][..k] == steps[..k];
        match steps[k]
        case SetRegister(i, x) => SetRegister(i, x);
        case SetFlag(i, x) => SetFlag(i, x);
        case SetBuffer(a, ref) => SetBuffer(a, ref);
        case Insert(o, key, x) => InsertCached(o, key, x);
        case Suppose(c, bit) => Suppose(c, bit);
        case Count => Count();
        case Backup(bb) => BranchBackup(bb);
        case Load(bb) => LoadBackup(bb);
      }
      assert steps[..|steps|] == steps;
    }
  }
}
