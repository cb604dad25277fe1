/** Exactly which accesses the stack promotion of lifter/CustomPasses.hpp handles right: those that
    no store and load can tell from the original. */
module PromoteProbes {
  import opened Bits
  import opened Ints
  import opened Ir
  import opened Includes
  import opened PromotePass

  // The one id a probe finds in its initial environment.
  const GIVEN: Id := 3

  function Given(c: nat): State {
    State(map[GIVEN := Num(c)], map[])
  }

  // Store m bytes of v through one offset, then load n bytes through another.
  function Probe(b0: Base, first: Offset, m: nat, v: nat, b1: Base, second: Offset, n: nat): seq<Ins> {
    [ Gep(0, b0, first),
      Store(m, 0, Const(v)),
      Gep(1, b1, second),
      Load(2, n, 1) ]
  }

  // A store of n bytes through the offset in question, read back at one byte.
  function StoreProbe(off: Offset, n: nat, v: nat, b: nat): seq<Ins> {
    Probe(MemoryArgument, off, n, v, MemoryArgument, Fixed(b), 1)
  }

  // A load of n bytes through the offset in question, after a store of one byte.
  function LoadProbe(off: Offset, n: nat, b: nat): seq<Ins> {
    Probe(MemoryArgument, Fixed(b), 1, 1, MemoryArgument, off, n)
  }

  function Loaded(f: Alu, code: seq<Ins>, c: nat): Val {
    var t := Run(f, code, Given(c));
    if 2 in t.env then t.env[2] else Num(0)
  }

  predicate FromGiven(off: Offset) {
    match off
    case Fixed(_) => true
    case Select(c, _, _) => c.Const? || c == Var(GIVEN)
    case Other(id) => id == GIVEN
  }

  function Address(off: Offset, c: nat): nat {
    EvalOffset(off, Given(c).env) % TWO_TO_THE_64
  }

  lemma RunFour(f: Alu, i0: Ins, i1: Ins, i2: Ins, i3: Ins, s: State)
    ensures Run(f, [i0, i1, i2, i3], s) == Exec(f, i3, Exec(f, i2, Exec(f, i1, Exec(f, i0, s))))
  {
    hide Exec;
    var s2 := Exec(f, i2, Exec(f, i1, Exec(f, i0, s)));
    assert [i0, i1, i2, i3][1..] == [i1, i2, i3] && [i1, i2, i3][1..] == [i2, i3] && [i2, i3][1..] == [i3];
    RunOne(f, i3, s2);
    assert Run(f, [i2, i3], Exec(f, i1, Exec(f, i0, s))) == Run(f, [i3], s2);
    assert Run(f, [i1, i2, i3], Exec(f, i0, s)) == Run(f, [i3], s2);
  }

  // What a probe loads, by where its two GEPs point.
  lemma ProbeRuns(f: Alu, b0: Base, first: Offset, m: nat, v: nat, b1: Base, second: Offset, n: nat, c: nat)
    requires FromGiven(first) && FromGiven(second)
    ensures var l0, l1 := Loc(SpaceOf(b0), Address(first, c)), Loc(SpaceOf(b1), Address(second, c));
            Loaded(f, Probe(b0, first, m, v, b1, second, n), c)
            == Num(LeValue(ReadBytes(WriteBytes(map[], l0, LeBytes(v, m)), l1, n)))
  {
    hide LeValue, LeBytes, ReadBytes, WriteBytes;
    var i0, i1, i2, i3 := Gep(0, b0, first), Store(m, 0, Const(v)), Gep(1, b1, second), Load(2, n, 1);
    RunFour(f, i0, i1, i2, i3, Given(c));
    hide Run;
    var l0, l1 := Loc(SpaceOf(b0), Address(first, c)), Loc(SpaceOf(b1), Address(second, c));
    var s0 := Exec(f, i0, Given(c));
    var s1 := Exec(f, i1, s0);
    var s2 := Exec(f, i2, s1);
    assert s0.env[0] == Ptr(l0) && s0.mem == map[];
    assert s1.mem == WriteBytes(map[], l0, LeBytes(v, m));
    assert EvalOffset(second, s1.env) == EvalOffset(second, Given(c).env);
    assert s2.env[1] == Ptr(l1) && s2.mem == s1.mem;
    assert PtrOf(1, s2.env) == l1;
    LoadResult(f, 2, n, 1, s2);
    assert Probe(b0, first, m, v, b1, second, n) == [i0, i1, i2, i3];
  }

  lemma LoadResult(f: Alu, id: Id, n: nat, p: Id, s: State)
    ensures var t := Exec(f, Load(id, n, p), s);
            id in t.env && t.env[id] == Num(LeValue(ReadBytes(s.mem, PtrOf(p, s.env), n)))
  {
  }

  // A byte after a write: the written one if its address lies in the window, else the old one.
  lemma {:induction false} WrittenByte(mem: map<Loc, byte>, l: Loc, bs: seq<byte>, q: Loc)
    requires l.addr < TWO_TO_THE_64 && q.addr < TWO_TO_THE_64 && |bs| <= TWO_TO_THE_64
    ensures var i := (q.addr - l.addr) % TWO_TO_THE_64;
            ByteOf(WriteBytes(mem, l, bs), q) == if q.space == l.space && i < |bs| then bs[i] else ByteOf(mem, q)
    decreases |bs|
  {
    if bs != [] {
      var n := |bs| - 1;
      WrittenByte(mem, l, bs[..n], q);
      WindowOffset(l.addr, q.addr, n);
      hide Shifted;
      assert Shifted(l, n) == q <==> q.space == l.space && (q.addr - l.addr) % TWO_TO_THE_64 == n by {
        ShiftedIn(l, n);
      }
    }
  }

  lemma ReadOne(mem: map<Loc, byte>, l: Loc)
    requires l.addr < TWO_TO_THE_64
    ensures LeValue(ReadBytes(mem, l, 1)) == ByteOf(mem, l)
  {
    var bs := ReadBytes(mem, l, 1);
    assert bs == [ByteOf(mem, l)] && bs[1..] == [];
  }

  function Side(off: Offset, known: Known): Base {
    if Promotes(off, known) then StackMemory else MemoryArgument
  }

  lemma ProbePromoted(first: Offset, m: nat, v: nat, second: Offset, n: nat, known: Known)
    ensures Promote(Probe(MemoryArgument, first, m, v, MemoryArgument, second, n), known)
            == Probe(Side(first, known), first, m, v, Side(second, known), second, n)
  {
  }

  // Byte i of the value comes back at the i-th address, and after promotion only if the offset was
  // put on the side of that address.
  lemma StoreProbeLoads(f: Alu, off: Offset, n: nat, v: nat, b: nat, c: nat, known: Known)
    requires FromGiven(off) && n <= TWO_TO_THE_64 && b < TWO_TO_THE_64
    ensures var i := (b - Address(off, c)) % TWO_TO_THE_64;
            && Loaded(f, StoreProbe(off, n, v, b), c) == Num(if i < n then LeBytes(v, n)[i] else 0)
            && Loaded(f, Promote(StoreProbe(off, n, v, b), known), c)
               == Num(if i < n && (Promotes(off, known) <==> b < STACKP_VALUE) then LeBytes(v, n)[i] else 0)
  {
    hide Promote, Probe, Promotes, Loaded, LeBytes, LeValue, ReadBytes, WriteBytes;
    ProbePromoted(off, n, v, Fixed(b), 1, known);
    StoredByte(f, MemoryArgument, MemoryArgument, off, n, v, b, c);
    StoredByte(f, Side(off, known), Side(Fixed(b), known), off, n, v, b, c);
    assert Promotes(Fixed(b), known) <==> b < STACKP_VALUE by { FixedDecision(b, known); }
  }

  lemma FixedDecision(b: nat, known: Known)
    ensures Promotes(Fixed(b), known) <==> b < STACKP_VALUE
  {
  }

  lemma StoredByte(f: Alu, b0: Base, b1: Base, off: Offset, n: nat, v: nat, b: nat, c: nat)
    requires FromGiven(off) && n <= TWO_TO_THE_64 && b < TWO_TO_THE_64
    ensures var i := (b - Address(off, c)) % TWO_TO_THE_64;
            Loaded(f, Probe(b0, off, n, v, b1, Fixed(b), 1), c)
            == Num(if i < n && b0 == b1 then LeBytes(v, n)[i] else 0)
  {
    hide Loaded, Probe, LeBytes, LeValue, ReadBytes, WriteBytes, Address;
    ProbeRuns(f, b0, off, n, v, b1, Fixed(b), 1, c);
    FixedAddress(b, c);
    AddressInRange(off, c);
    var l0, l1 := Loc(SpaceOf(b0), Address(off, c)), Loc(SpaceOf(b1), b);
    WrittenByte(map[], l0, LeBytes(v, n), l1);
    ReadOne(WriteBytes(map[], l0, LeBytes(v, n)), l1);
  }

  // The pass puts the offset on the side of every byte of the access.
  ghost predicate RightSide(off: Offset, n: nat, known: Known, c: nat) {
    forall i :: 0 <= i < n ==>
      (Promotes(off, known) <==> Shifted(Loc(Absolute, Address(off, c)), i).addr < STACKP_VALUE)
  }

  // No store through the offset, read back at any byte, shows the promotion.
  ghost predicate StoresAgree(f: Alu, off: Offset, n: nat, known: Known, c: nat) {
    forall v: nat, b: nat :: b < TWO_TO_THE_64 ==>
      Loaded(f, StoreProbe(off, n, v, b), c) == Loaded(f, Promote(StoreProbe(off, n, v, b), known), c)
  }

  lemma WindowOffset(a: nat, b: nat, i: nat)
    requires a < TWO_TO_THE_64 && b < TWO_TO_THE_64 && i < TWO_TO_THE_64
    ensures (b - a) % TWO_TO_THE_64 == i <==> Shifted(Loc(Absolute, a), i).addr == b
  {
  }

  lemma StoreProbesDecide(f: Alu, off: Offset, n: nat, known: Known, c: nat)
    requires FromGiven(off) && n <= TWO_TO_THE_64
    ensures RightSide(off, n, known, c) <==> StoresAgree(f, off, n, known, c)
  {
    hide Loaded, Promotes, Promote, StoreProbe, Pow2, LeBytes, Address, Shifted;
    var a := Address(off, c);
    AddressInRange(off, c);
    if RightSide(off, n, known, c) {
      forall v: nat, b: nat | b < TWO_TO_THE_64
        ensures Loaded(f, StoreProbe(off, n, v, b), c) == Loaded(f, Promote(StoreProbe(off, n, v, b), known), c)
      {
        StoreProbeLoads(f, off, n, v, b, c, known);
        WindowOffset(a, b, (b - a) % TWO_TO_THE_64);
      }
    } else {
      var i :| 0 <= i < n && (Promotes(off, known) != (Shifted(Loc(Absolute, a), i).addr < STACKP_VALUE));
      var b := Shifted(Loc(Absolute, a), i).addr;
      ShiftedInRange(a, i);
      WindowOffset(a, b, i);
      StoreProbeLoads(f, off, n, Pow2(8 * i), b, c, known);
      ByteOfPower(i, n);
    }
  }

  lemma ShiftedIn(l: Loc, n: nat)
    ensures Shifted(l, n) == Loc(l.space, Shifted(Loc(Absolute, l.addr), n).addr)
  {
  }

  lemma ShiftedInRange(a: nat, i: nat)
    ensures Shifted(Loc(Absolute, a), i).addr < TWO_TO_THE_64
  {
  }

  lemma ByteOfPower(i: nat, n: nat)
    requires i < n
    ensures LeBytes(Pow2(8 * i), n)[i] == 1
  {
    hide Pow2, LeBytes;
    ByteAt(Pow2(8 * i), n, i);
    ModUnique(Pow2(8 * i), Pow2(8 * i), 1, 0);
  }

  lemma AddressInRange(off: Offset, c: nat)
    ensures Address(off, c) < TWO_TO_THE_64
  {
  }

  // Byte i of the load is the stored 1 if the i-th address is the stored one.
  lemma LoadedBytes(f: Alu, b0: Base, b1: Base, off: Offset, n: nat, b: nat, c: nat) returns (bs: seq<byte>)
    requires FromGiven(off) && b < TWO_TO_THE_64
    ensures Loaded(f, Probe(b0, Fixed(b), 1, 1, b1, off, n), c) == Num(LeValue(bs)) && |bs| == n
    ensures forall i :: 0 <= i < n ==>
              bs[i] == if b0 == b1 && Shifted(Loc(Absolute, Address(off, c)), i).addr == b then 1 else 0
  {
    ProbeRuns(f, b0, Fixed(b), 1, 1, b1, off, n, c);
    assert LeBytes(0, 0) == [] && LeBytes(1, 1) == [1];
    hide Loaded, LeBytes, LeValue, WriteBytes, Address;
    var l0, l1 := Loc(SpaceOf(b0), b), Loc(SpaceOf(b1), Address(off, c));
    assert Address(Fixed(b), c) == b by { FixedAddress(b, c); }
    var mem := WriteBytes(map[], l0, [1]);
    bs := ReadBytes(mem, l1, n);
    forall i | 0 <= i < n
      ensures bs[i] == if b0 == b1 && Shifted(Loc(Absolute, Address(off, c)), i).addr == b then 1 else 0
    {
      WrittenByte(map[], l0, [1], Shifted(l1, i));
    }
  }

  lemma FixedAddress(b: nat, c: nat)
    requires b < TWO_TO_THE_64
    ensures Address(Fixed(b), c) == b
  {
  }

  // No load through the offset, after a store at any byte, shows the promotion.
  ghost predicate LoadsAgree(f: Alu, off: Offset, n: nat, known: Known, c: nat) {
    forall b: nat :: b < TWO_TO_THE_64 ==>
      Loaded(f, LoadProbe(off, n, b), c) == Loaded(f, Promote(LoadProbe(off, n, b), known), c)
  }

  lemma LoadProbeDecides(f: Alu, off: Offset, n: nat, known: Known, c: nat, b: nat)
    requires FromGiven(off) && b < TWO_TO_THE_64
    ensures Loaded(f, LoadProbe(off, n, b), c) == Loaded(f, Promote(LoadProbe(off, n, b), known), c) <==>
              forall i :: 0 <= i < n && Shifted(Loc(Absolute, Address(off, c)), i).addr == b ==>
                (Promotes(off, known) <==> b < STACKP_VALUE)
  {
    hide Loaded, Promotes, Promote, Probe, Address, LeValue;
    var l := Loc(Absolute, Address(off, c));
    ProbePromoted(Fixed(b), 1, 1, off, n, known);
    FixedDecision(b, known);
    var x := LoadedBytes(f, MemoryArgument, MemoryArgument, off, n, b, c);
    var y := LoadedBytes(f, Side(Fixed(b), known), Side(off, known), off, n, b, c);
    BytesOfValue(x);
    BytesOfValue(y);
    if i :| 0 <= i < n && Shifted(l, i).addr == b && !(Promotes(off, known) <==> b < STACKP_VALUE) {
      assert x[i] != y[i];
    } else {
      assert x == y;
    }
  }

  lemma LoadProbesDecide(f: Alu, off: Offset, n: nat, known: Known, c: nat)
    requires FromGiven(off)
    ensures RightSide(off, n, known, c) <==> LoadsAgree(f, off, n, known, c)
  {
    hide Loaded, Promotes, Promote, LoadProbe, Address, Shifted;
    var l := Loc(Absolute, Address(off, c));
    forall b: nat | b < TWO_TO_THE_64 && RightSide(off, n, known, c)
      ensures Loaded(f, LoadProbe(off, n, b), c) == Loaded(f, Promote(LoadProbe(off, n, b), known), c)
    {
      LoadProbeDecides(f, off, n, known, c, b);
    }
    forall i | 0 <= i < n && LoadsAgree(f, off, n, known, c)
      ensures Promotes(off, known) <==> Shifted(l, i).addr < STACKP_VALUE
    {
      ShiftedInRange(l.addr, i);
      LoadProbeDecides(f, off, n, known, c, Shifted(l, i).addr);
    }
  }

  // An offset made of constants, and what makes an access of n bytes through it safe.
  predicate OfConstants(off: Offset) {
    match off
    case Fixed(v) => v < TWO_TO_THE_64
    case Select(c, t, e) => c == Var(GIVEN) && t < TWO_TO_THE_64 && e < TWO_TO_THE_64
    case Other(_) => false
  }

  ghost predicate ArmsOnOneSide(off: Offset, n: nat) {
    forall o: nat :: IsArm(off, o) ==> OneSide(Loc(Absolute, o), n)
  }

  lemma RightSideIffSafe(off: Offset, n: nat, known: Known)
    requires OfConstants(off)
    ensures (forall c: nat :: RightSide(off, n, known, c)) <==> n == 0 || (OffsetSafe(off) && ArmsOnOneSide(off, n))
  {
    match off
    case Fixed(v) =>
      FixedDecision(v, known);
      OneArm(off, n, known, v, 0);
      assert forall c: nat :: Address(off, c) == Address(off, 0);
      assert RightSide(off, n, known, 0) ==> forall c: nat :: RightSide(off, n, known, c);
      assert IsArm(off, v);
    case Select(g, t, e) =>
      SelectDecision(g, t, e, known);
      OneArm(off, n, known, t, 1);
      OneArm(off, n, known, e, 0);
      forall c: nat
        ensures RightSide(off, n, known, c) == RightSide(off, n, known, if c != 0 then 1 else 0)
      {
        assert Address(off, c) == Address(off, if c != 0 then 1 else 0);
      }
      assert IsArm(off, t) && IsArm(off, e);
  }

  lemma OneArm(off: Offset, n: nat, known: Known, o: nat, c: nat)
    requires Address(off, c) == o
    ensures RightSide(off, n, known, c) <==>
              n == 0 || (OneSide(Loc(Absolute, o), n) && (Promotes(off, known) <==> o < STACKP_VALUE))
  {
    hide Promotes;
    var l := Loc(Absolute, o);
    assert Shifted(l, 0).addr == o;
    if RightSide(off, n, known, c) && n > 0 {
      assert Promotes(off, known) <==> Shifted(l, 0).addr < STACKP_VALUE;
    }
  }

  // An access of n bytes through a constant, or a select of constants on any condition, is handled
  // right exactly when the offset is safe and no arm's access straddles the limit.  Stores and
  // loads tell alike.
  lemma AccessSafeIffProbesAgree(f: Alu, off: Offset, n: nat, known: Known)
    requires OfConstants(off) && n <= TWO_TO_THE_64
    ensures n == 0 || (OffsetSafe(off) && ArmsOnOneSide(off, n)) <==> forall c: nat :: StoresAgree(f, off, n, known, c)
    ensures n == 0 || (OffsetSafe(off) && ArmsOnOneSide(off, n)) <==> forall c: nat :: LoadsAgree(f, off, n, known, c)
  {
    hide RightSide, OffsetSafe, ArmsOnOneSide, StoresAgree, LoadsAgree;
    RightSideIffSafe(off, n, known);
    forall c: nat
      ensures RightSide(off, n, known, c) <==> StoresAgree(f, off, n, known, c)
      ensures RightSide(off, n, known, c) <==> LoadsAgree(f, off, n, known, c)
    {
      StoreProbesDecide(f, off, n, known, c);
      LoadProbesDecide(f, off, n, known, c);
    }
  }

  // For any other value: the pass asks whether known bits give an answer, and that is right exactly
  // when they do so below the limit.
  lemma OtherSafeIffProbesAgree(f: Alu, n: nat, known: Known, c: nat)
    requires n <= TWO_TO_THE_64
    ensures var right := n == 0 || (OneSide(Loc(Absolute, c % TWO_TO_THE_64), n)
                                    && (known(GIVEN).Some? <==> c % TWO_TO_THE_64 < STACKP_VALUE));
            && (StoresAgree(f, Other(GIVEN), n, known, c) <==> right)
            && (LoadsAgree(f, Other(GIVEN), n, known, c) <==> right)
  {
    hide StoresAgree, LoadsAgree, RightSide;
    StoreProbesDecide(f, Other(GIVEN), n, known, c);
    LoadProbesDecide(f, Other(GIVEN), n, known, c);
    OneArm(Other(GIVEN), n, known, c % TWO_TO_THE_64, c);
  }

  // For a constant offset: exactly the accesses that do not straddle the limit.
  lemma FixedSafeIffOneSide(f: Alu, o: nat, n: nat, known: Known)
    requires o < TWO_TO_THE_64 && n <= TWO_TO_THE_64
    ensures OneSide(Loc(Absolute, o), n) <==> forall c: nat :: StoresAgree(f, Fixed(o), n, known, c)
    ensures OneSide(Loc(Absolute, o), n) <==> forall c: nat :: LoadsAgree(f, Fixed(o), n, known, c)
  {
    hide StoresAgree, LoadsAgree;
    AccessSafeIffProbesAgree(f, Fixed(o), n, known);
    assert IsArm(Fixed(o), o);
  }

  // For a select and single bytes: exactly the safe selects.
  lemma SelectSafeIffProbesAgree(f: Alu, t: nat, e: nat, known: Known)
    requires t < TWO_TO_THE_64 && e < TWO_TO_THE_64
    ensures SelectSafe(t, e) <==> forall c: nat :: StoresAgree(f, Select(Var(GIVEN), t, e), 1, known, c)
    ensures SelectSafe(t, e) <==> forall c: nat :: LoadsAgree(f, Select(Var(GIVEN), t, e), 1, known, c)
  {
    hide StoresAgree, LoadsAgree;
    AccessSafeIffProbesAgree(f, Select(Var(GIVEN), t, e), 1, known);
  }

  // Two addresses above the limit that share their high bits are never told apart from stack
  // offsets: the pass moves every such select to the stack.
  lemma SharedHighBitsPromoted(c: Operand, t: nat, e: nat, k: nat, known: Known)
    requires Shr(t, k) == Shr(e, k) && Pow2(k) * Shr(t, k) >= STACKP_VALUE
    ensures !SelectSafe(t, e) && Promotes(Select(c, t, e), known)
  {
    AndHighBits(t, e, k);
    AndSelf(Shr(t, k));
    AndIsBelow(t, e);
  }

  // A concrete select of two addresses of a loaded image: the pass moves it to the stack, and a
  // byte stored through it is not found again.
  lemma SelectAboveLimitPromoted(f: Alu, known: Known)
    ensures var off := Select(Var(GIVEN), 0x140001000, 0x140002000);
            && !SelectSafe(0x140001000, 0x140002000) && Promotes(off, known)
            && Loaded(f, StoreProbe(off, 1, 1, 0x140001000), 1) == Num(1)
            && Loaded(f, Promote(StoreProbe(off, 1, 1, 0x140001000), known), 1) == Num(0)
  {
    hide Promotes, Promote, Loaded, StoreProbe, SelectSafe, And, Or, Pow2, Shr;
    HighBitsOfImage(0x140001000);
    HighBitsOfImage(0x140002000);
    Pow2Of24();
    SharedHighBitsPromoted(Var(GIVEN), 0x140001000, 0x140002000, 24, known);
    StoreProbeLoads(f, Select(Var(GIVEN), 0x140001000, 0x140002000), 1, 1, 0x140001000, 1, known);
    OneByte();
  }

  lemma OneByte()
    ensures LeBytes(1, 1) == [1]
  {
    assert LeBytes(0, 0) == [];
  }

  lemma HighBitsOfImage(a: nat)
    requires 0x140000000 <= a < 0x141000000
    ensures Shr(a, 24) == 0x140
  {
    hide Shr, Pow2;
    Pow2Of24();
    ShrIsDivision(a, 24);
  }

  lemma Pow2Of24()
    ensures Pow2(24) == 0x1000000
  {
    assert Pow2(8) == 256;
    Pow2Add(8, 8);
    Pow2Add(8, 16);
  }

  // An access that straddles the limit: the upper byte of a two-byte store is lost.
  lemma StraddleBreaks(f: Alu, known: Known)
    ensures var code := StoreProbe(Fixed(STACKP_VALUE - 1), 2, 0x100, STACKP_VALUE);
            Loaded(f, code, 0) == Num(1) && Loaded(f, Promote(code, known), 0) == Num(0)
  {
    assert LeBytes(0x100, 2) == [0, 1];
    hide Promote, Loaded, StoreProbe;
    StoreProbeLoads(f, Fixed(STACKP_VALUE - 1), 2, 0x100, STACKP_VALUE, 0, known);
  }
}
