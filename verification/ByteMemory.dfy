/** LoadValueFromMemByBytes and StoreValueToMemByBytes of lifter/lifterClass.hpp, in both byte
    orders; addresses wrap at 64 bits. */
module ByteMemory {
  import opened Bits
  import opened Ints

  function At(mem: map<uint64, byte>, a: uint64): byte {
    if a in mem then mem[a] else 0
  }

  function Pointer(base: uint64, i: nat): uint64 {
    (base + i) % TWO_TO_THE_64
  }

  // The count bytes from base on.
  function Window(mem: map<uint64, byte>, base: uint64, count: nat): seq<byte> {
    seq(count, i requires 0 <= i < count => At(mem, Pointer(base, i)))
  }

  predicate InWindow(base: uint64, count: nat, a: uint64) {
    (a - base) % TWO_TO_THE_64 < count
  }

  lemma PointerInWindow(base: uint64, count: nat, i: nat)
    requires i < count <= TWO_TO_THE_64
    ensures InWindow(base, count, Pointer(base, i))
  {
  }

  lemma PointersDiffer(base: uint64, i: nat, k: nat)
    requires i < k < TWO_TO_THE_64
    ensures Pointer(base, i) != Pointer(base, k)
  {
  }

  // The byte sequence that stands for a value, lowest address first.
  function Layout(little: bool, value: nat, count: nat): seq<byte> {
    if little then LeBytes(value, count) else Reversed(LeBytes(value, count))
  }

  function Meaning(little: bool, bs: seq<byte>): nat {
    if little then LeValue(bs) else LeValue(Reversed(bs))
  }

  function ByteSwapped(value: nat, count: nat): nat {
    LeValue(Reversed(LeBytes(value, count)))
  }

  // Storing and loading with one byte order truncates to count bytes; with opposite orders the
  // bytes come back reversed.
  lemma RoundTrip(store: bool, load: bool, value: nat, count: nat)
    ensures Meaning(load, Layout(store, value, count)) ==
              if store == load then value % Pow2(8 * count) else ByteSwapped(value, count)
  {
    ValueOfBytes(value, count);
    ReversedTwice(LeBytes(value, count));
  }

  // What ByteSwapped means: byte i of the result is byte count - 1 - i of the value, and swapping
  // twice only truncates.
  lemma SwapReverses(value: nat, count: nat, i: nat)
    requires i < count
    ensures LeBytes(ByteSwapped(value, count), count)[i] == LeBytes(value, count)[count - 1 - i]
    ensures ByteSwapped(ByteSwapped(value, count), count) == value % Pow2(8 * count)
  {
    var bs := LeBytes(value, count);
    BytesOfValue(Reversed(bs));
    ReversedAt(bs, i);
    ReversedTwice(bs);
    ValueOfBytes(value, count);
  }

  // The shifted and truncated byte the store writes at offset i is that byte of the layout.
  function StoreByte(little: bool, value: nat, count: nat, i: nat): byte
    requires i < count
  {
    (value / Pow2(8 * if little then i else count - 1 - i)) % 256
  }

  lemma StoreByteIsLayout(little: bool, value: nat, count: nat, i: nat)
    requires i < count
    ensures |Layout(little, value, count)| == count
    ensures StoreByte(little, value, count, i) == Layout(little, value, count)[i]
  {
    ByteAt(value, count, if little then i else count - 1 - i);
    ReversedAt(LeBytes(value, count), i);
  }

  // One round of the load: or-ing the shifted byte extends the value read so far.
  function ShiftedByte(little: bool, b: byte, count: nat, i: nat): nat
    requires i < count
  {
    (b * Pow2(8 * if little then i else count - 1 - i)) % Pow2(8 * count)
  }

  // The value accumulated from the first bytes bs of a count-byte window.
  function Partial(little: bool, bs: seq<byte>, count: nat): nat
    requires |bs| <= count
  {
    if little then LeValue(bs) else LeValue(Reversed(bs)) * Pow2(8 * (count - |bs|))
  }

  lemma ShiftFits(b: byte, k: nat, count: nat)
    requires k < count
    ensures b * Pow2(8 * k) < Pow2(8 * (k + 1)) <= Pow2(8 * count)
    ensures (b * Pow2(8 * k)) % Pow2(8 * count) == b * Pow2(8 * k)
  {
    hide Pow2;
    Pow2Byte(k);
    Pow2Monotone(8 * (k + 1), 8 * count);
    BytePart(b, Pow2(8 * k));
    SmallMod(b * Pow2(8 * k), Pow2(8 * count));
  }

  lemma BytePart(b: byte, p: nat)
    requires p > 0
    ensures b * p < 256 * p
  {
    MulMonotone(b + 1, 256, p);
  }

  lemma OrExtends(little: bool, bs: seq<byte>, b: byte, count: nat)
    requires |bs| < count
    ensures Or(Partial(little, bs, count), ShiftedByte(little, b, count, |bs|)) == Partial(little, bs + [b], count)
  {
    hide Pow2, Or, LeValue, Reversed;
    var i := |bs|;
    if little {
      ShiftFits(b, i, count);
      ValueBound(bs);
      OrDisjoint(LeValue(bs), b, 8 * i);
      ValueAppend(bs, b);
    } else {
      var k := count - 1 - i;
      var x := LeValue(Reversed(bs));
      ShiftFits(b, k, count);
      OrDisjoint(b * Pow2(8 * k), x, 8 * (k + 1));
      OrCommutes(x * Pow2(8 * (k + 1)), b * Pow2(8 * k));
      ReversedAppend(bs, b);
      ValuePrepend(b, Reversed(bs));
      Pow2Byte(k);
      Distribute(b, x, Pow2(8 * k));
    }
  }

  lemma ValuePrepend(b: byte, bs: seq<byte>)
    ensures LeValue([b] + bs) == b + 256 * LeValue(bs)
  {
    assert ([b] + bs)[1..] == bs;
  }

  lemma Distribute(b: nat, x: nat, p: nat)
    ensures (b + 256 * x) * p == b * p + x * (256 * p)
  {
  }

  lemma PointerTo(base: uint64, a: uint64)
    ensures Pointer(base, (a - base) % TWO_TO_THE_64) == a
  {
  }

  lemma StoredAt(mem: map<uint64, byte>, base: uint64, value: nat, count: nat, little: bool, a: uint64)
    requires Window(mem, base, count) == Layout(little, value, count)
    ensures var k := (a - base) % TWO_TO_THE_64;
            && (InWindow(base, count, a) <==> k < count)
            && (k < count ==> At(mem, a) == (value / Pow2(8 * if little then k else count - 1 - k)) % 256)
  {
    hide Pow2, Layout, Pointer;
    var k := (a - base) % TWO_TO_THE_64;
    PointerTo(base, a);
    if k < count {
      assert Window(mem, base, count)[k] == At(mem, a);
      StoreByteIsLayout(little, value, count, k);
    }
  }

  // Byte k of the window is the matching byte of the number it spells.
  lemma MeaningAt(mem: map<uint64, byte>, base: uint64, count: nat, little: bool, a: uint64)
    ensures var k, value := (a - base) % TWO_TO_THE_64, Meaning(little, Window(mem, base, count));
            k < count ==> (value / Pow2(8 * if little then k else count - 1 - k)) % 256 == At(mem, a)
  {
    hide Pow2, Pointer, LeValue, LeBytes, Reversed;
    var k, w := (a - base) % TWO_TO_THE_64, Window(mem, base, count);
    PointerTo(base, a);
    if k < count {
      assert w[k] == At(mem, a);
      if little {
        BytesOfValue(w);
        ByteAt(LeValue(w), count, k);
      } else {
        BytesOfValue(Reversed(w));
        ByteAt(LeValue(Reversed(w)), count, count - 1 - k);
        ReversedAt(w, count - 1 - k);
      }
    }
  }

  lemma MeaningBound(little: bool, bs: seq<byte>)
    ensures Meaning(little, bs) < Pow2(8 * |bs|)
  {
    ValueBound(bs);
    ValueBound(Reversed(bs));
  }

  class Memory {
    var mem: map<uint64, byte>

    constructor ()
      ensures mem == map[]
    {
      mem := map[];
    }

    // The bytes of the window become the value's layout, and no other byte changes.
    method StoreValueByBytes(base: uint64, value: nat, count: nat, little: bool)
      requires count <= TWO_TO_THE_64
      modifies this
      ensures Window(mem, base, count) == Layout(little, value, count)
      ensures forall a: uint64 ::
                var k := (a - base) % TWO_TO_THE_64;
                At(mem, a) == if k < count then (value / Pow2(8 * if little then k else count - 1 - k)) % 256
                              else At(old(mem), a)
      ensures forall a: uint64 :: !InWindow(base, count, a) ==> At(mem, a) == At(old(mem), a)
    {
      hide StoreByte, Pointer, InWindow, Layout;
      for i := 0 to count
        invariant forall k :: 0 <= k < i ==> At(mem, Pointer(base, k)) == StoreByte(little, value, count, k)
        invariant forall a: uint64 :: !InWindow(base, count, a) ==> At(mem, a) == At(old(mem), a)
      {
        ghost var before := mem;
        PointerInWindow(base, count, i);
        mem := mem[Pointer(base, i) := StoreByte(little, value, count, i)];
        forall k | 0 <= k < i
          ensures At(mem, Pointer(base, k)) == At(before, Pointer(base, k))
        {
          PointersDiffer(base, k, i);
        }
      }
      forall k | 0 <= k < count
        ensures |Layout(little, value, count)| == count
        ensures At(mem, Pointer(base, k)) == Layout(little, value, count)[k]
      {
        StoreByteIsLayout(little, value, count, k);
      }
      LayoutSize(little, value, count);
      forall a: uint64
        ensures var k := (a - base) % TWO_TO_THE_64;
                At(mem, a) == if k < count then (value / Pow2(8 * if little then k else count - 1 - k)) % 256
                              else At(old(mem), a)
      {
        StoredAt(mem, base, value, count, little, a);
      }
    }

    // A store followed by a load of the same bytes, in any pair of byte orders.
    method StoreThenLoad(base: uint64, value: nat, count: nat, store: bool, load: bool) returns (result: nat)
      requires count <= TWO_TO_THE_64
      modifies this
      ensures result == if store == load then value % Pow2(8 * count) else ByteSwapped(value, count)
      ensures forall a: uint64 :: !InWindow(base, count, a) ==> At(mem, a) == At(old(mem), a)
    {
      StoreValueByBytes(base, value, count, store);
      result := LoadValueByBytes(base, count, load);
      RoundTrip(store, load, value, count);
    }

    method LoadValueByBytes(base: uint64, count: nat, little: bool) returns (value: nat)
      ensures value == Meaning(little, Window(mem, base, count))
      ensures value < Pow2(8 * count)
      ensures forall a: uint64 ::
                var k := (a - base) % TWO_TO_THE_64;
                k < count ==> (value / Pow2(8 * if little then k else count - 1 - k)) % 256 == At(mem, a)
    {
      value := 0;
      NothingRead(little, count);
      for i := 0 to count
        invariant value == Partial(little, Window(mem, base, i), count)
      {
        hide Partial, ShiftedByte;
        var b := At(mem, Pointer(base, i));
        assert Window(mem, base, i + 1) == Window(mem, base, i) + [b];
        OrExtends(little, Window(mem, base, i), b, count);
        value := Or(value, ShiftedByte(little, b, count, i));
      }
      PartialIsMeaning(little, Window(mem, base, count), count);
      assert |Window(mem, base, count)| == count;
      hide Meaning, Partial, Window, Pow2;
      MeaningBound(little, Window(mem, base, count));
      forall a: uint64
        ensures var k := (a - base) % TWO_TO_THE_64;
                k < count ==> (value / Pow2(8 * if little then k else count - 1 - k)) % 256 == At(mem, a)
      {
        MeaningAt(mem, base, count, little, a);
      }
    }
  }

  lemma PartialIsMeaning(little: bool, bs: seq<byte>, count: nat)
    requires |bs| == count
    ensures Partial(little, bs, count) == Meaning(little, bs)
  {
    assert Pow2(0) == 1;
  }

  lemma LayoutSize(little: bool, value: nat, count: nat)
    ensures |Layout(little, value, count)| == count
  {
  }

  lemma NothingRead(little: bool, count: nat)
    ensures Partial(little, [], count) == 0
  {
  }
}
