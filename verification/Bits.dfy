/** Bitwise and, or on naturals, and little-endian bytes. */
module Bits {
  import opened Ints

  function And(a: nat, b: nat): nat
    decreases a
  {
    if a == 0 || b == 0 then 0 else (a % 2) * (b % 2) + 2 * And(a / 2, b / 2)
  }

  function Or(a: nat, b: nat): nat
    decreases a
  {
    if a == 0 then b else (if a % 2 == 1 || b % 2 == 1 then 1 else 0) + 2 * Or(a / 2, b / 2)
  }

  function Pow2(k: nat): (p: nat)
    ensures p > 0
  {
    if k == 0 then 1 else 2 * Pow2(k - 1)
  }

  lemma {:induction false} Pow2Add(j: nat, k: nat)
    ensures Pow2(j + k) == Pow2(j) * Pow2(k)
  {
    if j > 0 {
      Pow2Add(j - 1, k);
      assert 2 * Pow2(j - 1) * Pow2(k) == Pow2(j) * Pow2(k);
    }
  }

  lemma {:induction false} Pow2Monotone(j: nat, k: nat)
    requires j <= k
    ensures Pow2(j) <= Pow2(k)
  {
    if j < k {
      Pow2Monotone(j, k - 1);
    }
  }

  // and never exceeds its operands.
  lemma {:induction false} AndIsBelow(a: nat, b: nat)
    ensures And(a, b) <= a && And(a, b) <= b
    decreases a
  {
    if a != 0 && b != 0 {
      AndIsBelow(a / 2, b / 2);
      assert (a % 2) * (b % 2) <= a % 2 && (a % 2) * (b % 2) <= b % 2;
    }
  }

  lemma {:induction false} OrIsAbove(a: nat, b: nat)
    ensures a <= Or(a, b) && b <= Or(a, b)
    decreases a
  {
    if a != 0 {
      OrIsAbove(a / 2, b / 2);
    }
  }

  lemma {:induction false} AndSelf(a: nat)
    ensures And(a, a) == a
    decreases a
  {
    if a != 0 {
      AndSelf(a / 2);
    }
  }

  // or of a number and a multiple of a power of two above it is their sum.
  lemma {:induction false} OrDisjoint(a: nat, b: nat, k: nat)
    requires a < Pow2(k)
    ensures Or(a, b * Pow2(k)) == a + b * Pow2(k)
    decreases k
  {
    if a != 0 {
      var p := Pow2(k - 1);
      assert b * Pow2(k) == 2 * (b * p);
      OrDisjoint(a / 2, b, k - 1);
      assert (b * Pow2(k)) / 2 == b * p;
    }
  }

  lemma {:induction false} OrCommutes(a: nat, b: nat)
    ensures Or(a, b) == Or(b, a)
    decreases a + b
  {
    if a != 0 && b != 0 {
      OrCommutes(a / 2, b / 2);
    } else {
      OrZero(a);
      OrZero(b);
    }
  }

  lemma {:induction false} OrZero(a: nat)
    ensures Or(a, 0) == a
    decreases a
  {
    if a != 0 {
      OrZero(a / 2);
    }
  }

  // ------------------------------------------------------------------ bytes

  function LeBytes(v: nat, n: nat): (bs: seq<byte>)
    ensures |bs| == n
  {
    if n == 0 then [] else [v % 256] + LeBytes(v / 256, n - 1)
  }

  function LeValue(bs: seq<byte>): nat {
    if bs == [] then 0 else bs[0] + 256 * LeValue(bs[1..])
  }

  function Reversed(bs: seq<byte>): (r: seq<byte>)
    ensures |r| == |bs|
  {
    if bs == [] then [] else Reversed(bs[1..]) + [bs[0]]
  }

  lemma Pow2Byte(n: nat)
    ensures Pow2(8 * (n + 1)) == 256 * Pow2(8 * n)
  {
    Pow2Add(8, 8 * n);
    assert Pow2(8) == 256;
  }

  lemma MulMonotone(a: nat, b: nat, m: nat)
    requires a <= b
    ensures a * m <= b * m
  {
    assert (b - a) * m >= 0;
  }

  lemma QuotientAtMost(m: nat, q: nat, s: nat, q': nat, s': nat)
    requires q * m + s == q' * m + s' && s < m
    ensures q' <= q
  {
    if q < q' {
      MulMonotone(q + 1, q', m);
    }
  }

  lemma ModUnique(v: nat, m: nat, q: nat, s: nat)
    requires m > 0 && v == q * m + s && s < m
    ensures v % m == s && v / m == q
  {
    var q', s' := v / m, v % m;
    assert v == q' * m + s';
    QuotientAtMost(m, q, s, q', s');
    QuotientAtMost(m, q', s', q, s);
  }

  lemma SmallMod(x: nat, m: nat)
    requires x < m
    ensures x % m == x
  {
    ModUnique(x, m, 0, x);
  }

  // Dividing by 256 and then by b, and by 256 * b at once.
  lemma DivBytes(v: nat, b: nat)
    requires b > 0
    ensures v / (256 * b) == v / 256 / b
    ensures v % (256 * b) == v % 256 + 256 * (v / 256 % b)
  {
    var w, s := v / 256, v % 256;
    var q, r := w / b, w % b;
    assert w == q * b + r;
    assert v == q * (256 * b) + (256 * r + s);
    ModUnique(v, 256 * b, q, 256 * r + s);
  }

  lemma DivHalves(v: nat, p: nat)
    requires p > 0
    ensures v / (2 * p) == v / 2 / p
  {
    var w, s := v / 2, v % 2;
    var q, r := w / p, w % p;
    assert w == q * p + r;
    assert v == q * (2 * p) + (2 * r + s);
    ModUnique(v, 2 * p, q, 2 * r + s);
  }

  lemma AndHalves(a: nat, b: nat)
    ensures And(a, b) >= 2 * And(a / 2, b / 2)
  {
    if a != 0 && b != 0 {
      var x, y := a % 2, b % 2;
      assert x * y >= 0;
    }
  }

  function Shr(v: nat, k: nat): nat {
    if k == 0 then v else Shr(v / 2, k - 1)
  }

  lemma {:induction false} ShrIsDivision(v: nat, k: nat)
    ensures Shr(v, k) == v / Pow2(k)
    decreases k
  {
    if k > 0 {
      ShrIsDivision(v / 2, k - 1);
      DivHalves(v, Pow2(k - 1));
    }
  }

  // The and keeps the bits that both numbers have above position k.
  lemma {:induction false} AndHighBits(a: nat, b: nat, k: nat)
    ensures And(a, b) >= Pow2(k) * And(Shr(a, k), Shr(b, k))
    decreases k
  {
    hide And;
    if k > 0 {
      AndHighBits(a / 2, b / 2, k - 1);
      AndHalves(a, b);
      Twice(Pow2(k - 1), And(Shr(a, k), Shr(b, k)));
    }
  }

  lemma Twice(p: nat, x: nat)
    ensures 2 * p * x == 2 * (p * x)
  {
  }

  // Bit k of a number.
  function Bit(v: nat, k: nat): nat {
    (v / Pow2(k)) % 2
  }

  lemma BitIsShifted(v: nat, k: nat)
    ensures Bit(v, k) == Shr(v, k) % 2
  {
    ShrIsDivision(v, k);
  }

  lemma AndStep(a: nat, b: nat)
    ensures And(a, b) / 2 == And(a / 2, b / 2)
    ensures And(a, b) % 2 == if a % 2 == 1 && b % 2 == 1 then 1 else 0
  {
    if a != 0 && b != 0 {
      var x, y := a % 2, b % 2;
      assert x * y == if x == 1 && y == 1 then 1 else 0;
      assert And(a, b) == x * y + 2 * And(a / 2, b / 2);
    }
  }

  lemma OrStep(a: nat, b: nat)
    ensures Or(a, b) / 2 == Or(a / 2, b / 2)
    ensures Or(a, b) % 2 == if a % 2 == 1 || b % 2 == 1 then 1 else 0
  {
  }

  // Bit k of the and is set if and only if it is set in both numbers, and of the or in either.
  lemma {:induction false} AndBits(a: nat, b: nat, k: nat)
    ensures Bit(And(a, b), k) == if Bit(a, k) == 1 && Bit(b, k) == 1 then 1 else 0
    decreases k
  {
    hide And, Bit;
    BitIsShifted(And(a, b), k);
    BitIsShifted(a, k);
    BitIsShifted(b, k);
    AndStep(a, b);
    if k > 0 {
      AndBits(a / 2, b / 2, k - 1);
      BitIsShifted(And(a / 2, b / 2), k - 1);
      BitIsShifted(a / 2, k - 1);
      BitIsShifted(b / 2, k - 1);
    }
  }

  lemma {:induction false} OrBits(a: nat, b: nat, k: nat)
    ensures Bit(Or(a, b), k) == if Bit(a, k) == 1 || Bit(b, k) == 1 then 1 else 0
    decreases k
  {
    hide Or, Bit;
    BitIsShifted(Or(a, b), k);
    BitIsShifted(a, k);
    BitIsShifted(b, k);
    OrStep(a, b);
    if k > 0 {
      OrBits(a / 2, b / 2, k - 1);
      BitIsShifted(Or(a / 2, b / 2), k - 1);
      BitIsShifted(a / 2, k - 1);
      BitIsShifted(b / 2, k - 1);
    }
  }

  // Reading back the bytes of v gives v, truncated to that many bytes.
  lemma {:induction false} ValueOfBytes(v: nat, n: nat)
    ensures LeValue(LeBytes(v, n)) == v % Pow2(8 * n)
    decreases n
  {
    if n > 0 {
      ValueOfBytes(v / 256, n - 1);
      Pow2Byte(n - 1);
      DivBytes(v, Pow2(8 * (n - 1)));
    }
  }

  lemma {:induction false} BytesOfValue(bs: seq<byte>)
    ensures LeBytes(LeValue(bs), |bs|) == bs
  {
    if bs != [] {
      BytesOfValue(bs[1..]);
      ModUnique(LeValue(bs), 256, LeValue(bs[1..]), bs[0]);
      hide LeValue;
      assert bs == [bs[0]] + bs[1..];
    }
  }

  lemma {:induction false} ValueBound(bs: seq<byte>)
    ensures LeValue(bs) < Pow2(8 * |bs|)
  {
    if bs != [] {
      ValueBound(bs[1..]);
      Pow2Byte(|bs| - 1);
    }
  }

  lemma {:induction false} ValueAppend(bs: seq<byte>, b: byte)
    ensures LeValue(bs + [b]) == LeValue(bs) + b * Pow2(8 * |bs|)
  {
    if bs == [] {
      assert [b][1..] == [];
    } else {
      assert (bs + [b])[1..] == bs[1..] + [b];
      ValueAppend(bs[1..], b);
      Pow2Byte(|bs| - 1);
      assert 256 * (b * Pow2(8 * (|bs| - 1))) == b * Pow2(8 * |bs|);
    }
  }

  // Byte i of v is v shifted right by 8 * i, truncated to a byte.
  lemma {:induction false} ByteAt(v: nat, n: nat, i: nat)
    requires i < n
    ensures LeBytes(v, n)[i] == (v / Pow2(8 * i)) % 256
    decreases n
  {
    assert LeBytes(v, n) == [v % 256] + LeBytes(v / 256, n - 1);
    assert Pow2(0) == 1;
    hide LeBytes, Pow2;
    if i > 0 {
      ByteAt(v / 256, n - 1, i - 1);
      Pow2Byte(i - 1);
      DivBytes(v, Pow2(8 * (i - 1)));
    }
  }

  lemma {:induction false} ReversedAt(bs: seq<byte>, k: nat)
    requires k < |bs|
    ensures Reversed(bs)[k] == bs[|bs| - 1 - k]
  {
    if k < |bs| - 1 {
      ReversedAt(bs[1..], k);
    }
  }

  lemma {:induction false} ReversedAppend(bs: seq<byte>, b: byte)
    ensures Reversed(bs + [b]) == [b] + Reversed(bs)
  {
    if bs != [] {
      assert (bs + [b])[1..] == bs[1..] + [b];
      ReversedAppend(bs[1..], b);
    }
  }

  lemma {:induction false} ReversedTwice(bs: seq<byte>)
    ensures Reversed(Reversed(bs)) == bs
  {
    if bs != [] {
      ReversedTwice(bs[1..]);
      ReversedAppend(Reversed(bs[1..]), bs[0]);
    }
  }
}
