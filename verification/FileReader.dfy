/** Section headers of lifter/fileReader.hpp: two sorted copies and the lookup of a file offset. */
module FileReader {
  import opened Ints
  import SortedSeq

  datatype SectionHeader = SectionHeader(
    virtualAddress: uint32,
    virtualSize: uint32,
    ptrRawData: uint32,
    memWrite: bool)

  function VirtualAddress(s: SectionHeader): int { s.virtualAddress }
  function RawPointer(s: SectionHeader): int { s.ptrRawData }

  ghost predicate SortedBy(key: SectionHeader -> int, s: seq<SectionHeader>) {
    forall i, j :: 0 <= i < j < |s| ==> key(s[i]) <= key(s[j])
  }

  // std::sort, whose order among equal keys callers may not rely on.
  function InsertByKey(key: SectionHeader -> int, s: seq<SectionHeader>, x: SectionHeader): seq<SectionHeader> {
    if s == [] || key(s[|s| - 1]) <= key(x) then s + [x]
    else InsertByKey(key, s[..|s| - 1], x) + [s[|s| - 1]]
  }

  function Sorted(key: SectionHeader -> int, s: seq<SectionHeader>): seq<SectionHeader> {
    if s == [] then [] else InsertByKey(key, Sorted(key, s[..|s| - 1]), s[|s| - 1])
  }

  lemma {:induction false} InsertPermutes(key: SectionHeader -> int, s: seq<SectionHeader>, x: SectionHeader)
    ensures multiset(InsertByKey(key, s, x)) == multiset(s) + multiset{x}
  {
    if s != [] && key(s[|s| - 1]) > key(x) {
      InsertPermutes(key, s[..|s| - 1], x);
      assert s == s[..|s| - 1] + [s[|s| - 1]];
    }
  }

  lemma {:induction false} InsertKeepsSorted(key: SectionHeader -> int, s: seq<SectionHeader>, x: SectionHeader)
    requires SortedBy(key, s)
    ensures SortedBy(key, InsertByKey(key, s, x))
    ensures forall i :: 0 <= i <= |s| < |InsertByKey(key, s, x)| ==>
              key(InsertByKey(key, s, x)[i]) <= key(x) || (s != [] && key(InsertByKey(key, s, x)[i]) <= key(s[|s| - 1]))
    ensures |InsertByKey(key, s, x)| == |s| + 1
  {
    if s != [] && key(s[|s| - 1]) > key(x) {
      InsertKeepsSorted(key, s[..|s| - 1], x);
    }
  }

  // Sorting yields a sorted permutation.
  lemma {:induction false} SortedIsSorted(key: SectionHeader -> int, s: seq<SectionHeader>)
    ensures SortedBy(key, Sorted(key, s))
    ensures multiset(Sorted(key, s)) == multiset(s)
  {
    if s != [] {
      hide SortedBy, InsertByKey;
      var init, last := s[..|s| - 1], s[|s| - 1];
      assert s == init + [last];
      SortedIsSorted(key, init);
      InsertKeepsSorted(key, Sorted(key, init), last);
      InsertPermutes(key, Sorted(key, init), last);
      assert Sorted(key, s) == InsertByKey(key, Sorted(key, init), last);
    } else {
      assert Sorted(key, s) == [];
    }
  }

  // The sections as the file header lists them: distinct starts and disjoint extents.
  predicate Disjoint(a: SectionHeader, b: SectionHeader) {
    && a.virtualAddress != b.virtualAddress
    && (a.virtualAddress + a.virtualSize <= b.virtualAddress || b.virtualAddress + b.virtualSize <= a.virtualAddress)
  }

  ghost predicate LaidOut(s: seq<SectionHeader>) {
    forall i, j :: 0 <= i < j < |s| ==> Disjoint(s[i], s[j])
  }

  predicate ContainsRva(s: SectionHeader, rva: int) {
    s.virtualAddress <= rva < s.virtualAddress + s.virtualSize
  }

  function FileOffset(s: SectionHeader, rva: uint32): uint64 {
    (rva - s.virtualAddress + s.ptrRawData) % TWO_TO_THE_32
  }

  // The lookup's meaning: the section that contains the address, found by a scan in header order.
  function LinearScan(raw: seq<SectionHeader>, rva: uint32): uint64 {
    if raw == [] then 0
    else if ContainsRva(raw[0], rva) then FileOffset(raw[0], rva)
    else LinearScan(raw[1..], rva)
  }

  // std::upper_bound over the sections sorted by virtual address.
  function UpperBoundVa(s: seq<SectionHeader>, rva: int): (k: nat)
    ensures k <= |s|
    ensures k > 0 ==> s[k - 1].virtualAddress <= rva
    ensures forall i :: k <= i < |s| ==> rva < s[i].virtualAddress
  {
    SortedSeq.UpperBound(VirtualAddress, s, rva)
  }

  // RvaToFileOffset: the candidate section's end is computed in 32 bits.
  function Lookup(sorted: seq<SectionHeader>, rva: uint32): uint64 {
    var k := UpperBoundVa(sorted, rva);
    if k == 0 then 0
    else if rva < (sorted[k - 1].virtualAddress + sorted[k - 1].virtualSize) % TWO_TO_THE_32 then
      FileOffset(sorted[k - 1], rva)
    else 0
  }

  lemma {:induction false} ScanFinds(raw: seq<SectionHeader>, k: nat, rva: uint32)
    requires k < |raw| && ContainsRva(raw[k], rva)
    requires forall i :: 0 <= i < |raw| && ContainsRva(raw[i], rva) ==> raw[i] == raw[k]
    ensures LinearScan(raw, rva) == FileOffset(raw[k], rva)
  {
    if !ContainsRva(raw[0], rva) {
      ScanFinds(raw[1..], k - 1, rva);
    }
  }

  lemma {:induction false} ScanMisses(raw: seq<SectionHeader>, rva: uint32)
    requires forall i :: 0 <= i < |raw| ==> !ContainsRva(raw[i], rva)
    ensures LinearScan(raw, rva) == 0
  {
    if raw != [] {
      ScanMisses(raw[1..], rva);
    }
  }

  lemma LaidOutPermutes(raw: seq<SectionHeader>, sorted: seq<SectionHeader>, i: nat, x: SectionHeader)
    requires LaidOut(raw) && multiset(sorted) == multiset(raw)
    requires i < |sorted| && x in sorted && x != sorted[i]
    ensures sorted[i] in raw && x in raw && Disjoint(sorted[i], x)
  {
    assert sorted[i] in multiset(sorted) && x in multiset(sorted);
    var j :| 0 <= j < |raw| && raw[j] == sorted[i];
    var k :| 0 <= k < |raw| && raw[k] == x;
    assert Disjoint(raw[j], raw[k]) || Disjoint(raw[k], raw[j]);
  }

  // The candidate of the binary search is the only section that can contain the address.
  lemma OnlyCandidate(raw: seq<SectionHeader>, sorted: seq<SectionHeader>, rva: uint32, x: SectionHeader)
    requires LaidOut(raw) && SortedBy(VirtualAddress, sorted) && multiset(sorted) == multiset(raw)
    requires x in raw && ContainsRva(x, rva)
    ensures var k := UpperBoundVa(sorted, rva); k > 0 && sorted[k - 1] == x
  {
    assert x in multiset(raw);
    var j :| 0 <= j < |sorted| && sorted[j] == x;
    var k := UpperBoundVa(sorted, rva);
    assert j < k;
    assert VirtualAddress(sorted[j]) <= VirtualAddress(sorted[k - 1]);
    if sorted[k - 1] != x {
      LaidOutPermutes(raw, sorted, k - 1, x);
    }
  }

  ghost predicate EndsWrapped(raw: seq<SectionHeader>, rva: int) {
    exists s :: s in raw && ContainsRva(s, rva) && s.virtualAddress + s.virtualSize >= TWO_TO_THE_32
  }

  lemma LookupContained(raw: seq<SectionHeader>, sorted: seq<SectionHeader>, rva: uint32, x: SectionHeader)
    requires LaidOut(raw) && SortedBy(VirtualAddress, sorted) && multiset(sorted) == multiset(raw)
    requires x in raw && ContainsRva(x, rva)
    ensures LinearScan(raw, rva) == FileOffset(x, rva)
    ensures EndsWrapped(raw, rva) <==> x.virtualAddress + x.virtualSize >= TWO_TO_THE_32
    ensures Lookup(sorted, rva) == if EndsWrapped(raw, rva) then 0 else FileOffset(x, rva)
  {
    hide LaidOut;
    OnlyCandidate(raw, sorted, rva, x);
    forall s | s in raw && ContainsRva(s, rva)
      ensures s == x
    {
      OnlyCandidate(raw, sorted, rva, s);
    }
    var j :| 0 <= j < |raw| && raw[j] == x;
    ScanFinds(raw, j, rva);
  }

  lemma LookupOutside(raw: seq<SectionHeader>, sorted: seq<SectionHeader>, rva: uint32)
    requires multiset(sorted) == multiset(raw)
    requires forall s :: s in raw ==> !ContainsRva(s, rva)
    ensures LinearScan(raw, rva) == 0 && Lookup(sorted, rva) == 0
  {
    ScanMisses(raw, rva);
    var k := UpperBoundVa(sorted, rva);
    if k > 0 {
      assert sorted[k - 1] in multiset(sorted);
      assert sorted[k - 1] in raw;
    }
  }

  // On a laid-out image the binary search equals the scan, unless the containing section's end
  // wraps past 32 bits: then the section is missed and 0 is returned.
  lemma LookupIsScan(raw: seq<SectionHeader>, sorted: seq<SectionHeader>, rva: uint32)
    requires LaidOut(raw) && SortedBy(VirtualAddress, sorted) && multiset(sorted) == multiset(raw)
    ensures Lookup(sorted, rva) == if EndsWrapped(raw, rva) then 0 else LinearScan(raw, rva)
  {
    hide LaidOut, SortedBy, Lookup, LinearScan;
    if x :| x in raw && ContainsRva(x, rva) {
      LookupContained(raw, sorted, rva, x);
    } else {
      LookupOutside(raw, sorted, rva);
    }
  }

  // The offset found: the distance into the containing section, from where its raw data starts.
  lemma LookupMeans(raw: seq<SectionHeader>, sorted: seq<SectionHeader>, rva: uint32)
    requires SortedBy(VirtualAddress, sorted) && multiset(sorted) == multiset(raw)
    ensures LaidOut(raw) ==> forall x :: x in raw && x.virtualAddress <= rva < x.virtualAddress + x.virtualSize ==>
              Lookup(sorted, rva) == if x.virtualAddress + x.virtualSize >= TWO_TO_THE_32 then 0
                                     else (rva - x.virtualAddress + x.ptrRawData) % TWO_TO_THE_32
    ensures LaidOut(raw) ==> forall x ::
              x in raw && x.virtualAddress <= rva < x.virtualAddress + x.virtualSize < TWO_TO_THE_32 &&
              x.ptrRawData + x.virtualSize <= TWO_TO_THE_32 ==>
                Lookup(sorted, rva) == rva - x.virtualAddress + x.ptrRawData
    ensures (forall x :: x in raw ==> !(x.virtualAddress <= rva < x.virtualAddress + x.virtualSize)) ==>
              Lookup(sorted, rva) == 0
  {
    if LaidOut(raw) {
      forall x | x in raw && x.virtualAddress <= rva < x.virtualAddress + x.virtualSize
        ensures Lookup(sorted, rva) == if x.virtualAddress + x.virtualSize >= TWO_TO_THE_32 then 0
                                       else (rva - x.virtualAddress + x.ptrRawData) % TWO_TO_THE_32
      {
        hide LaidOut, SortedBy, Lookup;
        LookupContained(raw, sorted, rva, x);
      }
    }
    if forall x :: x in raw ==> !(x.virtualAddress <= rva < x.virtualAddress + x.virtualSize) {
      hide LaidOut, SortedBy, Lookup;
      LookupOutside(raw, sorted, rva);
    }
  }

  // The wrap is real: a section that reaches the top of the 32-bit space is never found.
  lemma WrapHidesSection()
    ensures var s := SectionHeader(0x1000, 0xFFFFF000, 0x400, false);
            && LaidOut([s]) && EndsWrapped([s], 0x1000)
            && LinearScan([s], 0x1000) == 0x400 && Lookup([s], 0x1000) == 0
  {
    var s := SectionHeader(0x1000, 0xFFFFF000, 0x400, false);
    assert s in [s] && ContainsRva(s, 0x1000);
    LookupContained([s], [s], 0x1000, s);
  }

  class X64FileReader {
    var imageBase: uint64
    var sectionsV: seq<SectionHeader>
    var sectionsR: seq<SectionHeader>
    ghost var raw: seq<SectionHeader>      // as listed in the header

    ghost predicate Valid()
      reads this
    {
      && SortedBy(VirtualAddress, sectionsV) && multiset(sectionsV) == multiset(raw)
      && SortedBy(RawPointer, sectionsR) && multiset(sectionsR) == multiset(raw)
    }

    constructor Init(imageBase: uint64, rawSecs: seq<SectionHeader>)
      ensures Valid() && raw == rawSecs && this.imageBase == imageBase
      ensures multiset(sectionsV) == multiset(sectionsR) == multiset(rawSecs)
      ensures forall i, j :: 0 <= i < j < |sectionsV| ==> sectionsV[i].virtualAddress <= sectionsV[j].virtualAddress
      ensures forall i, j :: 0 <= i < j < |sectionsR| ==> sectionsR[i].ptrRawData <= sectionsR[j].ptrRawData
    {
      this.imageBase := imageBase;
      sectionsV := Sorted(VirtualAddress, rawSecs);
      sectionsR := Sorted(RawPointer, rawSecs);
      raw := rawSecs;
      SortedIsSorted(VirtualAddress, rawSecs);
      SortedIsSorted(RawPointer, rawSecs);
    }

    method RvaToFileOffset(rva: uint32) returns (offset: uint64)
      requires Valid()
      ensures offset == Lookup(sectionsV, rva)
      ensures LaidOut(raw) ==> offset == if EndsWrapped(raw, rva) then 0 else LinearScan(raw, rva)
      ensures LaidOut(raw) ==> forall x :: x in raw && x.virtualAddress <= rva < x.virtualAddress + x.virtualSize ==>
                offset == if x.virtualAddress + x.virtualSize >= TWO_TO_THE_32 then 0
                          else (rva - x.virtualAddress + x.ptrRawData) % TWO_TO_THE_32
      ensures LaidOut(raw) ==> forall x ::
                x in raw && x.virtualAddress <= rva < x.virtualAddress + x.virtualSize < TWO_TO_THE_32 &&
                x.ptrRawData + x.virtualSize <= TWO_TO_THE_32 ==>
                  offset == rva - x.virtualAddress + x.ptrRawData
      ensures (forall x :: x in raw ==> !(x.virtualAddress <= rva < x.virtualAddress + x.virtualSize)) ==> offset == 0
    {
      offset := 0;
      var it := UpperBoundVa(sectionsV, rva);
      if it != 0 {
        it := it - 1;
        if rva < (sectionsV[it].virtualAddress + sectionsV[it].virtualSize) % TWO_TO_THE_32 {
          offset := FileOffset(sectionsV[it], rva);
        }
      }
      assert offset == Lookup(sectionsV, rva);
      hide LaidOut, SortedBy, LinearScan, EndsWrapped, UpperBoundVa, Lookup, FileOffset;
      LookupMeans(raw, sectionsV, rva);
      if LaidOut(raw) {
        LookupIsScan(raw, sectionsV, rva);
      }
    }
  }
}
