/** The section loop of lifter/lifter.cpp: the memory policy of a loaded image. */
module SectionPolicy {
  import opened Ints
  import opened RangeSet
  import opened PolicyHistory
  import opened MemoryPolicy
  import opened FileReader
  import opened Includes

  function ModeOf(s: SectionHeader): AccessMode {
    if s.memWrite then SYMBOLIC else CONCRETE
  }

  // The range added for a section: its inclusive end is one byte past the section.
  function SectionUpdate(base: uint64, s: SectionHeader): Update {
    AddRange((base + s.virtualAddress) % TWO_TO_THE_64,
             (base + s.virtualAddress + s.virtualSize) % TWO_TO_THE_64, ModeOf(s))
  }

  function SectionUpdates(base: uint64, s: seq<SectionHeader>): seq<Update> {
    seq(|s|, i requires 0 <= i < |s| => SectionUpdate(base, s[i]))
  }

  function InitHistory(base: uint64, s: seq<SectionHeader>): seq<Update> {
    [SetDefault(SYMBOLIC)] + SectionUpdates(base, s) +
    [AddRange(STACKP_VALUE - 0x1000, STACKP_VALUE + 0x1000, CONCRETE)]
  }

  predicate InStackWindow(a: int) {
    STACKP_VALUE - 0x1000 <= a <= STACKP_VALUE + 0x1000
  }

  // Address a is a byte of section s of the image at base.
  predicate IsByteOf(base: uint64, s: SectionHeader, a: int) {
    ContainsRva(s, a - base)
  }

  predicate FitsIn64(base: uint64, s: SectionHeader) {
    base + s.virtualAddress + s.virtualSize <= UINT64_MAX
  }

  // A later section of the sorted list starts after every byte of an earlier one.
  lemma LaterStartsAfter(raw: seq<SectionHeader>, sorted: seq<SectionHeader>, i: nat, j: nat)
    requires LaidOut(raw) && SortedBy(VirtualAddress, sorted) && multiset(sorted) == multiset(raw)
    requires i < j < |sorted| && sorted[i] != sorted[j]
    ensures sorted[i].virtualAddress + sorted[i].virtualSize <= sorted[j].virtualAddress
  {
    LaidOutPermutes(raw, sorted, i, sorted[j]);
    assert VirtualAddress(sorted[i]) <= VirtualAddress(sorted[j]);
  }

  lemma SectionCovers(base: uint64, s: SectionHeader, a: int)
    requires FitsIn64(base, s)
    ensures Covers(SectionUpdate(base, s), a) <==> s.virtualAddress <= a - base <= s.virtualAddress + s.virtualSize
    ensures SectionUpdate(base, s).AddRange? && SectionUpdate(base, s).mode == ModeOf(s)
  {
  }

  lemma AllFit(base: uint64, raw: seq<SectionHeader>, sorted: seq<SectionHeader>)
    requires multiset(sorted) == multiset(raw)
    requires forall s :: s in raw ==> FitsIn64(base, s)
    ensures forall j :: 0 <= j < |sorted| ==> FitsIn64(base, sorted[j])
  {
    forall j | 0 <= j < |sorted|
      ensures FitsIn64(base, sorted[j])
    {
      assert sorted[j] in multiset(sorted);
      assert sorted[j] in raw;
    }
  }

  lemma NotCoveredLater(base: uint64, raw: seq<SectionHeader>, sorted: seq<SectionHeader>, k: nat, j: nat, a: int)
    requires LaidOut(raw) && SortedBy(VirtualAddress, sorted) && multiset(sorted) == multiset(raw)
    requires k < j < |sorted| && sorted[j] != sorted[k]
    requires FitsIn64(base, sorted[j]) && IsByteOf(base, sorted[k], a)
    ensures !Covers(SectionUpdate(base, sorted[j]), a)
  {
    LaterStartsAfter(raw, sorted, k, j);
    SectionCovers(base, sorted[j], a);
  }

  lemma HistoryAt(base: uint64, sorted: seq<SectionHeader>)
    ensures var h := InitHistory(base, sorted);
            && |h| == |sorted| + 2
            && h[0] == SetDefault(SYMBOLIC)
            && (forall j :: 0 < j <= |sorted| ==> h[j] == SectionUpdate(base, sorted[j - 1]))
            && h[|sorted| + 1] == AddRange(STACKP_VALUE - 0x1000, STACKP_VALUE + 0x1000, CONCRETE)
  {
    hide SectionUpdate;
  }

  // Every byte of a section has the section's mode, whatever the one-past-the-end bytes of the
  // others did; only the stack window, added last, overrides it.
  lemma SectionBytes(base: uint64, raw: seq<SectionHeader>, sorted: seq<SectionHeader>, i: nat, a: int)
    requires LaidOut(raw) && SortedBy(VirtualAddress, sorted) && multiset(sorted) == multiset(raw)
    requires forall s :: s in raw ==> FitsIn64(base, s)
    requires i < |sorted| && IsByteOf(base, sorted[i], a)
    ensures ModeAfter(InitHistory(base, sorted), a) == if InStackWindow(a) then CONCRETE else ModeOf(sorted[i])
    ensures !InStackWindow(a) ==>
              ModeAfter(InitHistory(base, sorted), a) == if sorted[i].memWrite then SYMBOLIC else CONCRETE
  {
    hide SectionUpdate, InitHistory, LaidOut, SortedBy, FitsIn64, LatestCover, ModeAfter;
    var h := InitHistory(base, sorted);
    HistoryAt(base, sorted);
    AllFit(base, raw, sorted);
    if InStackWindow(a) {
      LatestCoverWins(h, |sorted| + 1, a);
    } else {
      var k := LastCopy(sorted, i);
      SectionCovers(base, sorted[k], a);
      forall j | k + 1 < j < |h|
        ensures !Covers(h[j], a)
      {
        if j < |h| - 1 {
          NotCoveredLater(base, raw, sorted, k, j - 1, a);
        }
      }
      LatestCoverWins(h, k + 1, a);
    }
  }

  // The byte just past a section takes that section's mode too, unless the next section, or the
  // stack window, holds it.
  lemma PastTheEnd(base: uint64, raw: seq<SectionHeader>, sorted: seq<SectionHeader>, i: nat, a: int)
    requires LaidOut(raw) && SortedBy(VirtualAddress, sorted) && multiset(sorted) == multiset(raw)
    requires forall s :: s in raw ==> FitsIn64(base, s)
    requires i < |sorted| && a == base + sorted[i].virtualAddress + sorted[i].virtualSize
    requires forall j :: 0 <= j < |sorted| ==> sorted[j].virtualAddress != a - base || sorted[j] == sorted[i]
    requires !InStackWindow(a)
    ensures ModeAfter(InitHistory(base, sorted), a) == ModeOf(sorted[i])
    ensures ModeAfter(InitHistory(base, sorted), a) == if sorted[i].memWrite then SYMBOLIC else CONCRETE
  {
    hide SectionUpdate, InitHistory, LaidOut, SortedBy, FitsIn64, LatestCover, ModeAfter;
    var h := InitHistory(base, sorted);
    HistoryAt(base, sorted);
    AllFit(base, raw, sorted);
    var k := LastCopy(sorted, i);
    SectionCovers(base, sorted[k], a);
    forall j | k + 1 < j < |h|
      ensures !Covers(h[j], a)
    {
      if j < |h| - 1 {
        LaterStartsAfter(raw, sorted, k, j - 1);
        SectionCovers(base, sorted[j - 1], a);
      }
    }
    LatestCoverWins(h, k + 1, a);
  }

  lemma LastCopy(s: seq<SectionHeader>, i: nat) returns (k: nat)
    requires i < |s|
    ensures i <= k < |s| && s[k] == s[i]
    ensures forall j :: k < j < |s| ==> s[j] != s[k]
  {
    k := i;
    for n := i + 1 to |s|
      invariant i <= k < n && s[k] == s[i]
      invariant forall j :: k < j < n ==> s[j] != s[k]
    {
      if s[n] == s[k] {
        k := n;
      }
    }
  }

  // The stack window is the page before and after the initial stack pointer 0x14FEA0.
  lemma StackWindow(base: uint64, sorted: seq<SectionHeader>, a: int)
    requires 0x14EEA0 <= a <= 0x150EA0
    ensures ModeAfter(InitHistory(base, sorted), a) == CONCRETE
  {
    hide SectionUpdate, InitHistory;
    HistoryAt(base, sorted);
    LatestCoverWins(InitHistory(base, sorted), |sorted| + 1, a);
  }

  // Outside the sections, their ends and the stack window everything stays symbolic.
  lemma OtherBytes(base: uint64, sorted: seq<SectionHeader>, a: int)
    requires forall s :: s in sorted ==> FitsIn64(base, s)
    requires forall s :: s in sorted ==> !(s.virtualAddress <= a - base <= s.virtualAddress + s.virtualSize)
    requires !InStackWindow(a)
    ensures ModeAfter(InitHistory(base, sorted), a) == SYMBOLIC
  {
    hide SectionUpdate, InitHistory, LatestCover, ModeAfter;
    var h := InitHistory(base, sorted);
    HistoryAt(base, sorted);
    forall j | 0 <= j < |h|
      ensures !Covers(h[j], a) && (h[j].SetDefault? ==> h[j].mode == SYMBOLIC)
    {
      if 0 < j < |h| - 1 {
        assert sorted[j - 1] in sorted;
        SectionCovers(base, sorted[j - 1], a);
      }
    }
    UncoveredIsDefault(h, a);
    AllDefaultsSymbolic(h);
  }

  lemma {:induction false} AllDefaultsSymbolic(h: seq<Update>)
    requires forall j :: 0 <= j < |h| && h[j].SetDefault? ==> h[j].mode == SYMBOLIC
    ensures LatestDefault(h) == SYMBOLIC
  {
    if h != [] {
      AllDefaultsSymbolic(h[..|h| - 1]);
    }
  }

  method InitPolicy(file: X64FileReader) returns (policy: MemoryPolicyDynamic)
    requires file.Valid()
    ensures fresh(policy) && policy.Valid()
    ensures policy.history == InitHistory(file.imageBase, file.sectionsV)
  {
    policy := new MemoryPolicyDynamic();
    policy.SetDefaultMode(SYMBOLIC);
    for i := 0 to |file.sectionsV|
      invariant fresh(policy) && policy.Valid()
      invariant policy.history == [SetDefault(SYMBOLIC)] + SectionUpdates(file.imageBase, file.sectionsV[..i])
    {
      hide RangeSet.WellFormed, Stored, LatestCover, SectionUpdate;
      var it := file.sectionsV[i];
      UpdatesGrow(file.imageBase, file.sectionsV, i);
      AddSection(policy, file.imageBase, it);
    }
    assert file.sectionsV[..|file.sectionsV|] == file.sectionsV;
    policy.AddRangeMode(STACKP_VALUE - 0x1000, STACKP_VALUE + 0x1000, CONCRETE);
  }

  lemma UpdatesGrow(base: uint64, s: seq<SectionHeader>, i: nat)
    requires i < |s|
    ensures SectionUpdates(base, s[..i + 1]) == SectionUpdates(base, s[..i]) + [SectionUpdate(base, s[i])]
  {
  }

  // One round of the section loop.
  method AddSection(policy: MemoryPolicyDynamic, base: uint64, it: SectionHeader)
    requires policy.Valid()
    modifies policy
    ensures policy.Valid() && policy.history == old(policy.history) + [SectionUpdate(base, it)]
    ensures policy.history[|old(policy.history)|]
            == AddRange((base + it.virtualAddress) % TWO_TO_THE_64,
                        (base + it.virtualAddress + it.virtualSize) % TWO_TO_THE_64,
                        if it.memWrite then SYMBOLIC else CONCRETE)
  {
    var start: uint64 := (base + it.virtualAddress) % TWO_TO_THE_64;
    var end: uint64 := (base + it.virtualAddress + it.virtualSize) % TWO_TO_THE_64;
    if it.memWrite {
      policy.AddRangeMode(start, end, SYMBOLIC);
    } else {
      policy.AddRangeMode(start, end, CONCRETE);
    }
  }
}
