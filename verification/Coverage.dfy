/** isRangeFullyCovered of lifter/MemoryPolicy.hpp: its cursor loop as a step function with 64-bit
    wrap-around, and what the loop answers. */
module Coverage {
  import opened Ints
  import opened Wrappers
  import opened RangeSet

  // The loop's variables, or the answer it returned.
  datatype Scan = Running(cursor: uint64, it: nat) | Answer(result: bool)

  function Start(rs: seq<MemoryRange>, lo: uint64): Scan {
    Running(lo, if UpperBound(rs, lo) == 0 then 0 else UpperBound(rs, lo) - 1)
  }

  function Next(x: uint64): uint64 {
    if x == UINT64_MAX then 0 else x + 1
  }

  // One round of the loop over [lo, hi]; the query's start only decides where the loop begins.
  function Step(rs: seq<MemoryRange>, dm: AccessMode, hi: uint64, mode: AccessMode, s: Scan): Scan {
    match s
    case Answer(_) => s
    case Running(cursor, it) =>
      if cursor > hi then Answer(true)
      else if it >= |rs| || rs[it].start > cursor then
        var gapEnd := if it < |rs| && rs[it].start - 1 < hi then rs[it].start - 1 else hi;
        if dm != mode then Answer(false) else Running(Next(gapEnd), it)
      else if rs[it].mode != mode then Answer(false)
      else Running(Next(rs[it].end), it + 1)
  }

  function Run(rs: seq<MemoryRange>, dm: AccessMode, lo: uint64, hi: uint64, mode: AccessMode, n: nat): Scan {
    if n == 0 then Start(rs, lo) else Step(rs, dm, hi, mode, Run(rs, dm, lo, hi, mode, n - 1))
  }

  ghost function ModeAt(rs: seq<MemoryRange>, dm: AccessMode, a: int): AccessMode {
    if Stored(rs, a).Some? then Stored(rs, a).value else dm
  }

  ghost predicate FullyCovered(rs: seq<MemoryRange>, dm: AccessMode, lo: int, hi: int, mode: AccessMode) {
    forall a: int :: lo <= a <= hi ==> ModeAt(rs, dm, a) == mode
  }

  // The last range beginning at or before lo ends before lo, with another mode.
  predicate StaleNeighbour(rs: seq<MemoryRange>, lo: uint64, mode: AccessMode) {
    var k := UpperBound(rs, lo);
    k > 0 && rs[k - 1].end < lo && rs[k - 1].mode != mode
  }

  // A range up to the last address meets the query, so the cursor wraps to 0 past it and the
  // default mode is asked once more.
  predicate WrapsToDefault(rs: seq<MemoryRange>, dm: AccessMode, hi: uint64, mode: AccessMode) {
    rs != [] && rs[|rs| - 1].end == UINT64_MAX && rs[|rs| - 1].start <= hi && dm != mode
  }

  ghost predicate RightAnswer(rs: seq<MemoryRange>, dm: AccessMode, lo: uint64, hi: uint64, mode: AccessMode, b: bool) {
    b <==> && FullyCovered(rs, dm, lo, hi, mode)
           && !StaleNeighbour(rs, lo, mode)
           && !WrapsToDefault(rs, dm, hi, mode)
  }

  // Before any wrap: everything of the query below the cursor has the mode.
  ghost predicate Scanning(rs: seq<MemoryRange>, dm: AccessMode, lo: uint64, hi: uint64, mode: AccessMode,
                           cursor: int, it: nat)
  {
    var k0 := UpperBound(rs, lo);
    var it0 := if k0 == 0 then 0 else k0 - 1;
    && it0 <= it <= |rs|
    && (k0 > 0 && it == it0 ==> cursor == lo)
    && (k0 == 0 || it > it0 ==> !StaleNeighbour(rs, lo, mode) && (it < |rs| ==> cursor <= rs[it].start))
    && (forall i :: 0 <= i < it ==> rs[i].end < cursor)
    && (cursor < lo ==> it == k0)
    && (forall a: int :: lo <= a < cursor && a <= hi ==> ModeAt(rs, dm, a) == mode)
  }

  // After a range that ends at the last address: the query is covered, the cursor is 0 again.
  ghost predicate Wrapped(rs: seq<MemoryRange>, dm: AccessMode, lo: uint64, hi: uint64, mode: AccessMode,
                          cursor: int, it: nat)
  {
    && it == |rs| && rs != [] && rs[|rs| - 1].end == UINT64_MAX && rs[|rs| - 1].start <= hi
    && !StaleNeighbour(rs, lo, mode) && FullyCovered(rs, dm, lo, hi, mode)
    && (cursor == 0 || (cursor == hi + 1 && dm == mode))
  }

  // The query reaches the last address, it has the asked mode throughout, and that is the default
  // mode as well: the loop's guard never fails.
  ghost predicate Diverges(rs: seq<MemoryRange>, dm: AccessMode, lo: uint64, hi: uint64, mode: AccessMode) {
    hi == UINT64_MAX && dm == mode && FullyCovered(rs, dm, lo, hi, mode) && !StaleNeighbour(rs, lo, mode)
  }

  ghost predicate Good(rs: seq<MemoryRange>, dm: AccessMode, lo: uint64, hi: uint64, mode: AccessMode, s: Scan) {
    match s
    case Answer(b) => RightAnswer(rs, dm, lo, hi, mode, b)
    case Running(cursor, it) =>
      || Scanning(rs, dm, lo, hi, mode, cursor, it)
      || Wrapped(rs, dm, lo, hi, mode, cursor, it)
      || (Diverges(rs, dm, lo, hi, mode) && cursor == 0 && it == |rs|)
  }

  lemma Uncovered(rs: seq<MemoryRange>, dm: AccessMode, it: nat, cursor: int, a: int)
    requires WellFormed(rs) && it <= |rs|
    requires forall i :: 0 <= i < it ==> rs[i].end < cursor
    requires cursor <= a && (it < |rs| ==> a < rs[it].start)
    ensures ModeAt(rs, dm, a) == dm
  {
    forall i | 0 <= i < |rs|
      ensures !Contains(rs[i], a)
    {
      assert i > it ==> rs[it].end < rs[i].start;
    }
    NoneStored(rs, a);
  }

  // A gap with another default mode: an address of the query has the wrong mode.
  lemma GapMismatch(rs: seq<MemoryRange>, dm: AccessMode, lo: uint64, hi: uint64, mode: AccessMode,
                    cursor: uint64, it: nat)
    requires WellFormed(rs) && lo <= hi
    requires Scanning(rs, dm, lo, hi, mode, cursor, it) && cursor <= hi
    requires it >= |rs| || rs[it].start > cursor
    requires dm != mode
    ensures RightAnswer(rs, dm, lo, hi, mode, false)
  {
    hide ModeAt, StaleNeighbour;
    Uncovered(rs, dm, it, cursor, if cursor < lo then lo else cursor);
  }

  lemma GapMove(rs: seq<MemoryRange>, dm: AccessMode, lo: uint64, hi: uint64, mode: AccessMode, cursor: uint64, it: nat,
                gapEnd: uint64)
    requires WellFormed(rs) && lo <= hi
    requires Scanning(rs, dm, lo, hi, mode, cursor, it) && cursor <= hi
    requires it >= |rs| || rs[it].start > cursor
    requires gapEnd == if it < |rs| && rs[it].start - 1 < hi then rs[it].start - 1 else hi
    requires dm == mode
    ensures Scanning(rs, dm, lo, hi, mode, gapEnd + 1, it)
  {
    hide ModeAt, StaleNeighbour;
    forall b: int | cursor <= b <= gapEnd
      ensures ModeAt(rs, dm, b) == mode
    {
      Uncovered(rs, dm, it, cursor, b);
    }
    hide WellFormed;
  }

  lemma GapStep(rs: seq<MemoryRange>, dm: AccessMode, lo: uint64, hi: uint64, mode: AccessMode, cursor: uint64, it: nat)
    requires WellFormed(rs) && lo <= hi
    requires Scanning(rs, dm, lo, hi, mode, cursor, it) && cursor <= hi
    requires it >= |rs| || rs[it].start > cursor
    ensures Good(rs, dm, lo, hi, mode, Step(rs, dm, hi, mode, Running(cursor, it)))
  {
    hide WellFormed, Stored, ModeAt, FullyCovered, StaleNeighbour, UpperBound;
    if dm != mode {
      GapMismatch(rs, dm, lo, hi, mode, cursor, it);
    } else {
      var gapEnd := if it < |rs| && rs[it].start - 1 < hi then rs[it].start - 1 else hi;
      GapMove(rs, dm, lo, hi, mode, cursor, it, gapEnd);
      if gapEnd == UINT64_MAX {
        PastTheTop(rs, dm, lo, mode, it);
      }
    }
  }

  lemma InsideRange(rs: seq<MemoryRange>, dm: AccessMode, it: nat, a: int)
    requires WellFormed(rs) && it < |rs| && Contains(rs[it], a)
    ensures ModeAt(rs, dm, a) == rs[it].mode
  {
    StoredAt(rs, it, a);
  }

  // Another mode at the cursor: either the cursor's own mode is wrong, or the range is stale.
  lemma Mismatch(rs: seq<MemoryRange>, dm: AccessMode, lo: uint64, hi: uint64, mode: AccessMode, cursor: uint64,
                 it: nat)
    requires WellFormed(rs) && lo <= hi
    requires Scanning(rs, dm, lo, hi, mode, cursor, it) && cursor <= hi
    requires it < |rs| && rs[it].start <= cursor && rs[it].mode != mode
    ensures RightAnswer(rs, dm, lo, hi, mode, false)
  {
    if rs[it].end >= cursor {
      InsideRange(rs, dm, it, cursor);
    }
    hide Stored, WellFormed;
  }

  lemma Match(rs: seq<MemoryRange>, dm: AccessMode, lo: uint64, hi: uint64, mode: AccessMode, cursor: uint64, it: nat)
    requires WellFormed(rs) && lo <= hi
    requires Scanning(rs, dm, lo, hi, mode, cursor, it) && cursor <= hi
    requires it < |rs| && rs[it].start <= cursor && rs[it].mode == mode
    ensures rs[it].end == UINT64_MAX ==> Wrapped(rs, dm, lo, hi, mode, 0, it + 1)
    ensures rs[it].end < UINT64_MAX ==> Scanning(rs, dm, lo, hi, mode, rs[it].end + 1, it + 1)
  {
    hide Stored, ModeAt;
    var r := rs[it];
    forall b: int | cursor <= b <= r.end
      ensures ModeAt(rs, dm, b) == mode
    {
      InsideRange(rs, dm, it, b);
    }
    assert forall i :: it < i < |rs| ==> r.end < rs[i].start;
  }

  lemma RangeStep(rs: seq<MemoryRange>, dm: AccessMode, lo: uint64, hi: uint64, mode: AccessMode, cursor: uint64,
                  it: nat)
    requires WellFormed(rs) && lo <= hi
    requires Scanning(rs, dm, lo, hi, mode, cursor, it) && cursor <= hi
    requires it < |rs| && rs[it].start <= cursor
    ensures Good(rs, dm, lo, hi, mode, Step(rs, dm, hi, mode, Running(cursor, it)))
  {
    if rs[it].mode != mode {
      Mismatch(rs, dm, lo, hi, mode, cursor, it);
    } else {
      Match(rs, dm, lo, hi, mode, cursor, it);
    }
    hide WellFormed, Stored, ModeAt, FullyCovered, StaleNeighbour, UpperBound;
  }

  // Every round keeps the loop's meaning.
  lemma StepIsGood(rs: seq<MemoryRange>, dm: AccessMode, lo: uint64, hi: uint64, mode: AccessMode, s: Scan)
    requires WellFormed(rs) && lo <= hi
    requires Good(rs, dm, lo, hi, mode, s)
    ensures Good(rs, dm, lo, hi, mode, Step(rs, dm, hi, mode, s))
  {
    match s
    case Answer(_) =>
    case Running(cursor, it) =>
      if Scanning(rs, dm, lo, hi, mode, cursor, it) && cursor <= hi {
        if it >= |rs| || rs[it].start > cursor {
          GapStep(rs, dm, lo, hi, mode, cursor, it);
        } else {
          RangeStep(rs, dm, lo, hi, mode, cursor, it);
        }
      }
  }

  lemma StartIsGood(rs: seq<MemoryRange>, dm: AccessMode, lo: uint64, hi: uint64, mode: AccessMode)
    requires WellFormed(rs) && lo <= hi
    ensures Good(rs, dm, lo, hi, mode, Start(rs, lo))
  {
    var k0 := UpperBound(rs, lo);
    assert k0 > 0 ==> forall i :: 0 <= i < k0 - 1 ==> rs[i].end < rs[k0 - 1].start;
  }

  // Whenever the loop answers, the answer is the stated one: true exactly when every address has
  // the mode, except after a stale neighbour or a wrap.
  lemma {:induction false} RunAnswers(rs: seq<MemoryRange>, dm: AccessMode, lo: uint64, hi: uint64,
                                      mode: AccessMode, n: nat)
    requires WellFormed(rs) && lo <= hi
    ensures Good(rs, dm, lo, hi, mode, Run(rs, dm, lo, hi, mode, n))
  {
    if n == 0 {
      StartIsGood(rs, dm, lo, hi, mode);
    } else {
      RunAnswers(rs, dm, lo, hi, mode, n - 1);
      StepIsGood(rs, dm, lo, hi, mode, Run(rs, dm, lo, hi, mode, n - 1));
    }
  }

  // The loop's measure: the ranges left, then the addresses left, though the cursor may move back.
  lemma StepDescends(rs: seq<MemoryRange>, dm: AccessMode, lo: uint64, hi: uint64, mode: AccessMode,
                     cursor: uint64, it: nat)
    requires WellFormed(rs) && lo <= hi && !Diverges(rs, dm, lo, hi, mode)
    requires Good(rs, dm, lo, hi, mode, Running(cursor, it)) && cursor <= hi
    ensures it <= |rs|
    ensures var s := Step(rs, dm, hi, mode, Running(cursor, it));
            s.Running? ==> it < s.it <= |rs| || (s.it == it && cursor < s.cursor <= hi + 1)
  {
    hide WellFormed, FullyCovered, ModeAt, Stored, StaleNeighbour, UpperBound;
    if dm == mode && (it >= |rs| || rs[it].start > cursor) && Scanning(rs, dm, lo, hi, mode, cursor, it) {
      var gapEnd := if it < |rs| && rs[it].start - 1 < hi then rs[it].start - 1 else hi;
      GapMove(rs, dm, lo, hi, mode, cursor, it, gapEnd);
      if gapEnd == UINT64_MAX {
        PastTheTop(rs, dm, lo, mode, it);
        assert false;
      }
    }
  }

  lemma PastTheTop(rs: seq<MemoryRange>, dm: AccessMode, lo: uint64, mode: AccessMode, it: nat)
    requires Scanning(rs, dm, lo, UINT64_MAX, mode, TWO_TO_THE_64, it)
    requires dm == mode
    ensures it == |rs| && Diverges(rs, dm, lo, UINT64_MAX, mode)
  {
    hide ModeAt;
  }

  // A query that reaches the last address is never answered with true: the loop's guard cannot fail.
  lemma {:induction false} TopIsNeverCovered(rs: seq<MemoryRange>, dm: AccessMode, lo: uint64, mode: AccessMode, n: nat)
    ensures Run(rs, dm, lo, UINT64_MAX, mode, n) != Answer(true)
  {
    if n > 0 {
      TopIsNeverCovered(rs, dm, lo, mode, n - 1);
    }
  }

  lemma {:induction false} Ends(rs: seq<MemoryRange>, dm: AccessMode, lo: uint64, hi: uint64, mode: AccessMode, n: nat)
    returns (m: nat)
    requires WellFormed(rs) && lo <= hi && !Diverges(rs, dm, lo, hi, mode)
    ensures Run(rs, dm, lo, hi, mode, m).Answer?
    decreases match Run(rs, dm, lo, hi, mode, n) case Answer(_) => -1 case Running(_, it) => |rs| - it,
              match Run(rs, dm, lo, hi, mode, n) case Answer(_) => 0 case Running(cursor, _) => hi + 1 - cursor
  {
    hide WellFormed, Diverges, Good;
    m := n;
    RunAnswers(rs, dm, lo, hi, mode, n);
    match Run(rs, dm, lo, hi, mode, n)
    case Answer(_) =>
    case Running(cursor, it) =>
      if cursor > hi {
        m := n + 1;
      } else {
        StepDescends(rs, dm, lo, hi, mode, cursor, it);
        m := Ends(rs, dm, lo, hi, mode, n + 1);
      }
  }

  // The loop runs forever exactly for the queries that reach the last address, all in the asked
  // mode, when that is the default mode too and no stale neighbour precedes the query.
  lemma DivergesExactly(rs: seq<MemoryRange>, dm: AccessMode, lo: uint64, hi: uint64, mode: AccessMode)
    requires WellFormed(rs) && lo <= hi
    ensures Diverges(rs, dm, lo, hi, mode) <==> forall n: nat :: Run(rs, dm, lo, hi, mode, n).Running?
  {
    hide WellFormed, FullyCovered;
    if Diverges(rs, dm, lo, hi, mode) {
      forall n: nat
        ensures Run(rs, dm, lo, hi, mode, n).Running?
      {
        RunAnswers(rs, dm, lo, hi, mode, n);
        TopIsNeverCovered(rs, dm, lo, mode, n);
      }
    } else {
      var m := Ends(rs, dm, lo, hi, mode, 0);
    }
  }

  // The two exceptions are real: a fully covered query that is answered with false.
  lemma StaleNeighbourMisleads()
    ensures var rs := [MemoryRange(0, 4, CONCRETE)];
            && WellFormed(rs) && FullyCovered(rs, SYMBOLIC, 8, 9, SYMBOLIC)
            && Run(rs, SYMBOLIC, 8, 9, SYMBOLIC, 1) == Answer(false)
  {
    var rs := [MemoryRange(0, 4, CONCRETE)];
    forall a: int | 8 <= a <= 9
      ensures ModeAt(rs, SYMBOLIC, a) == SYMBOLIC
    {
      NoneStored(rs, a);
    }
    assert Run(rs, SYMBOLIC, 8, 9, SYMBOLIC, 0) == Running(8, 0);
  }

  lemma WrapMisleads()
    ensures var rs := [MemoryRange(0, UINT64_MAX, CONCRETE)];
            && WellFormed(rs) && FullyCovered(rs, SYMBOLIC, 8, 9, CONCRETE)
            && Run(rs, SYMBOLIC, 8, 9, CONCRETE, 2) == Answer(false)
  {
    var rs := [MemoryRange(0, UINT64_MAX, CONCRETE)];
    forall a: int | 8 <= a <= 9
      ensures ModeAt(rs, SYMBOLIC, a) == CONCRETE
    {
      StoredAt(rs, 0, a);
    }
    assert Run(rs, SYMBOLIC, 8, 9, CONCRETE, 0) == Running(8, 0);
    assert Run(rs, SYMBOLIC, 8, 9, CONCRETE, 1) == Running(0, 1);
  }
}
