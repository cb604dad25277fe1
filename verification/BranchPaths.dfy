/** The shapes in which lifting a block ends (lifter/PathSolver.ipp), and the states that reach a
    block along branches. */
module BranchPaths {
  import opened Ints
  import opened SnapshotSpec

  datatype BBInfo = BBInfo(address: Address, block: Block)

  // How lifting a block ends: one solved target, two targets on a condition, or none.
  datatype Ending =
    | Solved(target: Address)
    | TwoWay(first: Address, second: Address, condition: Value)
    | Unsolved

  // What lifting one block does: changes of the live state, then its ending.
  datatype Lift = Lift(changes: seq<Step>, ending: Ending)

  // What the n-th lifted block does.
  type Program = nat -> Lift

  predicate Quiet(step: Step) {
    InRange(step) && !step.Backup? && !step.Load?
  }

  ghost predicate AllQuiet(steps: seq<Step>) {
    forall k :: 0 <= k < |steps| ==> Quiet(steps[k]) && InRange(steps[k])
  }

  ghost predicate QuietLift(l: Lift) {
    AllQuiet(l.changes)
  }

  ghost predicate QuietProgram(p: Program) {
    forall n: nat :: QuietLift(p(n))
  }

  // The live state after changes that neither back up nor load.
  function After(steps: seq<Step>, v: View): View
    requires WellSized(v) && forall k :: 0 <= k < |steps| ==> InRange(steps[k])
  {
    ApplyAll(steps, Snapshots(v, map[])).live
  }

  lemma {:induction false} QuietChanges(steps: seq<Step>, s: Snapshots)
    requires Sized(s) && AllQuiet(steps)
    ensures ApplyAll(steps, s) == Snapshots(After(steps, s.live), s.saved)
    decreases |steps|
  {
    if steps == [] {
    } else {
      QuietChanges(steps[..|steps| - 1], s);
    }
  }

  // The targets that a lift started in state v branches to, each with the state it is reached in.
  // A solved target takes over the live state, which the finished instruction has counted; the
  // targets of a condition take the states backed up for them.
  ghost function Outgoing(l: Lift, v: View): set<(Address, View)>
    requires WellSized(v) && QuietLift(l)
  {
    var w := After(l.changes, v);
    match l.ending
    case Solved(t) => {(t, w.(counter := (w.counter + 1) % TWO_TO_THE_32))}
    case TwoWay(first, second, c) =>
      {(first, w.(assumptions := w.assumptions[c := 1])), (second, w.(assumptions := w.assumptions[c := 0]))}
    case Unsolved => {}
  }

  ghost predicate Leads(l: Lift, from: View, a: Address, v: View) {
    WellSized(from) && QuietLift(l) && (a, v) in Outgoing(l, from)
  }

  // What a step along a path does to the state.  On the side of its first target a condition is
  // supposed to hold, on the other one not to.
  lemma LeadsMeans(l: Lift, from: View, a: Address, v: View)
    requires WellSized(from) && QuietLift(l)
    ensures var w := After(l.changes, from);
            Leads(l, from, a, v) <==>
              match l.ending
              case Solved(t) => a == t && v == w.(counter := (w.counter + 1) % TWO_TO_THE_32)
              case TwoWay(first, second, c) =>
                || (a == first && v == w.(assumptions := w.assumptions[c := 1]))
                || (a == second && v == w.(assumptions := w.assumptions[c := 0]))
              case Unsolved => false
  {
  }

  // One of the first n lifts branches to a in state v.
  ghost predicate Reached(p: Program, started: seq<View>, a: Address, v: View, n: nat) {
    exists j :: 0 <= j < n <= |started| && Leads(p(j), started[j], a, v)
  }

  lemma ReachedLater(p: Program, started: seq<View>, a: Address, v: View, n: nat, more: View)
    requires Reached(p, started, a, v, n)
    ensures Reached(p, started + [more], a, v, n)
    ensures Reached(p, started + [more], a, v, |started| + 1)
  {
    var j :| 0 <= j < n <= |started| && Leads(p(j), started[j], a, v);
    assert (started + [more])[j] == started[j];
  }

  // ------------------------------------------------------------------ whole paths

  // Lifts in order, from the first one to lift k, each branching to the next.
  ghost predicate IsPath(p: Program, at: seq<Address>, started: seq<View>, path: seq<nat>, k: nat) {
    && |at| == |started|
    && path != [] && path[0] == 0 && path[|path| - 1] == k
    && (forall i :: 0 <= i < |path| ==> path[i] < |started|)
    && (forall i :: 0 < i < |path| ==>
          path[i - 1] < path[i] && Leads(p(path[i - 1]), started[path[i - 1]], at[path[i]], started[path[i]]))
  }

  ghost predicate OnPath(p: Program, at: seq<Address>, started: seq<View>, k: nat) {
    exists path :: IsPath(p, at, started, path, k)
  }

  ghost predicate EachReached(p: Program, at: seq<Address>, started: seq<View>) {
    && |at| == |started|
    && forall k :: 1 <= k < |started| ==> Reached(p, started, at[k], started[k], k)
  }

  // If each lift starts as an earlier one branches to it, each lies on a path from the first.
  lemma {:induction false} PathTo(p: Program, at: seq<Address>, started: seq<View>, k: nat) returns (path: seq<nat>)
    requires EachReached(p, at, started) && k < |started|
    ensures IsPath(p, at, started, path, k)
    decreases k
  {
    if k == 0 {
      path := [0];
      assert path[|path| - 1] == 0;
    } else {
      hide Leads, IsPath;
      assert Reached(p, started, at[k], started[k], k);
      var j :| 0 <= j < k && Leads(p(j), started[j], at[k], started[k]);
      var init := PathTo(p, at, started, j);
      path := init + [k];
      PathExtends(p, at, started, init, j, k);
    }
  }

  lemma PathExtends(p: Program, at: seq<Address>, started: seq<View>, init: seq<nat>, j: nat, k: nat)
    requires IsPath(p, at, started, init, j)
    requires j < k < |started| && Leads(p(j), started[j], at[k], started[k])
    ensures IsPath(p, at, started, init + [k], k)
  {
    hide Leads;
    var path := init + [k];
    forall i | 0 < i < |path|
      ensures path[i - 1] < path[i] && Leads(p(path[i - 1]), started[path[i - 1]], at[path[i]], started[path[i]])
    {
      assert i < |init| ==> path[i - 1] == init[i - 1] && path[i] == init[i];
    }
  }

  // Lift k starts where lift j branches to: at a solved target in the state in which lift j ended, or
  // at one of two targets in that state with the condition supposed to hold or not to.
  ghost predicate Follows(p: Program, at: seq<Address>, started: seq<View>, j: nat, k: nat)
    requires j < |started| == |at| && k < |started|
  {
    && WellSized(started[j]) && QuietLift(p(j))
    && var w := After(p(j).changes, started[j]);
       match p(j).ending
       case Solved(t) => at[k] == t && started[k] == w.(counter := (w.counter + 1) % TWO_TO_THE_32)
       case TwoWay(first, second, c) =>
         || (at[k] == first && started[k] == w.(assumptions := w.assumptions[c := 1]))
         || (at[k] == second && started[k] == w.(assumptions := w.assumptions[c := 0]))
       case Unsolved => false
  }

  ghost predicate FollowsSome(p: Program, at: seq<Address>, started: seq<View>, k: nat)
    requires |started| == |at| && k < |started|
  {
    exists j :: 0 <= j < k && Follows(p, at, started, j, k)
  }

  lemma EachFollows(p: Program, at: seq<Address>, started: seq<View>, k: nat)
    requires EachReached(p, at, started) && 0 < k < |started|
    ensures FollowsSome(p, at, started, k)
  {
    assert Reached(p, started, at[k], started[k], k);
    var j :| 0 <= j < k && Leads(p(j), started[j], at[k], started[k]);
    LeadsMeans(p(j), started[j], at[k], started[k]);
    assert Follows(p, at, started, j, k);
  }

  // ------------------------------------------------------------------ the worklist

  // The state in which lifting b would start.
  function StartOf(b: Block, s: Snapshots): View {
    if b in s.saved then s.saved[b] else s.live
  }

  ghost predicate SavedReached(p: Program, started: seq<View>, addressOf: map<Block, Address>,
                               saved: map<Block, View>)
  {
    forall b :: b in saved ==> b in addressOf && Reached(p, started, addressOf[b], saved[b], |started|)
  }

  ghost predicate AllSaved(pending: seq<BBInfo>, saved: map<Block, View>) {
    forall k :: 0 <= k < |pending| ==> pending[k].block in saved
  }

  // Every saved state was reached by a branch to its block.  Pending blocks have one, except that
  // the newest may rely on the live state, which then is the state a branch reached it in.
  ghost predicate Waiting(p: Program, started: seq<View>, addressOf: map<Block, Address>, pending: seq<BBInfo>,
                          s: Snapshots)
  {
    && SavedReached(p, started, addressOf, s.saved)
    && (pending != [] ==>
          && AllSaved(pending[..|pending| - 1], s.saved)
          && var top := pending[|pending| - 1];
             top.block in s.saved || started == [] || Reached(p, started, top.address, s.live, |started|))
  }

  // Popping: the taken block starts in a state that a branch reached it in, and the others are saved.
  lemma Popped(p: Program, started: seq<View>, addressOf: map<Block, Address>, pending: seq<BBInfo>, s: Snapshots,
               n: nat)
    requires Waiting(p, started, addressOf, pending, s) && n < |pending|
    requires pending[n].block in addressOf ==> addressOf[pending[n].block] == pending[n].address
    ensures AllSaved(pending[..n], s.saved)
    ensures started == [] || Reached(p, started, pending[n].address, StartOf(pending[n].block, s), |started|)
  {
    hide Reached;
    if n < |pending| - 1 {
      assert pending[..|pending| - 1][n] == pending[n];
    }
  }

  lemma SavedWaits(p: Program, started: seq<View>, addressOf: map<Block, Address>, pending: seq<BBInfo>, s: Snapshots)
    requires SavedReached(p, started, addressOf, s.saved) && AllSaved(pending, s.saved)
    ensures Waiting(p, started, addressOf, pending, s)
  {
  }

  // One more lift leaves what was reached reached.
  lemma SavedStaysReached(p: Program, started: seq<View>, addressOf: map<Block, Address>,
                          addressOf': map<Block, Address>, saved: map<Block, View>, more: View)
    requires SavedReached(p, started, addressOf, saved)
    requires forall b :: b in addressOf ==> b in addressOf' && addressOf'[b] == addressOf[b]
    ensures SavedReached(p, started + [more], addressOf', saved)
  {
    hide Reached;
    forall b | b in saved
      ensures Reached(p, started + [more], addressOf'[b], saved[b], |started| + 1)
    {
      ReachedLater(p, started, addressOf[b], saved[b], |started|, more);
    }
  }

  lemma EachReachedGrows(p: Program, at: seq<Address>, started: seq<View>, a: Address, v: View)
    requires EachReached(p, at, started)
    requires started == [] || Reached(p, started, a, v, |started|)
    ensures EachReached(p, at + [a], started + [v])
  {
    hide Reached;
    forall k | 1 <= k < |started| + 1
      ensures Reached(p, started + [v], (at + [a])[k], (started + [v])[k], k)
    {
      if k < |started| {
        ReachedLater(p, started, at[k], started[k], k, v);
      } else {
        ReachedLater(p, started, a, v, k, v);
      }
    }
  }

  // ------------------------------------------------------------------ endings

  // What an ending does to the worklist and the snapshots, from live state s0.live.
  ghost predicate Ended(ending: Ending, pending0: seq<BBInfo>, s0: Snapshots, pending: seq<BBInfo>, s: Snapshots,
                        addressOf: map<Block, Address>)
  {
    var n := |pending0|;
    match ending
    case Solved(t) =>
      && |pending| == n + 1 && pending[..n] == pending0 && pending[n].address == t
      && s == Snapshots(s0.live.(counter := (s0.live.counter + 1) % TWO_TO_THE_32), s0.saved)
    case TwoWay(first, second, c) =>
      && |pending| == n + 2 && pending[..n] == pending0
      && pending[n].address == second && pending[n + 1].address == first
      && addressOf.Keys >= {pending[n].block, pending[n + 1].block}
      && addressOf[pending[n].block] == second && addressOf[pending[n + 1].block] == first
      && s.saved == s0.saved[pending[n].block := s0.live.(assumptions := s0.live.assumptions[c := 0])]
                            [pending[n + 1].block := s0.live.(assumptions := s0.live.assumptions[c := 1])]
    case Unsolved =>
      pending == pending0 && s.saved == s0.saved
  }

  lemma ReachedByLast(p: Program, started: seq<View>, a: Address, v: View)
    requires started != [] && Leads(p(|started| - 1), started[|started| - 1], a, v)
    ensures Reached(p, started, a, v, |started|)
  {
  }

  // After a lift the pending blocks wait in reached states again.  A solved target needs no backup:
  // it is on top of the worklist and takes the live state.
  lemma EndedWaits(p: Program, started: seq<View>, addressOf: map<Block, Address>,
                   pending0: seq<BBInfo>, s0: Snapshots, pending: seq<BBInfo>, s: Snapshots)
    requires started != [] && SavedReached(p, started, addressOf, s0.saved) && AllSaved(pending0, s0.saved)
    requires var l, v := p(|started| - 1), started[|started| - 1];
             WellSized(v) && QuietLift(l) && s0.live == After(l.changes, v)
             && Ended(l.ending, pending0, s0, pending, s, addressOf)
    ensures Waiting(p, started, addressOf, pending, s)
  {
    hide Reached, After, QuietLift;
    var l, v, n := p(|started| - 1), started[|started| - 1], |pending0|;
    match l.ending
    case Solved(t) =>
      ReachedByLast(p, started, t, s.live);
      assert pending[..|pending| - 1] == pending0;
    case TwoWay(first, second, c) =>
      ReachedByLast(p, started, second, s0.live.(assumptions := s0.live.assumptions[c := 0]));
      ReachedByLast(p, started, first, s0.live.(assumptions := s0.live.assumptions[c := 1]));
      forall k | 0 <= k < |pending|
        ensures pending[k].block in s.saved
      {
        assert k < n ==> pending[k] == pending0[k];
      }
      SavedWaits(p, started, addressOf, pending, s);
    case Unsolved =>
      SavedWaits(p, started, addressOf, pending, s);
  }

  // The whole lift of a block taken from the worklist, as a step of the worklist's meaning.
  lemma LiftKeepsPaths(p: Program, at: seq<Address>, started: seq<View>, a: Address, v: View,
                       addressOf: map<Block, Address>, addressOf': map<Block, Address>,
                       pending0: seq<BBInfo>, s0: Snapshots, pending: seq<BBInfo>, s: Snapshots)
    requires EachReached(p, at, started)
    requires SavedReached(p, started, addressOf, s0.saved) && AllSaved(pending0, s0.saved)
    requires started == [] || Reached(p, started, a, v, |started|)
    requires forall b :: b in addressOf ==> b in addressOf' && addressOf'[b] == addressOf[b]
    requires var l := p(|started|);
             WellSized(v) && QuietLift(l) && s0.live == After(l.changes, v)
             && Ended(l.ending, pending0, s0, pending, s, addressOf')
    ensures EachReached(p, at + [a], started + [v])
    ensures Waiting(p, started + [v], addressOf', pending, s)
  {
    hide EachReached, SavedReached, AllSaved, Reached, QuietLift, After, Ended, Waiting;
    EachReachedGrows(p, at, started, a, v);
    SavedStaysReached(p, started, addressOf, addressOf', s0.saved, v);
    EndedWaits(p, started + [v], addressOf', pending0, s0, pending, s);
  }
}
