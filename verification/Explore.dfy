/** The exploration loop of lifter/lifter.cpp over the worklist of lifter/lifterClass.hpp.  Lifting
    a block is an abstract step: it makes the block non-empty, changes the live state, and creates,
    backs up and pushes blocks. */
module Explore {
  import opened Ints
  import opened SnapshotSpec
  import opened BranchPaths

  // What lifting one block does, in order.
  datatype Effect =
    | Change(step: Step)             // of the live state or the snapshots
    | Branch(target: Address)        // getOrCreateBB and push

  // Which effects the n-th lifted block has.
  type Lifting = nat -> seq<Effect>

  ghost predicate Sane(lifting: Lifting) {
    forall n: nat, e :: e in lifting(n) && e.Change? ==> InRange(e.step)
  }

  ghost predicate Targets(lifting: Lifting, targets: set<Address>) {
    forall n: nat :: TargetsWithin(lifting(n), targets)
  }

  // The state changes among the effects, and the branch targets, in order.
  function StepsOf(effects: seq<Effect>): seq<Step> {
    if effects == [] then []
    else
      var e := effects[|effects| - 1];
      StepsOf(effects[..|effects| - 1]) + if e.Change? then [e.step] else []
  }

  function TargetsOf(effects: seq<Effect>): seq<Address> {
    if effects == [] then []
    else
      var e := effects[|effects| - 1];
      TargetsOf(effects[..|effects| - 1]) + if e.Branch? then [e.target] else []
  }

  function AddressesOf(pending: seq<BBInfo>): seq<Address> {
    seq(|pending|, k requires 0 <= k < |pending| => pending[k].address)
  }

  ghost predicate StepsInRange(steps: seq<Step>) {
    forall k :: 0 <= k < |steps| ==> InRange(steps[k])
  }

  // The effects changed the state by their steps and pushed blocks for their targets, in order.
  ghost predicate Ran(effects: seq<Effect>, pending0: seq<BBInfo>, s0: Snapshots, pending: seq<BBInfo>, s: Snapshots) {
    && |pending0| <= |pending| && pending[..|pending0|] == pending0
    && AddressesOf(pending) == AddressesOf(pending0) + TargetsOf(effects)
    && Sized(s0) && StepsInRange(StepsOf(effects))
    && s == ApplyAll(StepsOf(effects), s0)
  }

  // Blocks keep their address.
  ghost predicate Extends(m: map<Address, Block>, m': map<Address, Block>) {
    forall a :: a in m ==> a in m' && m'[a] == m[a]
  }

  // Every branch among the effects has its target's block on record.
  ghost predicate AllPushed(effects: seq<Effect>, blocks: map<Address, Block>, pushed: set<Block>) {
    forall e :: e in effects && e.Branch? ==> e.target in blocks && blocks[e.target] in pushed
  }

  lemma AllPushedKept(effects: seq<Effect>, m: map<Address, Block>, m': map<Address, Block>, pushed: set<Block>,
                      pushed': set<Block>)
    requires AllPushed(effects, m, pushed) && Extends(m, m') && pushed <= pushed'
    ensures AllPushed(effects, m', pushed')
  {
  }

  ghost predicate FirstPushed(lifting: Lifting, n: nat, blocks: map<Address, Block>, pushed: set<Block>) {
    forall k: nat :: k < n ==> AllPushed(lifting(k), blocks, pushed)
  }

  lemma BranchesKept(lifting: Lifting, n: nat, m: map<Address, Block>, m': map<Address, Block>, pushed: set<Block>,
                     pushed': set<Block>)
    requires FirstPushed(lifting, n, m, pushed) && AllPushed(lifting(n), m', pushed')
    requires Extends(m, m') && pushed <= pushed'
    ensures FirstPushed(lifting, n + 1, m', pushed')
  {
    forall k: nat | k < n
      ensures AllPushed(lifting(k), m', pushed')
    {
      AllPushedKept(lifting(k), m, m', pushed, pushed');
    }
  }

  lemma AllPushedMore(effects: seq<Effect>, k: nat, m: map<Address, Block>, m': map<Address, Block>,
                      pushed: set<Block>, pushed': set<Block>)
    requires k < |effects| && AllPushed(effects[..k], m, pushed) && Extends(m, m') && pushed <= pushed'
    requires effects[k].Branch? ==> effects[k].target in m' && m'[effects[k].target] in pushed'
    ensures AllPushed(effects[..k + 1], m', pushed')
  {
    assert effects[..k + 1] == effects[..k] + [effects[k]];
  }

  lemma ExtendsFurther(m: map<Address, Block>, m': map<Address, Block>, m'': map<Address, Block>)
    requires Extends(m, m') && Extends(m', m'')
    ensures Extends(m, m'')
  {
  }

  lemma UnliftedExtends(targets: set<Address>, m: map<Address, Block>, m': map<Address, Block>, lifts: seq<Block>)
    requires Extends(m, m')
    ensures UnliftedIn(targets, m', lifts) <= UnliftedIn(targets, m, lifts)
  {
  }

  ghost predicate PendingWithin(pending: seq<BBInfo>, entry: Block, targets: set<Address>) {
    forall k :: 0 <= k < |pending| && pending[k].block != entry ==> pending[k].address in targets
  }

  ghost predicate TargetsWithin(effects: seq<Effect>, targets: set<Address>) {
    forall e :: e in effects && e.Branch? ==> e.target in targets
  }

  lemma {:induction false} TargetsAreWithin(effects: seq<Effect>, targets: set<Address>)
    requires TargetsWithin(effects, targets)
    ensures forall a :: a in TargetsOf(effects) ==> a in targets
  {
    if effects != [] {
      var init := effects[..|effects| - 1];
      assert effects[|effects| - 1] in effects && forall e :: e in init ==> e in effects;
      TargetsAreWithin(init, targets);
    }
  }

  lemma RanWithin(effects: seq<Effect>, pending0: seq<BBInfo>, s0: Snapshots, pending: seq<BBInfo>, s: Snapshots,
                  entry: Block, targets: set<Address>)
    requires Ran(effects, pending0, s0, pending, s)
    requires PendingWithin(pending0, entry, targets) && TargetsWithin(effects, targets)
    ensures PendingWithin(pending, entry, targets)
  {
    hide StepsOf, TargetsOf, TargetsWithin, StepsInRange;
    TargetsAreWithin(effects, targets);
    var n := |pending0|;
    forall k | 0 <= k < |pending| && pending[k].block != entry
      ensures pending[k].address in targets
    {
      assert AddressesOf(pending)[k] == pending[k].address;
      if k < n {
        assert pending[..n][k] == pending0[k];
      } else {
        assert AddressesOf(pending)[k] == TargetsOf(effects)[k - n];
        assert TargetsOf(effects)[k - n] in TargetsOf(effects);
      }
    }
  }

  lemma RanMore(effects: seq<Effect>, k: nat, pending0: seq<BBInfo>, s0: Snapshots,
                pending: seq<BBInfo>, s: Snapshots, pending': seq<BBInfo>, s': Snapshots)
    requires k < |effects| && Ran(effects[..k], pending0, s0, pending, s) && Sized(s)
    requires match effects[k]
             case Change(step) => InRange(step) && pending' == pending && s' == Apply(step, s)
             case Branch(target) =>
               s' == s && exists b: Block :: pending' == pending + [BBInfo(target, b)]
    ensures Ran(effects[..k + 1], pending0, s0, pending', s')
  {
    hide Apply, ApplyAll, InRange, StepsOf, TargetsOf, AddressesOf, StepsInRange, Sized;
    OneMoreEffect(effects, k);
    if effects[k].Change? {
      ApplyOneMore(StepsOf(effects[..k]), effects[k].step, s0);
    } else {
      AddressesGrow(pending);
    }
  }

  lemma OneMoreEffect(effects: seq<Effect>, k: nat)
    requires k < |effects|
    ensures effects[k].Change? ==> StepsOf(effects[..k + 1]) == StepsOf(effects[..k]) + [effects[k].step]
    ensures effects[k].Change? ==> TargetsOf(effects[..k + 1]) == TargetsOf(effects[..k])
    ensures effects[k].Branch? ==> StepsOf(effects[..k + 1]) == StepsOf(effects[..k])
    ensures effects[k].Branch? ==> TargetsOf(effects[..k + 1]) == TargetsOf(effects[..k]) + [effects[k].target]
  {
    assert effects[..k + 1][..k] == effects[..k];
  }

  lemma NoEffects(effects: seq<Effect>, s: Snapshots, pending: seq<BBInfo>)
    requires Sized(s)
    ensures Ran(effects[..0], pending, s, pending, s)
    ensures forall m, pushed :: AllPushed(effects[..0], m, pushed)
    ensures forall m :: Extends(m, m)
  {
  }

  lemma AddressesGrow(pending: seq<BBInfo>)
    ensures forall b: BBInfo :: AddressesOf(pending + [b]) == AddressesOf(pending) + [b.address]
  {
  }

  lemma ApplyOneMore(steps: seq<Step>, step: Step, s: Snapshots)
    requires Sized(s) && StepsInRange(steps) && InRange(step)
    ensures StepsInRange(steps + [step])
    ensures ApplyAll(steps + [step], s) == Apply(step, ApplyAll(steps, s))
  {
    assert (steps + [step])[..|steps|] == steps;
  }

  predicate NoRepeats(s: seq<Block>) {
    forall i, j :: 0 <= i < j < |s| ==> s[i] != s[j]
  }

  lemma NoRepeatsMore(s: seq<Block>, b: Block)
    requires NoRepeats(s) && b !in s
    ensures NoRepeats(s + [b])
  {
  }

  lemma ApplySized(step: Step, s: Snapshots)
    requires InRange(step) && Sized(s)
    ensures WellSized(s.live) && (forall b :: b in s.saved ==> WellSized(s.saved[b])) && Sized(Apply(step, s))
  {
  }

  lemma LoadLive(b: Block, s: Snapshots)
    requires Sized(s)
    ensures InRange(Load(b)) && WellSized(s.live) && (forall b :: b in s.saved ==> WellSized(s.saved[b]))
    ensures Sized(Apply(Load(b), s))
    ensures Apply(Load(b), s) == Snapshots(StartOf(b, s), s.saved)
  {
  }

  function UnliftedIn(targets: set<Address>, blocks: map<Address, Block>, lifts: seq<Block>): set<Address> {
    set a | a in targets && !(a in blocks && blocks[a] in lifts)
  }

  lemma LiftShrinks(targets: set<Address>, blocks: map<Address, Block>, lifts: seq<Block>, b: Block, a: Address)
    requires b !in lifts
    ensures UnliftedIn(targets, blocks, lifts + [b]) <= UnliftedIn(targets, blocks, lifts)
    ensures a in targets && a in blocks && blocks[a] == b ==>
              UnliftedIn(targets, blocks, lifts + [b]) < UnliftedIn(targets, blocks, lifts)
  {
    assert forall c :: c in lifts + [b] <==> c in lifts || c == b;
    if a in targets && a in blocks && blocks[a] == b {
      assert a in UnliftedIn(targets, blocks, lifts) && a !in UnliftedIn(targets, blocks, lifts + [b]);
    }
  }

  class Lifter {
    const basic: bool                          // ControlFlow::Basic, else Unflatten
    const entry: Block
    var unvisitedBlocks: seq<BBInfo>
    var visitedAddresses: set<Address>
    var addrToBB: map<Address, Block>
    var blockInfo: BBInfo
    var nonEmpty: set<Block>
    var nextBlock: Block                       // blocks are created in this order
    var state: Snapshots                       // live state and BBbackup
    var lifts: seq<Block>                      // every lift so far, in order
    ghost var pushed: set<Block>               // every block ever put on the worklist
    ghost var startedWith: seq<View>           // the live state each lift started with
    ghost var liftedAt: seq<Address>           // the address each lift started at
    ghost var addressOf: map<Block, Address>   // the address each block was created for

    // Everything ever pushed has been lifted or is still pending.
    ghost predicate Valid()
      reads `state, `addrToBB, `addressOf, `nextBlock, `unvisitedBlocks, `nonEmpty, `lifts, `startedWith,
            `liftedAt, `pushed
    {
      Core() && NoneLost({})
    }

    ghost predicate NoneLost(held: set<Block>)
      reads `pushed, `lifts, `unvisitedBlocks
    {
      forall b :: b in pushed ==>
        b in lifts || b in held || exists k :: 0 <= k < |unvisitedBlocks| && unvisitedBlocks[k].block == b
    }

    // Only lifting fills blocks other than the entry block.
    ghost predicate Core()
      reads `state, `addrToBB, `addressOf, `nextBlock, `unvisitedBlocks, `nonEmpty, `lifts, `startedWith, `liftedAt
    {
      && Sized(state)
      && entry < nextBlock && entry !in addrToBB.Values
      && (forall a :: a in addrToBB ==> addrToBB[a] < nextBlock)
      && (forall a :: a in addrToBB ==> addrToBB[a] in addressOf && addressOf[addrToBB[a]] == a)
      && (forall b :: b in addressOf ==> b < nextBlock && b != entry)
      && (forall k :: 0 <= k < |unvisitedBlocks| ==> Known(unvisitedBlocks[k]))
      && (forall b :: b in nonEmpty ==> b == entry || b in lifts)
      && (forall b :: b in lifts ==> b in nonEmpty && b < nextBlock)
      && NoRepeats(lifts)
      && |startedWith| == |liftedAt| == |lifts|
    }

    // A worklist entry names the entry block or a created block; in Basic mode, its address's block.
    ghost predicate Known(b: BBInfo)
      reads `addrToBB, `addressOf, `nextBlock
    {
      && b.block < nextBlock
      && (b.block != entry ==> b.block in addressOf && addressOf[b.block] == b.address)
      && (basic && b.block != entry ==> b.address in addrToBB && addrToBB[b.address] == b.block)
    }

    // Before the first round only the entry is pending; afterwards it has been lifted for good.
    ghost predicate EntryState(filter: bool)
      reads `lifts, `unvisitedBlocks
    {
      if filter then
        && entry in lifts
        && forall k :: 0 <= k < |unvisitedBlocks| ==> unvisitedBlocks[k].block != entry
      else
        && lifts == [] && |unvisitedBlocks| == 1 && unvisitedBlocks[0].block == entry
    }

    constructor (basic: bool, runtimeAddress: Address, live: View, entryEmpty: bool)
      requires WellSized(live)
      ensures Valid() && EntryState(false) && this.basic == basic
      ensures state == Snapshots(live, map[]) && addrToBB == map[] && pushed == {entry} && lifts == []
      ensures unvisitedBlocks == [BBInfo(runtimeAddress, entry)]
      ensures startedWith == [] && liftedAt == []
    {
      this.basic, entry, nextBlock := basic, 0, 1;
      blockInfo := BBInfo(runtimeAddress, 0);
      unvisitedBlocks := [BBInfo(runtimeAddress, 0)];
      visitedAddresses, addrToBB := {}, map[];
      nonEmpty := if entryEmpty then {} else {0};
      state := Snapshots(live, map[]);
      lifts, pushed, startedWith, liftedAt, addressOf := [], {0}, [], [], map[];
      new;
      assert unvisitedBlocks[0].block == 0;
    }

    method AddUnvisitedAddr(bb: BBInfo)
      requires Valid() && Known(bb)
      modifies `unvisitedBlocks, `pushed
      ensures Valid()
      ensures unvisitedBlocks == old(unvisitedBlocks) + [bb] && pushed == old(pushed) + {bb.block}
    {
      unvisitedBlocks := unvisitedBlocks + [bb];
      pushed := pushed + {bb.block};
      assert unvisitedBlocks[|unvisitedBlocks| - 1] == bb;
      assert forall k :: 0 <= k < |old(unvisitedBlocks)| ==> unvisitedBlocks[k] == old(unvisitedBlocks)[k];
    }

    // In Basic mode one block per address; in Unflatten mode always a new block.
    method GetOrCreateBB(addr: Address) returns (bb: Block)
      requires Valid()
      modifies `addrToBB, `addressOf, `nextBlock
      ensures Valid()
      ensures Known(BBInfo(addr, bb)) && bb != entry && addr in addrToBB && addrToBB[addr] == bb
      ensures basic && addr in old(addrToBB) ==> bb == old(addrToBB)[addr] && addrToBB == old(addrToBB)
      ensures !(basic && addr in old(addrToBB)) ==> bb >= old(nextBlock) && addrToBB == old(addrToBB)[addr := bb]
      ensures old(nextBlock) <= nextBlock
      ensures forall b :: b in old(addressOf) ==> b in addressOf && addressOf[b] == old(addressOf)[b]
    {
      if basic && addr in addrToBB {
        return addrToBB[addr];
      }
      bb := nextBlock;
      nextBlock := nextBlock + 1;
      addrToBB := addrToBB[addr := bb];
      addressOf := addressOf[bb := addr];
    }

    // Pops the worklist.  In Basic mode with the filter on, a non-empty block is dropped and the
    // next one is taken unfiltered.
    method GetUnvisitedAddr(filter: bool) returns (found: bool, out: BBInfo)
      modifies `unvisitedBlocks, `visitedAddresses, `blockInfo
      ensures var n := |unvisitedBlocks|; found ==>
        && n < |old(unvisitedBlocks)| && unvisitedBlocks == old(unvisitedBlocks)[..n]
        && out == old(unvisitedBlocks)[n] && blockInfo == out
        && visitedAddresses == old(visitedAddresses) + {out.address}
      ensures !found ==> unvisitedBlocks == []
      ensures forall k :: (if found then |unvisitedBlocks| + 1 else 0) <= k < |old(unvisitedBlocks)| ==>
                basic && filter && old(unvisitedBlocks)[k].block in nonEmpty
      decreases filter
    {
      out := BBInfo(0, 0);
      if unvisitedBlocks == [] {
        return false, out;
      }
      out := unvisitedBlocks[|unvisitedBlocks| - 1];
      unvisitedBlocks := unvisitedBlocks[..|unvisitedBlocks| - 1];
      if basic && out.block in nonEmpty && filter {
        found, out := GetUnvisitedAddr(false);
        return;
      }
      visitedAddresses := visitedAddresses + {out.address};
      blockInfo := out;
      found := true;
    }

    // ---------------------------------------------------------------- termination in Basic mode

    // Every pending block other than the entry was reached by a branch to one of the targets.
    ghost predicate PendingIn(targets: set<Address>)
      reads `unvisitedBlocks
    {
      PendingWithin(unvisitedBlocks, entry, targets)
    }

    // The target addresses whose block has not been lifted.
    ghost function Unlifted(targets: set<Address>): set<Address>
      reads `addrToBB, `lifts
    {
      UnliftedIn(targets, addrToBB, lifts)
    }

    // One effect of a lift.
    method RunEffect(e: Effect)
      requires Valid() && EntryState(true) && (e.Change? ==> InRange(e.step))
      modifies `unvisitedBlocks, `pushed, `addrToBB, `addressOf, `nextBlock, `blockInfo, `state
      ensures Valid() && EntryState(true) && Sized(state)
      ensures pushed >= old(pushed)
      ensures basic ==> Extends(old(addrToBB), addrToBB)
      ensures e.Change? ==> unvisitedBlocks == old(unvisitedBlocks) && state == Apply(e.step, old(state))
      ensures e.Branch? ==>
        && state == old(state) && e.target in addrToBB && addrToBB[e.target] in pushed
        && unvisitedBlocks == old(unvisitedBlocks) + [BBInfo(e.target, addrToBB[e.target])]
    {
      match e
      case Change(step) =>
        ApplySized(step, state);
        state := Apply(step, state);
      case Branch(target) =>
        PushBranch(target);
    }

    // A block for a branch target is put on the worklist.
    method PushBranch(target: Address)
      requires Valid() && EntryState(true)
      modifies `unvisitedBlocks, `pushed, `addrToBB, `addressOf, `nextBlock, `blockInfo
      ensures Valid() && EntryState(true)
      ensures pushed >= old(pushed)
      ensures basic ==> Extends(old(addrToBB), addrToBB)
      ensures forall b :: b in old(addressOf) ==> b in addressOf && addressOf[b] == old(addressOf)[b]
      ensures target in addrToBB && addrToBB[target] in pushed
      ensures unvisitedBlocks == old(unvisitedBlocks) + [BBInfo(target, addrToBB[target])]
    {
      hide Apply, Core, NoneLost;
      var bb := GetOrCreateBB(target);
      blockInfo := BBInfo(target, bb);
      AddUnvisitedAddr(blockInfo);
    }

    // Every branch of every lifted block has its target's block on record.
    ghost predicate BranchesPushed(lifting: Lifting)
      reads `lifts, `addrToBB, `pushed
    {
      FirstPushed(lifting, |lifts|, addrToBB, pushed)
    }

    // Runs the effects of one lift.
    method RunEffects(effects: seq<Effect>)
      requires Valid() && EntryState(true)
      requires forall e :: e in effects && e.Change? ==> InRange(e.step)
      modifies `unvisitedBlocks, `pushed, `addrToBB, `addressOf, `nextBlock, `blockInfo, `state
      ensures Valid() && EntryState(true)
      ensures pushed >= old(pushed)
      ensures Ran(effects, old(unvisitedBlocks), old(state), unvisitedBlocks, state)
      ensures basic ==> Extends(old(addrToBB), addrToBB) && AllPushed(effects, addrToBB, pushed)
    {
      assert Sized(state);
      hide Apply, WellSized, InRange, NoRepeats, Core, NoneLost, EntryState, Ran, Sized, Extends, AllPushed;
      NoEffects(effects, state, unvisitedBlocks);
      for k := 0 to |effects|
        invariant Valid() && EntryState(true)
        invariant pushed >= old(pushed)
        invariant Sized(state) && Ran(effects[..k], old(unvisitedBlocks), old(state), unvisitedBlocks, state)
        invariant basic ==> Extends(old(addrToBB), addrToBB) && AllPushed(effects[..k], addrToBB, pushed)
      {
        assert effects[k] in effects;
        ghost var before := unvisitedBlocks;
        ghost var s, m, pushed0 := state, addrToBB, pushed;
        RunEffect(effects[k]);
        RanMore(effects, k, old(unvisitedBlocks), old(state), before, s, unvisitedBlocks, state);
        if basic {
          ExtendsFurther(old(addrToBB), m, addrToBB);
          AllPushedMore(effects, k, m, addrToBB, pushed0, pushed);
        }
      }
      assert effects[..|effects|] == effects;
    }

    // load_backup and liftBasicBlockFromAddress for a block taken from the worklist.
    method LiftBlock(bb: BBInfo, lifting: Lifting, ghost targets: set<Address>)
      requires Core() && NoneLost({bb.block}) && Sane(lifting)
      requires Known(bb) && bb.block !in lifts && (bb.block == entry || entry in lifts)
      requires forall k :: 0 <= k < |unvisitedBlocks| ==> unvisitedBlocks[k].block != entry
      modifies this
      ensures Valid() && EntryState(true) && pushed >= old(pushed)
      ensures Lifted(old(lifts), old(startedWith), old(state)) && lifts[|old(lifts)|] == bb.block
      ensures Ran(lifting(|old(lifts)|), old(unvisitedBlocks),
                  Snapshots(StartOf(bb.block, old(state)), old(state).saved), unvisitedBlocks, state)
      ensures basic && old(BranchesPushed(lifting)) ==> BranchesPushed(lifting)
      ensures basic && old(PendingIn(targets)) && Targets(lifting, targets) ==>
                && PendingIn(targets)
                && (bb.block != entry && bb.address in targets ==> Unlifted(targets) < old(Unlifted(targets)))
    {
      BeginLift(bb, targets);
      hide Core, NoneLost, EntryState, Sized, NoRepeats, Ran, Lifted, Extends, AllPushed, PendingWithin, UnliftedIn,
           TargetsWithin, FirstPushed, Known, WellSized;
      ghost var blocks := addrToBB;
      RunEffects(lifting(|lifts| - 1));
      if basic {
        UnliftedExtends(targets, blocks, addrToBB, lifts);
        if old(BranchesPushed(lifting)) {
          BranchesKept(lifting, |old(lifts)|, blocks, addrToBB, old(pushed), pushed);
        }
        if PendingWithin(old(unvisitedBlocks), entry, targets) && Targets(lifting, targets) {
          RanWithin(lifting(|lifts| - 1), old(unvisitedBlocks),
                    Snapshots(StartOf(bb.block, old(state)), old(state).saved), unvisitedBlocks, state, entry, targets);
        }
      }
    }

    // Loads the block's snapshot and marks it as lifted.
    method BeginLift(bb: BBInfo, ghost targets: set<Address>)
      requires Core() && NoneLost({bb.block})
      requires Known(bb) && bb.block !in lifts && (bb.block == entry || entry in lifts)
      requires forall k :: 0 <= k < |unvisitedBlocks| ==> unvisitedBlocks[k].block != entry
      modifies `state, `startedWith, `liftedAt, `nonEmpty, `lifts
      ensures Valid() && EntryState(true)
      ensures lifts == old(lifts) + [bb.block]
      ensures liftedAt == old(liftedAt) + [bb.address]
      ensures state == Snapshots(StartOf(bb.block, old(state)), old(state).saved)
      ensures startedWith == old(startedWith) + [state.live] && |startedWith| == |lifts| && WellSized(state.live)
      ensures Lifted(old(lifts), old(startedWith), old(state))
      ensures Unlifted(targets) <= old(Unlifted(targets))
      ensures basic && bb.block != entry && bb.address in targets ==> Unlifted(targets) < old(Unlifted(targets))
    {
      LoadLive(bb.block, state);
      LiftShrinks(targets, addrToBB, lifts, bb.block, bb.address);
      NoRepeatsMore(lifts, bb.block);
      hide Apply, WellSized, InRange, Sized, UnliftedIn, NoRepeats;
      state := Apply(Load(bb.block), state);
      startedWith := startedWith + [state.live];
      liftedAt := liftedAt + [bb.address];
      nonEmpty := nonEmpty + {bb.block};
      lifts := lifts + [bb.block];
      assert bb.block in lifts;
      assert forall b :: b in lifts <==> b in old(lifts) || b == bb.block;
    }

    // One round of the explore loop: pop, skip a block that is not empty, or load its snapshot and
    // lift it.
    method Round(filter: bool, lifting: Lifting, ghost targets: set<Address>) returns (more: bool, filter': bool)
      requires Valid() && EntryState(filter) && Sane(lifting)
      modifies this
      ensures Valid() && EntryState(filter') && pushed >= old(pushed)
      ensures more ==> filter'
      ensures !more ==> unvisitedBlocks == [] && lifts == old(lifts) && filter' == filter
      ensures lifts == old(lifts) || Lifted(old(lifts), old(startedWith), old(state))
      ensures basic && old(BranchesPushed(lifting)) ==> BranchesPushed(lifting)
      ensures basic && old(PendingIn(targets)) && Targets(lifting, targets) ==> PendingIn(targets)
      ensures more && filter && basic && old(PendingIn(targets)) && Targets(lifting, targets) ==>
                || Unlifted(targets) < old(Unlifted(targets))
                || (Unlifted(targets) == old(Unlifted(targets)) && |unvisitedBlocks| < |old(unvisitedBlocks)|)
    {
      var lift, bb;
      more, lift, bb := NextBlock(filter);
      filter' := filter;
      if !lift {
        return;
      }
      filter' := true;
      LiftBlock(bb, lifting, targets);
    }

    // The head of the loop: take a block from the worklist, to be lifted unless it is not empty.
    method NextBlock(filter: bool) returns (more: bool, lift: bool, bb: BBInfo)
      requires Valid() && EntryState(filter)
      modifies `unvisitedBlocks, `visitedAddresses, `blockInfo
      ensures more ==> var n := |unvisitedBlocks|;
                && n < |old(unvisitedBlocks)| && unvisitedBlocks == old(unvisitedBlocks)[..n]
                && bb == old(unvisitedBlocks)[n]
      ensures more ==> Known(bb) && (bb.block in addressOf ==> addressOf[bb.block] == bb.address)
      ensures !more ==> !lift && unvisitedBlocks == []
      ensures !lift ==> Valid() && EntryState(filter) && (more ==> filter)
      ensures lift ==>
        && more && Core() && NoneLost({bb.block})
        && Known(bb) && bb.block !in lifts
        && (if filter then bb.block != entry && entry in lifts else bb.block == entry)
        && forall k :: 0 <= k < |unvisitedBlocks| ==> unvisitedBlocks[k].block != entry
    {
      more, bb := GetUnvisitedAddr(filter);
      PoppedKept(old(unvisitedBlocks), if more then {bb.block} else {});
      lift := more && !(bb.block in nonEmpty && filter);
    }

    // Popping loses nothing: whatever was dropped with the taken block has been lifted.
    lemma PoppedKept(before: seq<BBInfo>, held: set<Block>)
      requires forall b :: b in pushed ==> b in lifts || exists k :: 0 <= k < |before| && before[k].block == b
      requires |unvisitedBlocks| <= |before| && unvisitedBlocks == before[..|unvisitedBlocks|]
      requires forall k :: |unvisitedBlocks| <= k < |before| ==> before[k].block in lifts || before[k].block in held
      ensures NoneLost(held)
    {
      forall b | b in pushed && b !in lifts && b !in held
        ensures exists k :: 0 <= k < |unvisitedBlocks| && unvisitedBlocks[k].block == b
      {
        var k :| 0 <= k < |before| && before[k].block == b;
        assert unvisitedBlocks[k] == before[k];
      }
    }

    // One block more has been lifted, for the first time, starting from its latest snapshot.
    ghost predicate Lifted(lifts0: seq<Block>, started0: seq<View>, state0: Snapshots)
      reads this
    {
      && |lifts| == |lifts0| + 1 && lifts[..|lifts0|] == lifts0
      && var b := lifts[|lifts0|];
         && b !in lifts0
         && startedWith == started0 + [if b in state0.saved then state0.saved[b] else state0.live]
    }

    // ---------------------------------------------------------------- the loop

    // The first n rounds of any run: no block is lifted twice, and if the loop has ended every block
    // ever pushed has been lifted.
    method ExploreRounds(n: nat, lifting: Lifting) returns (ended: bool)
      requires Valid() && EntryState(false) && Sane(lifting)
      modifies this
      ensures Core() && NoRepeats(lifts)
      ensures ended ==> forall b :: b in pushed ==> b in lifts
      ensures pushed >= old(pushed)
    {
      var filter := false;
      for k := 0 to n
        invariant Valid() && EntryState(filter) && pushed >= old(pushed)
      {
        var more;
        more, filter := Round(filter, lifting, {});
        if !more {
          return true;
        }
      }
      return false;
    }

    // ---------------------------------------------------------------- states along branches

    ghost predicate OnPaths(p: Program)
      reads `liftedAt, `startedWith, `addressOf, `unvisitedBlocks, `state
    {
      && EachReached(p, liftedAt, startedWith)
      && Waiting(p, startedWith, addressOf, unvisitedBlocks, state)
    }

    method RunChanges(steps: seq<Step>)
      requires Valid() && EntryState(true) && AllQuiet(steps)
      modifies `state
      ensures Valid() && EntryState(true)
      ensures state == Snapshots(After(steps, old(state).live), old(state).saved)
    {
      hide Apply, WellSized, NoneLost, NoRepeats;
      for k := 0 to |steps|
        invariant Valid() && EntryState(true)
        invariant state == ApplyAll(steps[..k], old(state))
      {
        assert steps[..k + 1][..k] == steps[..k];
        ApplySized(steps[k], state);
        state := Apply(steps[k], state);
      }
      assert steps[..|steps|] == steps;
      QuietChanges(steps, old(state));
    }

    // solvePath, and the counter update that ends the instruction.
    method SolvePath(ending: Ending)
      requires Valid() && EntryState(true)
      modifies `unvisitedBlocks, `pushed, `addrToBB, `addressOf, `nextBlock, `blockInfo, `state
      ensures Valid() && EntryState(true) && pushed >= old(pushed)
      ensures forall b :: b in old(addressOf) ==> b in addressOf && addressOf[b] == old(addressOf)[b]
      ensures Ended(ending, old(unvisitedBlocks), old(state), unvisitedBlocks, state, addressOf)
      ensures ending.Solved? ==>
                var n, w := |old(unvisitedBlocks)|, old(state).live;
                && |unvisitedBlocks| == n + 1 && unvisitedBlocks[n].address == ending.target
                && state.live == w.(counter := (w.counter + 1) % TWO_TO_THE_32) && state.saved == old(state).saved
      ensures ending.Unsolved? ==>
                var w := old(state).live;
                && unvisitedBlocks == old(unvisitedBlocks)
                && state == Snapshots(w.(counter := (w.counter + 1) % TWO_TO_THE_32), old(state).saved)
      ensures ending.TwoWay? ==>
                var w := old(state).live;
                state.live == w.(assumptions := w.assumptions[ending.condition := 1],
                                 counter := (w.counter + 1) % TWO_TO_THE_32)
      ensures ending.TwoWay? && ending.first != ending.second ==>
                var n, w := |old(unvisitedBlocks)|, old(state).live;
                && |unvisitedBlocks| == n + 2
                && unvisitedBlocks[n].block in state.saved && unvisitedBlocks[n + 1].block in state.saved
                && state.saved[unvisitedBlocks[n + 1].block]
                   == w.(assumptions := w.assumptions[ending.condition := 1])
                && state.saved[unvisitedBlocks[n].block] == w.(assumptions := w.assumptions[ending.condition := 0])
    {
      hide Core, NoneLost, EntryState, Sized, WellSized;
      match ending
      case Solved(target) =>
        PushBranch(target);
        ChangeState(Count);
      case TwoWay(first, second, condition) =>
        var bbTrue, bbFalse := PushBoth(first, second);
        BackupBoth(condition, bbTrue, bbFalse);
        ChangeState(Count);
      case Unsolved =>
        ChangeState(Count);
    }

    // The two targets of a condition: the second one is pushed first.
    method PushBoth(first: Address, second: Address) returns (bbTrue: Block, bbFalse: Block)
      requires Valid() && EntryState(true)
      modifies `unvisitedBlocks, `pushed, `addrToBB, `addressOf, `nextBlock, `blockInfo
      ensures Valid() && EntryState(true) && pushed >= old(pushed)
      ensures forall b :: b in old(addressOf) ==> b in addressOf && addressOf[b] == old(addressOf)[b]
      ensures bbTrue in addressOf && addressOf[bbTrue] == first
      ensures bbFalse in addressOf && addressOf[bbFalse] == second
      ensures unvisitedBlocks == old(unvisitedBlocks) + [BBInfo(second, bbFalse)] + [BBInfo(first, bbTrue)]
    {
      hide Apply, Core, NoneLost;
      bbTrue := GetOrCreateBB(first);
      bbFalse := GetOrCreateBB(second);
      blockInfo := BBInfo(second, bbFalse);
      AddUnvisitedAddr(blockInfo);
      AddUnvisitedAddr(BBInfo(first, bbTrue));
    }

    // Each target is backed up with the condition's value on its side.
    method BackupBoth(condition: Value, bbTrue: Block, bbFalse: Block)
      requires Valid() && EntryState(true)
      modifies `state
      ensures Valid() && EntryState(true)
      ensures var w := old(state).live;
              var no, yes := w.(assumptions := w.assumptions[condition := 0]),
                             w.(assumptions := w.assumptions[condition := 1]);
              state == Snapshots(yes, old(state).saved[bbFalse := no][bbTrue := yes])
    {
      ghost var m := state.live.assumptions;
      hide Core, NoneLost, EntryState, Sized;
      ChangeState(Suppose(condition, 0));
      ChangeState(Backup(bbFalse));
      ChangeState(Suppose(condition, 1));
      ChangeState(Backup(bbTrue));
      assert m[condition := 0][condition := 1] == m[condition := 1];
    }

    method ChangeState(step: Step)
      requires Valid() && EntryState(true) && InRange(step)
      modifies `state
      ensures Valid() && EntryState(true) && state == Apply(step, old(state))
    {
      ApplySized(step, state);
      state := Apply(step, state);
    }

    // Lifting a block whose lift has one of the three shapes.
    method LiftShape(bb: BBInfo, lift: Lift)
      requires Core() && NoneLost({bb.block}) && QuietLift(lift) && WellSized(StartOf(bb.block, state))
      requires Known(bb) && bb.block !in lifts && (bb.block == entry || entry in lifts)
      requires forall k :: 0 <= k < |unvisitedBlocks| ==> unvisitedBlocks[k].block != entry
      modifies this
      ensures Valid() && EntryState(true) && pushed >= old(pushed)
      ensures liftedAt == old(liftedAt) + [bb.address]
      ensures startedWith == old(startedWith) + [StartOf(bb.block, old(state))]
      ensures forall b :: b in old(addressOf) ==> b in addressOf && addressOf[b] == old(addressOf)[b]
      ensures Ended(lift.ending, old(unvisitedBlocks),
                    Snapshots(After(lift.changes, StartOf(bb.block, old(state))), old(state).saved),
                    unvisitedBlocks, state, addressOf)
    {
      BeginLift(bb, {});
      hide Core, NoneLost, EntryState, Known, Lifted, Unlifted, WellSized, After, Ended;
      RunChanges(lift.changes);
      SolvePath(lift.ending);
    }

    method LiftPath(bb: BBInfo, p: Program)
      requires Core() && NoneLost({bb.block}) && QuietProgram(p)
      requires Known(bb) && bb.block !in lifts && (bb.block == entry || entry in lifts)
      requires forall k :: 0 <= k < |unvisitedBlocks| ==> unvisitedBlocks[k].block != entry
      requires EachReached(p, liftedAt, startedWith)
      requires SavedReached(p, startedWith, addressOf, state.saved) && AllSaved(unvisitedBlocks, state.saved)
      requires startedWith == [] || Reached(p, startedWith, bb.address, StartOf(bb.block, state), |startedWith|)
      modifies this
      ensures Valid() && EntryState(true) && pushed >= old(pushed) && OnPaths(p)
      ensures startedWith == old(startedWith) + [StartOf(bb.block, old(state))]
    {
      assert Sized(state) && |startedWith| == |lifts| && QuietLift(p(|lifts|));
      hide Core, NoneLost, EntryState, Known, EachReached, SavedReached, AllSaved, Reached, QuietLift, After, Ended,
           Waiting;
      var lift := p(|lifts|);
      LiftShape(bb, lift);
      LiftKeepsPaths(p, old(liftedAt), old(startedWith), bb.address, StartOf(bb.block, old(state)),
                     old(addressOf), addressOf, old(unvisitedBlocks),
                     Snapshots(After(lift.changes, StartOf(bb.block, old(state))), old(state).saved),
                     unvisitedBlocks, state);
    }

    method PathRound(filter: bool, p: Program) returns (more: bool, filter': bool)
      requires Valid() && EntryState(filter) && QuietProgram(p) && OnPaths(p)
      modifies this
      ensures Valid() && EntryState(filter') && pushed >= old(pushed) && OnPaths(p)
      ensures !more ==> unvisitedBlocks == []
      ensures old(startedWith) <= startedWith
      ensures old(startedWith) == [] && startedWith != [] ==>
                startedWith[0] == StartOf(entry, old(state))
      ensures startedWith == [] ==> state == old(state)
    {
      var lift, bb;
      more, lift, bb := NextBlock(filter);
      filter' := filter;
      if more {
        Popped(p, startedWith, addressOf, old(unvisitedBlocks), state, |unvisitedBlocks|);
      }
      if !lift {
        SavedWaits(p, startedWith, addressOf, unvisitedBlocks, state);
        return;
      }
      filter' := true;
      LiftPath(bb, p);
    }

    // The first n rounds of any run, in either control-flow mode, with lifts of the three shapes: each
    // lift starts exactly in the state of a path of branches from the entry.
    method ExplorePaths(n: nat, p: Program) returns (ended: bool)
      requires Valid() && EntryState(false) && QuietProgram(p) && startedWith == [] && state.saved == map[]
      modifies this
      ensures NoRepeats(lifts) && |startedWith| == |liftedAt| == |lifts|
      ensures ended ==> forall b :: b in pushed ==> b in lifts
      ensures lifts != [] ==> startedWith[0] == old(state).live
      ensures forall k :: 0 <= k < |lifts| ==> OnPath(p, liftedAt, startedWith, k)
      ensures forall k :: 0 < k < |lifts| ==> FollowsSome(p, liftedAt, startedWith, k)
    {
      var filter := false;
      ended := false;
      for i := 0 to n
        invariant Valid() && EntryState(filter) && OnPaths(p)
        invariant if startedWith == [] then state == old(state) else startedWith[0] == old(state).live
      {
        var more;
        more, filter := PathRound(filter, p);
        if !more {
          ended := true;
          break;
        }
      }
      ghost var at, started := liftedAt, startedWith;
      hide Core, NoneLost, EntryState, NoRepeats, Waiting;
      forall k | 0 <= k < |started|
        ensures OnPath(p, at, started, k)
        ensures 0 < k ==> FollowsSome(p, at, started, k)
      {
        var path := PathTo(p, at, started, k);
        if 0 < k {
          EachFollows(p, at, started, k);
        }
      }
    }

    // In Basic control flow with finitely many branch targets the loop ends, and then the target of
    // every branch of a lifted block has been lifted itself, exactly once.
    method Explore(lifting: Lifting, ghost targets: set<Address>)
      requires basic && Targets(lifting, targets)
      requires Valid() && EntryState(false) && Sane(lifting)
      modifies this
      ensures NoRepeats(lifts) && entry in lifts
      ensures forall b :: b in pushed ==> b in lifts
      ensures pushed >= old(pushed)
      ensures forall n: nat, e :: n < |lifts| && e in lifting(n) && e.Branch? ==>
                e.target in addrToBB && addrToBB[e.target] in lifts
    {
      var more, filter := true, false;
      while more
        invariant Valid() && EntryState(filter) && pushed >= old(pushed)
        invariant BranchesPushed(lifting)
        invariant PendingIn(targets)
        invariant !more ==> unvisitedBlocks == [] && filter
        decreases more, !filter, Unlifted(targets), |unvisitedBlocks|
      {
        more, filter := Round(filter, lifting, targets);
      }
      forall n: nat, e | n < |lifts| && e in lifting(n) && e.Branch?
        ensures e.target in addrToBB && addrToBB[e.target] in lifts
      {
        assert AllPushed(lifting(n), addrToBB, pushed);
      }
    }
  }
}
