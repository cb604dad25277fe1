# Mergen: a verified model of the lifter's algorithms

Mergen lifts x86-64 machine code to LLVM IR.  Around the instruction semantics its headers hold
several algorithms that do not depend on any single instruction.  This project models them in Dafny,
in the form the C++ code has (classes with fields updated in place, loops with invariants), and
proves what they are for.

| part | source | modules |
|---|---|---|
| multi-pattern signature matcher | `lifter/FunctionSignatures.hpp` | `MatchSpec`, `TrieSpec`, `BreadthFirst`, `LinkCost`, `LinkStep`, `AhoCorasickMatcher` |
| memory policy over address ranges | `lifter/MemoryPolicy.hpp` | `RangeSet`, `PolicyHistory`, `Coverage`, `MemoryPolicy` |
| PE sections | `lifter/fileReader.hpp`, `lifter/lifter.cpp` | `FileReader`, `SectionPolicy` |
| IR passes | `lifter/CustomPasses.hpp` | `Ir`, `Rewrite`, `Redirect`, `TruncPass`, `PromotePass`, `PromoteProbes` |
| exploration and snapshots | `lifter/lifterClass.hpp`, `lifter/lifterClass_concolic.hpp`, `lifter/lifter.cpp`, `lifter/PathSolver.ipp` | `SnapshotSpec`, `Snapshot`, `BranchPaths`, `Explore` |
| byte-wise memory access, page map | `lifter/lifterClass.hpp` | `Bits`, `ByteMemory`, `PageMap` |

`Ints` gives the integer widths, `Includes` the stack limit, `SortedSeq` the upper-bound search and
`Wrappers` an option type.

## Main results

- The matcher returns exactly the occurrences of its patterns, each once, ordered by end position,
  for every text, if and only if the empty string is not a pattern; with the empty pattern
  everything reported still occurs, no non-empty occurrence is missed, and which empty ones are reported
  is stated exactly.  The links that `build`
  leaves are the longest proper suffixes in the trie, and the failure steps total at most the text
  length in `search` and the sum of the pattern lengths in `build`.
- After any history of policy updates an address has the mode of the latest range added over it, else
  the latest default.  The coverage query answers true exactly when the whole query has the mode and
  neither of two situations holds, which are named and shown to be real: the last range beginning at
  or before the query's start ends before it and has another mode, or a range up to the last 64-bit
  address begins at or before the query's end and the default mode is another one.  The loop runs forever
  exactly for the queries that reach the last address when the default mode is the asked one, the
  whole query has it and no such range precedes it.
- Loading an image gives every byte of a section the section's mode, although each added range is one
  byte too long; only the stack window overrides it.
- Replacing truncs of loads by narrow loads changes no other value and no memory, from any initial
  state.  Moving GEPs to the stack alloca and then to absolute pointers is a simulation in which stack
  and absolute memory partition the original memory.  An access of any size through a constant, or a
  select of constants, is handled right by the stack promotion if and only if none of its arms
  straddles the stack limit and, for a select, both arms are below the limit, or both are above it
  and their bitwise and is below it: the pass takes the known-bits answer "not below" for "below", so
  every select between two image addresses that share their high bits moves to the stack.
- No block is lifted twice and none that was pushed is lost, in every run; in Basic control flow with
  finitely many branch targets the loop ends.  In both control-flow modes each block is lifted from
  exactly the state in which a path of branches from the entry reaches it: a solved target needs no
  backup, since it is on top of the worklist and takes over the live state.
- Loading a block's snapshot restores the state at its latest backup under any interleaving of state
  changes, backups and loads, with the instruction cache as a mutable object that must be copied.
- Storing and loading by bytes is the identity up to truncation for equal byte orders and the byte
  swap for opposite ones, at every address and for every byte count.
- The page lookup finds every held address if and only if no page begins inside another one and ends
  before it without a later page that begins by where the inner one ends.

Where an operation's name promises more than its code does, the model follows the code.  The members
`IsRangeFullyCovered`, `DivergesExactly`, `AccessSafeIffProbesAgree`, `PagedIffNoNest`, `LookupIsScan`
and `ScanExactIff` say exactly on which inputs `isRangeFullyCovered`, the stack promotion,
`isMemPaged`, `RvaToFileOffset` and `search` differ from their plain reading;
`StaleNeighbourMisleads`, `WrapMisleads`, `SelectAboveLimitPromoted`, `StraddleBreaks`,
`NestedMarkHides` and `WrapHidesSection` are concrete instances.

## Model

| member | source | states |
|---|---|---|
| `AhoCorasickMatcher.AhoCorasick.Search` | lifter/FunctionSignatures.hpp:118-136 | For every text: the results are ordered by end position (longer patterns first at one end), everything in them occurs, every occurrence of a non-empty pattern is in them, and they equal the naive every-pattern-at-every-offset specification exactly when the empty string is no pattern. If it is one, it is reported exactly at those offsets before which the text ends with the beginning of a pattern while its last byte begins none. After each byte the automaton stands at the node of the longest suffix read so far that is a trie path; the failure steps total at most the text length. |
| `AhoCorasickMatcher.AhoCorasick.constructor` | lifter/FunctionSignatures.hpp:98-116 | From any sequence of distinct patterns whose sizes fit an int the finished automaton for exactly these patterns is built: every non-root node's fail is the node of the longest proper suffix of its path that is a trie path, and its output holds every non-empty pattern that is a suffix of its path, nothing that is not one, and no repeats. |
| `AhoCorasickMatcher.AhoCorasick.Build` | lifter/FunctionSignatures.hpp:147-172 | Turns an inserted trie into a finished automaton with these links and outputs at every node; the inner failure walks total at most the sum of the pattern lengths. |
| `AhoCorasickMatcher.AhoCorasick.InsertPatterns` | lifter/FunctionSignatures.hpp:102-114 | After the loop the trie spells exactly the prefixes of the patterns and each node holds the ids of the patterns equal to its path. |
| `AhoCorasickMatcher.AhoCorasick.InsertPattern` | lifter/FunctionSignatures.hpp:103-114 | Adding pattern number id keeps that for one more pattern and adds at most its length in nodes. |
| `AhoCorasickMatcher.AhoCorasick.LinkRoot` | lifter/FunctionSignatures.hpp:148-152 | The root's children are finished and queued, at no cost in failure steps. |
| `AhoCorasickMatcher.AhoCorasick.ExpandNode` | lifter/FunctionSignatures.hpp:154-170 | Taking a node from the queue finishes all its children, keeps the breadth-first frontier, and its failure steps are paid for by the newly linked words. |
| `AhoCorasickMatcher.AhoCorasick.LinkChild` | lifter/FunctionSignatures.hpp:156-169 | One child gets its final failure link and output; the walk costs at most what its word loses in suffix depth. |
| `AhoCorasickMatcher.AhoCorasick.FollowFailures` | lifter/FunctionSignatures.hpp:158-160 | The walk ends at the node from which the byte leads to the longest suffix in the trie, or falls off the root when there is none; the node is where that many failure links lead; each step loses depth, with -1 counted as depth -1. |
| `AhoCorasickMatcher.AhoCorasick.Advance` | lifter/FunctionSignatures.hpp:122-134 | Reading one byte moves to the longest suffix of the longer text, including across the reset from -1 to 0, and appends exactly the matches that end there. |
| `AhoCorasickMatcher.AhoCorasick.Report` | lifter/FunctionSignatures.hpp:131-133 | The appended pairs give the start offset of each reported pattern. |
| `LinkStep.LinksAreLongest` | lifter/FunctionSignatures.hpp:147-172 | At each node of a finished automaton: a non-root node's fail is the node of the longest proper suffix of its path that is a trie path, and its output holds every non-empty pattern that is a suffix of its path, nothing that is not one, and no repeats. |
| `LinkStep.AllLinksAreLongest` | lifter/FunctionSignatures.hpp:147-172 | The same for all nodes of a finished automaton at once. |
| `LinkStep.LongestSuffixOfTail` | lifter/FunctionSignatures.hpp:157-165 | The target of a failure link is a proper suffix and no trie path between it and the node's path is longer. |
| `LinkStep.LinkStart` | lifter/FunctionSignatures.hpp:156-160 | The parent's failure link is a valid start for the child's walk, strictly shallower than the parent. |
| `LinkStep.LinkEnd` | lifter/FunctionSignatures.hpp:161-168 | Where the walk ended, linking the child there finishes it, and the steps taken are bounded by its cost. |
| `MatchSpec.TrieWordsArePrefixes` | lifter/FunctionSignatures.hpp:103-114 | A word is a trie path if and only if it is empty or a prefix of an inserted pattern. |
| `MatchSpec.GotoIsLongestSuffix` | lifter/FunctionSignatures.hpp:123-130 | From the longest trie suffix of a text, following failure links and one edge yields the longest trie suffix of the text extended by the byte. |
| `MatchSpec.LongestSuffixIsWord` | lifter/FunctionSignatures.hpp:123-130 | The tracked word is a suffix of the text and a trie path. |
| `MatchSpec.LongestSuffixIsLongest` | lifter/FunctionSignatures.hpp:123-130 | Every trie path that is a suffix of the text is a suffix of the tracked word. |
| `MatchSpec.LongestSuffixReports` | lifter/FunctionSignatures.hpp:131-133 | A text and its longest trie suffix have the same patterns as suffixes, so reporting at the node loses nothing. |
| `MatchSpec.OutputsExact` | lifter/FunctionSignatures.hpp:166-168 | Merged outputs hold only patterns that are suffixes of the path, and all non-empty ones. |
| `MatchSpec.OutputsDescend` | lifter/FunctionSignatures.hpp:166-168 | Merged outputs go strictly from longer to shorter patterns, so no id is repeated. |
| `MatchSpec.ScanIsRight` | lifter/FunctionSignatures.hpp:118-136 | After any number of bytes the accumulated results are ordered, sound and complete for what has ended so far. |
| `MatchSpec.ScanExactIff` | lifter/FunctionSignatures.hpp:118-136 | The whole scan equals the naive specification if and only if the empty string is not a pattern. |
| `MatchSpec.ScanReportsExactly` | lifter/FunctionSignatures.hpp:118-136 | Exactly which occurrences a scan reports, those of the empty pattern included. |
| `MatchSpec.EmptyOutput` | lifter/FunctionSignatures.hpp:149-168 | A node reports the empty pattern if and only if it is the root, or lies deeper than one and its last byte alone is no trie path. |
| `MatchSpec.OrderedIsUnique` | lifter/FunctionSignatures.hpp:118-136 | Two ordered results with the same members are the same list: the contract of the search leaves no choice. |
| `TrieSpec.GrowShape` | lifter/FunctionSignatures.hpp:106-109 | Adding a missing child keeps the bijection between nodes and words, prefix closure and all edges. |
| `TrieSpec.LinkFinishes` | lifter/FunctionSignatures.hpp:161-168 | Linking an unfinished node and merging its target's output finishes it, provided the target is finished; no other node changes. |
| `TrieSpec.WalkStep` | lifter/FunctionSignatures.hpp:158-160 | One failure step keeps the walk's target and makes it shallower. |
| `BreadthFirst.ShallowIsSeen` | lifter/FunctionSignatures.hpp:153-156 | While a node is expanded every trie word as shallow as it is already finished, so what is merged is final. |
| `BreadthFirst.EverythingSeen` | lifter/FunctionSignatures.hpp:153-171 | When the queue is empty every trie word has been visited. |
| `BreadthFirst.ExpandChild` | lifter/FunctionSignatures.hpp:169 | Pushing a child keeps the queue level-ordered and free of repeats; the child was not seen before. |
| `LinkCost.LongestSuffixGrowsByOne` | lifter/FunctionSignatures.hpp:157-165 | One more byte lengthens the longest trie suffix by at most one. |
| `LinkCost.CostOfPrefixes` | lifter/FunctionSignatures.hpp:157-160 | Along one pattern the costs of all links telescope. |
| `LinkCost.CostOfTrie` | lifter/FunctionSignatures.hpp:156-160 | Summed over all trie words the costs are at most the sum of the pattern lengths. |
| `MemoryPolicy.MemoryPolicyDynamic.AddRangeMode` | lifter/MemoryPolicy.hpp:97-128 | Every address of the inclusive range, bounds in either order, gets the new mode and every other address keeps its own; the ranges stay sorted, non-empty and disjoint; no bound leaves 64 bits. |
| `MemoryPolicy.MemoryPolicyDynamic.EraseOverlaps` | lifter/MemoryPolicy.hpp:103-121 | Exactly the ranges that meet the window are erased, and what is kept for re-insertion is their part outside the window. |
| `MemoryPolicy.MemoryPolicyDynamic.InsertRanges` | lifter/MemoryPolicy.hpp:125-127 | The pieces are inserted one after the other into the set. |
| `MemoryPolicy.MemoryPolicyDynamic.SetDefaultMode` | lifter/MemoryPolicy.hpp:94 | The default becomes the given mode and the ranges stay; the invariant that ties the set to the update history is kept. |
| `MemoryPolicy.MemoryPolicyDynamic.GetAccessMode` | lifter/MemoryPolicy.hpp:130-138 | The answer is the mode after the whole update history. |
| `MemoryPolicy.MemoryPolicyDynamic.IsRangeFullyCovered` | lifter/MemoryPolicy.hpp:141-178 | For every query on which the loop ends: true if and only if every address of the query has the asked mode after the history, the last range beginning at or before the start is not a stale one of another mode, and the cursor does not wrap onto another default mode. Ends by (ranges left, addresses left). |
| `MemoryPolicy.MemoryPolicyDynamic.AnswerMeans` | lifter/MemoryPolicy.hpp:141-178 | The answer over the stored ranges is the answer over the update history. |
| `RangeSet.ReplacedWindow` | lifter/MemoryPolicy.hpp:97-128 | Erasing, cutting and re-inserting replaces the window's mode and leaves every other address alone. |
| `RangeSet.OutsideKept` | lifter/MemoryPolicy.hpp:114-118 | The cut pieces and the untouched ranges together hold exactly the old modes outside the window. |
| `RangeSet.InsertApart` | lifter/MemoryPolicy.hpp:125-127 | Inserting a range apart from all others adds exactly its own addresses and members. |
| `RangeSet.InsertAllApart` | lifter/MemoryPolicy.hpp:125-127 | The same for a list of ranges apart from each other, in any order. |
| `PolicyHistory.CoverGrows` | lifter/MemoryPolicy.hpp:97-128 | One more range in the history overrides exactly its own addresses and no default. |
| `PolicyHistory.LatestCoverWins` | lifter/MemoryPolicy.hpp:130-138 | An added range decides its addresses until a later range covers them, whatever defaults are set in between. |
| `PolicyHistory.UncoveredIsDefault` | lifter/MemoryPolicy.hpp:130-138 | An address no range ever covered has the latest default mode. |
| `PolicyHistory.LatestDefaultWins` | lifter/MemoryPolicy.hpp:94 | The last default that was set is in effect, and symbolic before any was set. |
| `Coverage.RunAnswers` | lifter/MemoryPolicy.hpp:141-178 | After any number of rounds, for every query: if the loop has answered, the answer is the stated one. |
| `Coverage.StepIsGood` | lifter/MemoryPolicy.hpp:152-175 | Every round keeps the loop's meaning, even where the cursor moves back before the start or wraps to 0. |
| `Coverage.StepDescends` | lifter/MemoryPolicy.hpp:152-175 | Every round lowers (ranges left, addresses left) lexicographically, although the cursor may move back. |
| `Coverage.DivergesExactly` | lifter/MemoryPolicy.hpp:152-175 | The loop never answers if and only if the query reaches the last address, the default mode is the asked one, the whole query has it and no stale range precedes it. |
| `Coverage.TopIsNeverCovered` | lifter/MemoryPolicy.hpp:152 | No query that reaches the last address is ever answered with true. |
| `Coverage.StaleNeighbourMisleads` | lifter/MemoryPolicy.hpp:147-169 | A concrete query whose addresses all have the mode is answered with false because of an earlier range. |
| `Coverage.WrapMisleads` | lifter/MemoryPolicy.hpp:174 | A concrete covered query is answered with false because a range up to the last address wraps the cursor. |
| `FileReader.SortedIsSorted` | lifter/fileReader.hpp:198-207 | Sorting yields a sorted permutation of the section headers. |
| `FileReader.X64FileReader.Init` | lifter/fileReader.hpp:184-210 | Both section vectors are permutations of the headers as listed, one ascending by virtual address and one by raw pointer. |
| `FileReader.X64FileReader.RvaToFileOffset` | lifter/fileReader.hpp:232-248 | For sections with distinct starts and disjoint extents: an address in a section gets its distance from the section's start plus the section's raw pointer, modulo 2^32, except 0 when the section's end reaches 2^32; an address in no section gets 0 for any sections; the answer equals the linear scan with exactly that exception. |
| `FileReader.LookupMeans` | lifter/fileReader.hpp:234-247 | The same spelled out for the lookup over any sorted permutation, without wrap where raw data ends by 2^32. |
| `FileReader.LookupIsScan` | lifter/fileReader.hpp:232-248 | For any sorted permutation, the upper-bound lookup equals the linear scan in header order, with exactly that exception. |
| `FileReader.WrapHidesSection` | lifter/fileReader.hpp:243 | A concrete section that reaches the top of the 32-bit space: the scan finds its file offset, the lookup returns 0. |
| `FileReader.OnlyCandidate` | lifter/fileReader.hpp:234-243 | The candidate before the upper bound is the only section that can contain the address. |
| `SectionPolicy.InitPolicy` | lifter/lifter.cpp:77-99 | The loaded image's policy is the one after the default, all section ranges in sorted order and the stack window. |
| `SectionPolicy.AddSection` | lifter/lifter.cpp:79-97 | One round records exactly the section's range, one byte past its end and modulo 2^64, as SYMBOLIC if the section is writable and CONCRETE otherwise. |
| `SectionPolicy.SectionBytes` | lifter/lifter.cpp:77-99 | Every byte of every section has the section's mode (SYMBOLIC if writable, else CONCRETE), or CONCRETE inside the stack window, although each range includes one byte past its section. |
| `SectionPolicy.PastTheEnd` | lifter/lifter.cpp:84-95 | The byte just past a section takes that section's mode unless the next section or the stack window holds it. |
| `SectionPolicy.StackWindow` | lifter/lifter.cpp:98-99 | Every address from 0x14EEA0 to 0x150EA0 is CONCRETE, whatever the sections. |
| `SectionPolicy.OtherBytes` | lifter/lifter.cpp:77 | All remaining addresses stay symbolic. |
| `TruncPass.ReplaceTruncWithLoadPass.Run` | lifter/CustomPasses.hpp:225-263 | For every SSA function: no 64-to-32 trunc of one of its 8-byte loads is left, a definition is gone exactly if it was such a trunc, every other value and the final memory are what they were from every initial state, whatever stores lie between load and trunc; the result is in SSA form. |
| `TruncPass.TruncsOfLoads` | lifter/CustomPasses.hpp:234-240 | The ids the pass removes are exactly those of 64-to-32 truncs whose operand is an 8-byte load. |
| `TruncPass.NoTruncLeft` | lifter/CustomPasses.hpp:234-259 | After redirecting and erasing no such trunc is left. |
| `TruncPass.OnlyTruncsGone` | lifter/CustomPasses.hpp:257-259 | Of the original definitions exactly those truncs are gone. |
| `TruncPass.LoadPrefix` | lifter/CustomPasses.hpp:242-244 | Four bytes in little-endian order are the low half of the eight bytes. |
| `TruncPass.NarrowLoadIsTrunc` | lifter/CustomPasses.hpp:242-244 | The narrow load placed in front of the wide one holds the wide load's truncation. |
| `TruncPass.TruncEqualsLoad` | lifter/CustomPasses.hpp:239-246 | From the trunc on, its value and the narrow load's are equal in every run. |
| `TruncPass.ScanReplace` | lifter/CustomPasses.hpp:234-251 | One replacement keeps everything the scan has established and marks one more trunc. |
| `Rewrite.ReplaceIsEquivalent` | lifter/CustomPasses.hpp:242-246 | Inserting an instruction and replacing all uses of an id of equal value changes no other value and no memory. |
| `Rewrite.ReplaceKeepsSsa` | lifter/CustomPasses.hpp:242-246 | The result is in SSA form and no longer uses the replaced id. |
| `Rewrite.EraseIsHidden` | lifter/CustomPasses.hpp:257-259 | Erasing an unused definition changes only that id. |
| `Redirect.ScanRedirect` | lifter/CustomPasses.hpp:286-296 | One redirection keeps equivalence to the original function, the set of targets and all other definitions. |
| `Redirect.EraseStep` | lifter/CustomPasses.hpp:301-303 | Erasing one marked target keeps equivalence and removes exactly that definition. |
| `Redirect.EraseAll` | lifter/CustomPasses.hpp:257-260 | After the removal loop no target is left, only targets are gone, and nothing else has changed its value. |
| `PromotePass.PromotePseudoStackPass.Run` | lifter/CustomPasses.hpp:98-166 | A GEP from the memory argument starts from the alloca afterwards if and only if its offset is a constant below the limit, a select of two constants that are both below it or whose bitwise and reaches it, or another value for which known bits give any answer; its id and offset, and every other instruction, are unchanged. |
| `PromotePass.PromotePseudoMemory.Run` | lifter/CustomPasses.hpp:277-308 | No GEP from the memory argument is left, a definition is gone exactly if it was one, and every other value and the final memory are unchanged from every initial state. |
| `PromotePass.PromoteMemory` | lifter/MergenPB.hpp:58-61 | Both passes in pipeline order simulate the original: equal load results and a partitioned memory, for every covered run, and for every run of a statically safe program. |
| `PromotePass.PromoteSimulates` | lifter/CustomPasses.hpp:112-162 | The promoted program runs in step with the original; stack below the limit and absolute memory above it always partition the original memory. |
| `PromotePass.ExecRelated` | lifter/CustomPasses.hpp:112-162 | Each single instruction keeps that relation. |
| `PromotePass.PromotionsSimulate` | lifter/CustomPasses.hpp:273-309 | The relation survives the second pass. |
| `PromotePass.StaticIsPlaced` | lifter/CustomPasses.hpp:128-158 | Programs whose accesses use constant offsets or safe selects of constants, none straddling the limit, are covered from every initial state. |
| `PromotePass.StaticallySafeSimulates` | lifter/CustomPasses.hpp:112-162 | For those programs the simulation holds from all related initial states. |
| `Bits.AndBits` | lifter/CustomPasses.hpp:139-145 | Bit k of the and of two numbers is set if and only if it is set in both. |
| `Bits.OrBits` | lifter/lifterClass.hpp:697 | Bit k of the or of two numbers is set if and only if it is set in one of them. |
| `PromotePass.SelectDecision` | lifter/CustomPasses.hpp:139-158 | The decision fits both arms of a select if and only if both are below the limit, or both are above it and their bitwise and is below it. |
| `PromoteProbes.AccessSafeIffProbesAgree` | lifter/CustomPasses.hpp:128-158 | For an access of n bytes through a constant, or a select of two constants on any condition: the offset is safe and no arm's access straddles the limit if and only if no store through it, of any value and read back at any byte, shows the promotion, and if and only if no load through it, after a store at any byte, does. |
| `PromoteProbes.OtherSafeIffProbesAgree` | lifter/CustomPasses.hpp:138-147 | An access of n bytes through any other value, in a run where it has a given value: no store and no load shows the promotion if and only if its bytes are on one side of the limit and known bits gave an answer exactly when that side is below. |
| `PromoteProbes.FixedSafeIffOneSide` | lifter/CustomPasses.hpp:128-137 | For a constant offset: exactly the accesses whose bytes are all on one side of the limit are handled right. |
| `PromoteProbes.SelectSafeIffProbesAgree` | lifter/CustomPasses.hpp:139-158 | For single bytes through a select on any condition: exactly the safe selects are handled right, for stores and for loads. |
| `PromoteProbes.StoreProbesDecide` | lifter/CustomPasses.hpp:132-133 | For any offset and condition: the pass put the offset on the side of every byte of the access if and only if no stored value, read back at any byte, tells. |
| `PromoteProbes.LoadProbesDecide` | lifter/CustomPasses.hpp:132-133 | The same for loads of n bytes after a store at any byte. |
| `PromoteProbes.RightSideIffSafe` | lifter/CustomPasses.hpp:128-158 | The side is right for every byte under every condition if and only if the offset is safe and its arms do not straddle. |
| `PromoteProbes.SharedHighBitsPromoted` | lifter/CustomPasses.hpp:139-147 | Every select of two addresses that share high bits at or above the limit is moved to the stack. |
| `PromoteProbes.SelectAboveLimitPromoted` | lifter/CustomPasses.hpp:145-147 | A select, on a condition from outside, of two distinct image addresses is moved to the stack, and a byte stored through it is lost. |
| `PromoteProbes.StraddleBreaks` | lifter/CustomPasses.hpp:132-134 | A concrete two-byte store across the limit whose upper byte is lost. |
| `PromotePass.GepEqualsIntToPtr` | lifter/CustomPasses.hpp:287-291 | The inserted inttoptr equals the GEP it replaces in every run. |
| `SnapshotSpec.LoadRestores` | lifter/lifterClass_concolic.hpp:172-195 | After any interleaving without a further backup of the block, loading it restores registers, flags, buffer, cache, assumptions and counter of its latest backup. |
| `SnapshotSpec.SavedStays` | lifter/lifterClass_concolic.hpp:172-181 | A saved state changes only when its block is backed up again. |
| `SnapshotSpec.LoadWithoutBackup` | lifter/lifterClass_concolic.hpp:183-184 | Loading a block that was never backed up changes nothing. |
| `SnapshotSpec.AppliedInOrder` | lifter/lifterClass_concolic.hpp:172-195 | A run of steps is its first step and then the rest. |
| `SnapshotSpec.FlagsStayBits` | lifter/lifterClass_concolic.hpp:109-113 | In every run the live flags and all saved ones are at most one bit wide. |
| `Snapshot.LifterConcolic.Replay` | lifter/lifterClass_concolic.hpp:172-195 | With a mutable cache object, any interleaving of state changes, backups and loads behaves like the plain values above. |
| `Snapshot.LifterConcolic.BranchBackup` | lifter/lifterClass_concolic.hpp:172-181 | The block's saved state becomes the live state, in a cache no later insert can reach; other saved states stay. |
| `Snapshot.LifterConcolic.LoadBackup` | lifter/lifterClass_concolic.hpp:183-195 | The live state becomes the saved one and no saved state changes, although the cache is overwritten in place. |
| `Snapshot.LifterConcolic.InsertCached` | lifter/lifterClass.hpp:101-104 | An insert into the live cache changes one entry of the live state and no saved copy. |
| `Snapshot.LifterConcolic.SetRegister` | lifter/lifterClass_concolic.hpp:122-125 | Changes one live register and no saved state. |
| `Snapshot.LifterConcolic.SetFlag` | lifter/lifterClass_concolic.hpp:109-113 | Changes one live flag, to the value truncated to one bit if it is wider, and no saved state. |
| `Snapshot.LifterConcolic.Suppose` | lifter/PathSolver.ipp:156-159 | Changes one live assumption and no saved state. |
| `Snapshot.LifterConcolic.Count` | lifter/lifterClass.hpp:383 | Adds one to the live counter, modulo 2^32, and changes no saved state. |
| `Snapshot.InstructionCache.Copy` | lifter/lifterClass.hpp:128-137 | The copy has equal contents in fresh storage. |
| `Snapshot.InstructionCache.Assign` | lifter/lifterClass.hpp:138-149 | The target's contents become the source's, also on self-assignment. |
| `Snapshot.InstructionCache.Insert` | lifter/lifterClass.hpp:101-104 | One key of one opcode is overwritten, nothing else. |
| `Snapshot.InstructionCache.Lookup` | lifter/lifterClass.hpp:106-110 | Finds exactly the stored keys, with their values. |
| `Explore.Lifter.Explore` | lifter/lifter.cpp:46-65 | In Basic control flow with finitely many branch targets the loop ends; then no block was lifted twice, everything pushed was lifted, and the target of every branch of a lifted block was lifted. |
| `Explore.Lifter.ExploreRounds` | lifter/lifter.cpp:46-65 | After any number of rounds of any run, in either control-flow mode, no block was lifted twice; once the loop has ended every block ever pushed has been lifted. |
| `Explore.Lifter.ExplorePaths` | lifter/lifter.cpp:46-65 | After any number of rounds of any run, in either mode, with lifts that end as solvePath does: the first lift starts in the initial state; every later one starts at the address and in exactly the state that an earlier lift branches to, at a solved target in the state in which that lift ended, at one of two targets in that state with the condition assumed 1 at the first and 0 at the second; so every lift lies on a path from the first. No block was lifted twice and nothing pushed is lost when the loop ends. |
| `Explore.Lifter.PathRound` | lifter/lifter.cpp:48-65 | One round keeps this, also where a pop drops a block or the taken block is skipped. |
| `Explore.Lifter.LiftPath` | lifter/lifter.cpp:57-64 | A block that is taken in a reached state is lifted, and what waits afterwards waits in reached states. |
| `Explore.Lifter.LiftShape` | lifter/lifter.cpp:57-64 | The lift starts from the latest snapshot, changes the live state and ends as solvePath does. |
| `Explore.Lifter.SolvePath` | lifter/PathSolver.ipp:24-169 | A solved target is pushed last without a backup. Two targets are pushed second first; the first one's snapshot is the live state with the condition assumed 1, the second one's with 0. Without a target nothing is pushed or backed up. The counter is updated in every case. |
| `Explore.Lifter.PushBoth` | lifter/PathSolver.ipp:129-153 | Both targets get their blocks on record, the second one is pushed first. |
| `Explore.Lifter.BackupBoth` | lifter/PathSolver.ipp:156-160 | The true target's snapshot is the live state with the condition assumed 1, the false target's with 0. |
| `BranchPaths.LeadsMeans` | lifter/PathSolver.ipp:24-169 | Exactly which address and state a lift branches to, for each of the three endings. |
| `BranchPaths.EachFollows` | lifter/lifter.cpp:46-65 | Every lift after the first starts where an earlier one branches to. |
| `BranchPaths.PathTo` | lifter/lifter.cpp:46-65 | If every lift starts as an earlier one branches to it, every lift lies on a path from the first. |
| `BranchPaths.LiftKeepsPaths` | lifter/PathSolver.ipp:24-169 | One lift keeps all of this: earlier reached states stay reached and the new ones are. |
| `BranchPaths.EndedWaits` | lifter/PathSolver.ipp:24-169 | After any of the three endings every pending block has a reached snapshot, except that the newest may rely on the live state, which then is the state it was branched to in. |
| `BranchPaths.Popped` | lifter/lifterClass.hpp:423-442 | Whichever pending block a pop takes, it starts in a reached state, and all that stay pending have snapshots. |
| `Explore.Lifter.Round` | lifter/lifter.cpp:48-65 | One round keeps the exploration invariant, lifts at most one block, for the first time and from its latest snapshot, and lowers (target addresses not lifted, pending blocks). |
| `Explore.Lifter.NextBlock` | lifter/lifter.cpp:48-55 | Takes a pending block; it is lifted only if it has never been, and nothing pushed is lost if it is not. |
| `Explore.Lifter.LiftBlock` | lifter/lifter.cpp:57-64 | Lifting runs all effects of any finite list from the block's latest snapshot and keeps the invariant; lifting a target's block removes its address from the open ones. |
| `Explore.Lifter.BeginLift` | lifter/lifter.cpp:57-62 | The lift starts from the block's latest snapshot, or from the live state if it has none. |
| `Explore.Lifter.RunEffects` | lifter/PathSolver.ipp:18-176 | Any list of state changes, backups and branches takes effect completely and in order: the state is the result of its steps, and its targets are pushed in order; the invariant is kept and no pushed block is lost. |
| `Explore.Lifter.RunEffect` | lifter/PathSolver.ipp:18-176 | A branch pushes the block on record for its target; a state change leaves the worklist alone. |
| `Explore.Lifter.PushBranch` | lifter/PathSolver.ipp:18-176 | The block on record for the target is put last on the worklist and counts as pushed; blocks keep their addresses in Basic mode. |
| `Explore.Lifter.PoppedKept` | lifter/lifterClass.hpp:423-442 | Popping more than one block in a call loses nothing that was not lifted. |
| `Explore.Lifter.GetUnvisitedAddr` | lifter/lifterClass.hpp:423-442 | Takes the newest entry; entries dropped with it are non-empty blocks in Basic mode with the filter on; no entry is returned only when the worklist is empty. |
| `Explore.Lifter.GetOrCreateBB` | lifter/lifterClass.hpp:527-540 | In Basic mode one block per address, otherwise always a new one, on record under the address. |
| `Explore.Lifter.AddUnvisitedAddr` | lifter/lifterClass.hpp:413-418 | The entry is put last and counts as pushed. |
| `ByteMemory.Memory.StoreThenLoad` | lifter/lifterClass.hpp:651-727 | A store followed by a load of the same bytes returns the value modulo 2^(8*count) for equal byte orders and the byte-reversed value for opposite ones, and changes no byte outside the window. |
| `ByteMemory.RoundTrip` | lifter/lifterClass.hpp:671-681 | The same on the byte sequences: what one byte order spells, read in the same or the other order. |
| `ByteMemory.SwapReverses` | lifter/lifterClass.hpp:714-722 | Byte i of the swapped value is byte count-1-i of the value, and swapping twice only truncates. |
| `ByteMemory.Memory.StoreValueByBytes` | lifter/lifterClass.hpp:706-727 | Byte k of the window is (value / 2^(8k)) % 256 in little-endian order and byte count-1-k otherwise, and no byte outside the window changes, also where addresses wrap at 64 bits. |
| `ByteMemory.Memory.LoadValueByBytes` | lifter/lifterClass.hpp:651-704 | The or of the shifted bytes is below 2^(8*count), and its byte k is byte k of the window in little-endian order, byte count-1-k otherwise. |
| `ByteMemory.OrExtends` | lifter/lifterClass.hpp:671-697 | Or-ing one more shifted byte extends the value read so far by that byte, in both orders. |
| `ByteMemory.StoreByteIsLayout` | lifter/lifterClass.hpp:714-722 | The shifted and truncated byte is the right byte of the value's layout. |
| `PageMap.PageTable.IsMemPaged` | lifter/lifterClass.hpp:825-835 | For every sequence of marks, true exactly when a current page holds the address and no current page starts between; without nested pages, exactly when some current page holds it; for pairwise disjoint marks, exactly when some mark does. |
| `PageMap.PageTable.MarkMemPaged` | lifter/lifterClass.hpp:820-823 | The map holds the latest mark for every start, and nothing else. |
| `PageMap.AssignIsUpdate` | lifter/lifterClass.hpp:820-823 | Assigning replaces the entry with the same start, if any, keeps all others and the order. |
| `PageMap.SeparateIsVisible` | lifter/lifterClass.hpp:825-835 | Among disjoint marks every page that holds an address is found. |
| `PageMap.PagedIffNoNest` | lifter/lifterClass.hpp:825-835 | For every sequence of marks: the lookup agrees with membership in the current pages at every address if and only if no current page starts inside another, ends before it, and has no later page taking over where it ends. |
| `PageMap.NestMisleads` | lifter/lifterClass.hpp:831-833 | Every such nest hides a held address. |
| `PageMap.MissIsNest` | lifter/lifterClass.hpp:827-833 | Every held address that is missed comes from such a nest. |
| `PageMap.NestedMarkHides` | lifter/lifterClass.hpp:825-835 | A concrete page marked inside another hides the outer page's tail. |

## Left out

- IsRangeFullyCovered: the method excludes exactly the queries on which the source's loop never ends, since a Dafny method must end; `Coverage.DivergesExactly` states which those are, and `Coverage.RunAnswers` has no such precondition.
- RvaToFileOffset: equality with the linear scan is stated for distinct starts and disjoint extents, as the PE format requires of sections; for other inputs only the lookup itself is stated.
- InitPolicy: the theorems about its history assume that base plus section end fits 64 bits and that sections are disjoint with distinct starts; the method itself wraps like the source.
- Search: text and pattern sizes fit `int`, as the source's positions and ids do; the arbitrary order of the `unordered_map` of patterns is an arbitrary sequence of distinct words.
- LoadValueByBytes: all bytes are solved and joined by or; the zext-of-trunc shortcut and the branch for unsolved loads depend on pattern matching over IR values.
- StoreThenLoad: the same restriction of the load to its or-path.
- StoreValueByBytes: values are numbers and addresses wrap at 64 bits; the memory-op bookkeeping and pointer cache are not modelled, and memory never written reads as 0.
- Lookup: a null value stored in the cache is not distinguished from the values a caller may store; opcodes are below 100, the size of the source's array; the hash map's reserved key pair is not modelled.
- RunEffects: lifting is an abstract finite list of effects per lift, chosen freely; branch solving and instruction semantics are not modelled. The first lifted block is the entry block.
- ExplorePaths: which of the three endings a lift has, its targets and its condition are free; the inlined call of `lifter/Semantics.ipp` pushes one target like a solved one and is covered by that ending.
- BranchBackup: IR values carry an identity and a width only; the lazily computed flags and the memory-op list are not part of the source's backup point and not part of the model's state; the counter is kept in the width it is used with.
- PromoteMemory: one straight-line function, offsets that are constants, selects of two constants or other values; a GEP's base is the memory argument or the alloca, so chained GEPs, alignment, poison and undefined reads are not modelled; the memory argument points to address 0.
- Promotes: known bits are computed exactly for constants and selects of constants (bits between the and and the or of the arms) and are an arbitrary oracle for all other values; the simulation then requires the oracle's decision to fit the address.
- Run: all passes are modelled on one block; instruction names, types other than widths, and the `hasChanged` results are not modelled.
- `std::set`, `std::map`, `std::sort` and `upper_bound` are sequences sorted by key with the library functions' documented effect; the tie order of `std::sort` is left open by stating the lookup theorems for every sorted permutation.
- `GEPLoadPass`, `ResizeAllocatedStackPass`, `BasicBlockDotGraphPass` and LLVM's own pipelines: file contents, module layout and library code.
- `fileOffsetToRVA`, `x86FileReader` and raw pointer reads: not the inverse of the modelled lookup, and thin reads of file bytes.
- Signature offsets (`createOffsetMap`): the offsets are one vector shared by all signatures, so there is no property per signature.
- `InlinePolicy`, `RegisterManager`, `LazyValue` and the constant memory policies, the mnemonic and register tables, the Rust wrapper, the dominator tree updates and the command line: they would only add easy members.
