# Verified model of the PS2 recompiler tools

This project models the parts of the PS2 recompilation tools whose correctness is not
visible from reading one function: the ELF analyzer's search for recursive functions,
its control-flow graphs, constant resolver and function table; the SDK symbol scanner
with its decision tree, relocation masking and SHA-1; guest RAM access and the MMI
arithmetic of the runtime; the register snapshot that the debugger reads from shared
memory; the bit-field template; and two Ghidra scripts, the exporter's synthetic entries
and the capability preview. `dafny verify dfyconfig.toml` checks everything.

| file | subject |
|---|---|
| `CallGraph.dfy`, `Tarjan.dfy` | call paths and cycles; the depth-first search that finds recursive functions |
| `Instructions.dfy`, `Cfg.dfy` | decoded instructions; leaders, blocks and edges of control-flow graphs |
| `ConstantResolver.dfy` | the backward LUI/ADDIU/ORI resolver against straight-line execution |
| `Options.dfy`, `Sorting.dfy`, `FunctionTable.dfy` | functions, start index and decoded listings across the analyzer's passes |
| `Sha1.dfy`, `Sha1Arithmetic.dfy` | SHA-1 against FIPS 180-4, and its operations as plain arithmetic |
| `Relocations.dfy`, `SymbolTree.dfy`, `StaticBits.dfy`, `SymbolScanner.dfy` | the SDK symbol scan |
| `Bits.dfy`, `Bytes.dfy`, `HexText.dfy` | machine words as natural numbers, bit by bit, their little-endian images and hex texts |
| `GuestMemory.dfy`, `FunnelShift.dfy`, `PackedLanes.dfy` | RAM access, QFSRV, saturating and packing operations |
| `Seqlock.dfy` | the snapshot protocol as a system of interleaved steps |
| `Bitfield.dfy` | the bit-field template |
| `SyntheticEntries.dfy` | address ranges of synthetic entries |
| `CapabilityNames.dfy`, `CapabilityPropagation.dfy` | names that carry capabilities, and their propagation to a fixpoint |

Loops and objects of the sources are methods and classes here, each proved against a
function or predicate. Where that is the same computation written as a recursion, what it
means is proved beside it: `Leaders` by `LeaderIff`, `BuildIndex` by `BuildIndexOk` and
`IndexAgreesWithSearch`, `Discovered` and the other table operations by `RunRefinesMap` and
`EveryRunAnswersFreshly`, `Resolve` by `ResolverSoundIff`. Where the order of iteration is
left open by the source (hash sets, hash maps), the model picks any element, so that results
hold for every order. 32-bit arithmetic is written out.

Properties that do not hold on all inputs are stated with the exact condition:

- The constant resolver follows register 0 like any other register and does not see that
  calls write register 31. Its answer is right on every run exactly when the instructions
  after a reading of register 0 turn what was read and zero into the same value, and those
  after a reading of register 31 past a link do so for what was read and the return address
  (`ResolverSoundIff`; counterexamples in `FollowingZeroIsWrong` and `PassingLinkIsWrong`).
- A control-flow graph loses the instructions before the first block start unless the
  first instruction starts a block or none does (`NothingLostIff`); a function whose first
  word does not decode can lose some (`UndecodedEntryLosesInstructions`). A branch gets its
  edges exactly when its delay slot is the next instruction of the block (`TerminatorIff`,
  `UndecodedDelaySlotLosesBranch`).
- The decoding loop and the scan loop count addresses in 32 bits and stop exactly when
  the range stays clear of the top of the address space (`FunctionTable.LoopEndsIff`,
  `SymbolScanner.LoopEndsIff`).
- Two functions with one start share a cache entry; the second gets the listing of its own
  bounds exactly when no word between the two ends decodes (`SharedStartIff`,
  `SharedStartLosesWords`).
- The text that identifies a library and a name is ambiguous exactly when one library
  name extends another past a line break (`IdentityCollidesIff`, `ReportedNames`).
- The count of static bits subtracts the bits that relocated words keep, where those that
  they lose were meant: for separate records it is the number of bits that masking keeps
  exactly when the two are equal, as for 16-bit relocations alone, or when everything is
  relocated (`StaticBitCountIff`; counterexample in `CallIsMiscounted`).
- On every layout a store puts the right value into its field and a signed load reads it
  back (`FieldAfterStore`, `SignedLoadAfterStore`). Over 8- and 16-bit backing an unsigned
  load is right, and a store leaves the bits around the field alone, exactly when the field
  lies at the top of the word (`RawExactIff`, `LoadExactIff`, `StoreExactIff`), and stores
  to disjoint fields never commute (`DisjointStoresCommuteIff`).
- A validated snapshot is one single update unless the counter went all the way around
  during the attempt; for every counter width such a turn lets a torn copy pass
  (`WrapAcceptsTornCopy`), and after eight failed attempts a torn copy is returned as
  well (`GivingUpKeepsTornCopy`).
- The capability preview ends at the right names from default names, from the names it
  leaves behind, and from any texts that show only own and reachable capabilities
  (`PreviewFrom`, `PreviewTwice`). It does so from all texts as names of the functions above
  a leaf exactly when every visited function on a cycle of calls reaches every capability:
  then every order ends there (`PreviewAny`), and otherwise some wrong names stay for ever
  (`WrongNamesStay`, `OnlyFinalSettlesIff`). It need not even end: in a ring of three
  functions a capability that nothing has can go around without end
  (`StaleNamesNeverSettle`). Whenever it stops, no reachable capability is missing
  (`StoppedNamesShowAll`). Names that no pass rewrites may show anything in all of these; a
  function reaches what they show by calling them (`EveryStartFits`).

The comment on the snapshot table promises that a reader retries whenever the counter is
odd or changed; the code stops after eight attempts and reports success all the same. The
model follows the code.

## Model

| member | source | states |
|---|---|---|
| Tarjan.FindRecursiveFunctions | ps2xAnalyzer/src/analysis_passes.cpp:341-445 | for every finite call graph, with duplicate edges and self-calls, the returned names are exactly those with a non-empty call path back to themselves |
| Tarjan.FindComponents | ps2xAnalyzer/src/analysis_passes.cpp:344-420 | the emitted components partition all callers and callees, each is a maximal set of mutually reachable names without repetition, and every call leads to the same or an earlier component, whatever the visiting order |
| Tarjan.CollectNodes | ps2xAnalyzer/src/analysis_passes.cpp:344-352 | the nodes are exactly the callers and callees, closed under calls |
| Tarjan.Finder.StrongConnect | ps2xAnalyzer/src/analysis_passes.cpp:369-412 | one call keeps the numbering, stack and component invariants, numbers the name with the next index, and its low link is the number of a stacked name it reaches and a lower bound of all stacked callees of what it pushed; it ends because the set of unnumbered nodes shrinks |
| Tarjan.Finder.EmitComponent | ps2xAnalyzer/src/analysis_passes.cpp:395-411 | popping down to the root emits exactly the names above it on the stack and changes nothing else |
| Tarjan.Finder.ExploreAll | ps2xAnalyzer/src/analysis_passes.cpp:414-420 | exploring the nodes in any order emits every node in exactly one component and leaves the stack empty |
| Tarjan.SelectedIffOnCycle | ps2xAnalyzer/src/analysis_passes.cpp:422-442 | a member of a component with several names, or one that calls itself, is exactly a member on a cycle |
| CallGraph.OnCycleIffCalleeReaches | ps2xAnalyzer/src/analysis_passes.cpp:422-442 | lying on a cycle is the same as having a callee from which one is reached |
| Cfg.BuildCfg | ps2xAnalyzer/src/elf_analyzer.cpp:1309-1475 | for an address-ascending listing the graph has the blocks cut at leaders and the edges of each block's terminator, recorded equally often at both ends |
| Cfg.CollectLeaders | ps2xAnalyzer/src/elf_analyzer.cpp:1320-1348 | the leader set is the entry plus the fall-through, branch and direct-jump addresses of all control transfers |
| Cfg.LeaderIff | ps2xAnalyzer/src/elf_analyzer.cpp:1320-1348 | an address is a leader exactly when it is the entry or some transfer of the listing continues at it, branches to it or jumps to it |
| Cfg.BuildBlocks | ps2xAnalyzer/src/elf_analyzer.cpp:1350-1379 | every non-zero leader starts the block that runs to the next leader, there are no other blocks, and without such a leader the whole listing is filed under zero |
| Cfg.AddBlockEdges | ps2xAnalyzer/src/elf_analyzer.cpp:1381-1472 | one round adds exactly the successors of the block, keeps all blocks, and keeps the count of edges equal at both ends |
| Cfg.GraphIsComplete | ps2xAnalyzer/src/elf_analyzer.cpp:1350-1475 | for a listing that begins at a non-zero function start the blocks in address order concatenate to the listing, only first instructions are leaders, every edge ends at a block, and b is a successor of a as often as a is a predecessor of b |
| Cfg.NothingLostIff | ps2xAnalyzer/src/elf_analyzer.cpp:1350-1379 | the blocks concatenate to the listing exactly when the first instruction starts a block or no instruction does |
| Cfg.UndecodedEntryLosesInstructions | ps2xAnalyzer/src/elf_analyzer.cpp:1350-1379 | a listing whose entry word did not decode and from which an instruction is lost |
| Cfg.TerminatorIff | ps2xAnalyzer/src/elf_analyzer.cpp:1388-1400 | a transfer with a delay slot ends its block exactly when its delay slot is the next instruction of the block |
| Cfg.UndecodedDelaySlotLosesBranch | ps2xAnalyzer/src/elf_analyzer.cpp:1388-1471 | a listing in which the delay slot of a branch did not decode and the branch gets no edge |
| Cfg.OrdinaryBranchSuccessors | ps2xAnalyzer/src/elf_analyzer.cpp:1388-1437 | in a contiguous listing without transfers in delay slots, the block ending in a branch outside the four likely opcodes flows to exactly the taken target and the address after the branch and its delay slot, each where an instruction exists |
| Cfg.LikelyBranchSuccessors | ps2xAnalyzer/src/elf_analyzer.cpp:1402-1418 | the block ending in a likely branch flows to the taken target only |
| Cfg.JumpSuccessors | ps2xAnalyzer/src/elf_analyzer.cpp:1438-1454 | the block ending in a direct jump or call flows to its target exactly when the target is a leader and has an instruction, which holds of every target of a jump that is no call; one ending in a register jump flows nowhere; none falls through |
| Cfg.PlainBlockSuccessors | ps2xAnalyzer/src/elf_analyzer.cpp:1455-1471 | a block that ends in no transfer and no return flows to exactly the next block |
| Cfg.JumpTargetInRegion | ps2xAnalyzer/src/elf_analyzer.cpp:1753-1756 | a jump target is the word index of the instruction inside the 256 MB region of the following instruction |
| Cfg.BranchTargetIs | ps2xAnalyzer/src/elf_analyzer.cpp:1336-1338 | a branch whose 16-bit immediate encodes n goes n words past its delay slot, modulo 2^32 |
| Cfg.BranchSuccessors | ps2xAnalyzer/src/elf_analyzer.cpp:1402-1437 | a branch that encodes n flows to the address n words past the next one and to the address after itself and its delay slot, each where there is an instruction, and with one of the opcodes 0x14 to 0x17 only to the former |
| Cfg.TransferOpcodes | ps2xAnalyzer/src/elf_analyzer.cpp:1411-1414 | likely branches are the opcodes 0x14 to 0x17, direct jumps the opcodes 2 and 3 |
| ConstantResolver.TryResolveLuiBase | ps2xAnalyzer/src/elf_analyzer.cpp:617-663 | the backward loop, which reopens its window at every level, ends and answers as the recursive definition does, with base zero on failure |
| ConstantResolver.TryResolveBasePlusOffset | ps2xAnalyzer/src/elf_analyzer.cpp:600-615 | succeeds exactly when the base resolves and adds the offset modulo 2^32 |
| ConstantResolver.ResolverIsSound | ps2xAnalyzer/src/elf_analyzer.cpp:617-663 | on walks that follow neither register 0 nor register 31 past a link, every straight-line run of a machine with its own LUI, ADDIU and ORI leaves the resolved value in the register, from any register file |
| ConstantResolver.ResolverSoundIff | ps2xAnalyzer/src/elf_analyzer.cpp:617-663 | for every register the answer is right on every run exactly when what the walk reads for register 0, and for register 31 past a link, makes no difference after the later immediates |
| ConstantResolver.FollowingZeroIsWrong | ps2xAnalyzer/src/elf_analyzer.cpp:630-648 | a listing on which the resolver answers 0x10005 although every run leaves 5 |
| ConstantResolver.PassingLinkIsWrong | ps2xAnalyzer/src/elf_analyzer.cpp:643-657 | for a LUI into register 31 and any instruction that does not name it, the answer 0x10000 is right on every run exactly when the instruction is no call or a call at 0xFFF8; register 0 is never followed |
| ConstantResolver.HarmlessIff | ps2xAnalyzer/src/elf_analyzer.cpp:617-663 | the answer agrees with the one that reads register 0 as zero and register 31 as the last link wrote it exactly when the later immediates hide the difference |
| ConstantResolver.GuardedIsSound | ps2xAnalyzer/src/elf_analyzer.cpp:617-663 | the walk that reads register 0 as zero and register 31 as the last link wrote it answers only what every run leaves in the register |
| ConstantResolver.ResolvesIff | ps2xAnalyzer/src/elf_analyzer.cpp:625-660 | the resolver answers exactly when last mentions of the registers, each at most eight instructions before its reader, lead through ADDIU and ORI back to a LUI |
| ConstantResolver.AdjustedSplitResolves | ps2xAnalyzer/src/elf_analyzer.cpp:638-653 | every address is resolved from a LUI with its rounded upper half and an ADDIU with its signed lower half |
| ConstantResolver.PlainSplitResolves | ps2xAnalyzer/src/elf_analyzer.cpp:642-653 | every address is resolved from a LUI and an ORI with its two halves |
| ConstantResolver.ProducesIff | ps2xAnalyzer/src/elf_analyzer.cpp:638-653 | the values that the resolver calculates are those that the machine's LUI, ADDIU and ORI produce: upper half, sum with the number encoded in 16 bits, bits of either |
| FunctionTable.EveryRunAnswersFreshly | ps2xAnalyzer/src/elf_analyzer.cpp:1590-1604 | after any sequence of discovery, import, decode-all and requests, starts are distinct, the index answers as linear search does, and every listing handed out is a fresh decode of the current bounds |
| FunctionTable.RunRefinesMap | ps2xAnalyzer/src/elf_analyzer.cpp:155-208 | every run over vector, index and cache computes the same starts, names and ends as the run on a plain map |
| FunctionTable.SharedStartIff | ps2xAnalyzer/src/elf_analyzer.cpp:1590-1604 | after a request for one of two functions with one start, the other gets the listing of its own bounds exactly when no word between the two ends decodes |
| FunctionTable.SameListingIff | ps2xAnalyzer/src/elf_analyzer.cpp:1606-1631 | two ends give one listing exactly when no word between them decodes |
| FunctionTable.SharedStartLosesWords | ps2xAnalyzer/src/elf_analyzer.cpp:1597-1603 | a table on which the longer of two functions with one start gets a listing without its last word |
| FunctionTable.LoopEndsIff | ps2xAnalyzer/src/elf_analyzer.cpp:1610 | the 32-bit address loop reaches its end exactly when the end is not above the last address congruent to the start |
| FunctionTable.DecodeFunction | ps2xAnalyzer/src/elf_analyzer.cpp:1606-1631 | the loop collects the decodable words of the range in order |
| FunctionTable.FullDecodeIsContiguous | ps2xAnalyzer/src/elf_analyzer.cpp:1606-1631 | when every word decodes, the listing is contiguous as the control-flow results require exactly when the function is not at zero and two more words fit behind it; for aligned functions the bound is that of the decoding loop |
| FunctionTable.FunctionGraph | ps2xAnalyzer/src/elf_analyzer.cpp:1309-1318 | the graph built from whatever listing the table hands out is the graph of a fresh decode |
| FunctionTable.IndexAgreesWithSearch | ps2xAnalyzer/src/elf_analysis_context.cpp:36-44 | on distinct starts the index answers as the first hit of linear search |
| FunctionTable.BuildIndexOk | ps2xAnalyzer/src/elf_analysis_context.cpp:17-25 | that index names exactly the starts in the table, each at a position that has it |
| FunctionTable.ElfAnalysisContext.BuildFunctionIndex | ps2xAnalyzer/src/elf_analysis_context.cpp:17-25 | the rebuilt index enters the functions in order, later positions replacing earlier ones |
| FunctionTable.ElfAnalysisContext.ClearInstructionCache | ps2xAnalyzer/src/elf_analysis_context.cpp:27-34 | all listings and the cache are emptied and nothing else changes |
| FunctionTable.ElfAnalysisContext.FindFunction | ps2xAnalyzer/src/elf_analysis_context.cpp:36-44 | lookup by index returns what linear search returns |
| FunctionTable.ElfAnalysisContext.DiscoverSceSdkSymbols | ps2xAnalyzer/src/elf_analyzer.cpp:148-208 | matches rename and extend existing functions or add new ones, the table ends sorted, reindexed and without listings, and the table invariant holds |
| FunctionTable.ElfAnalysisContext.ImportGhidraMap | ps2xAnalyzer/src/elf_analyzer.cpp:1786-1871 | lines overwrite the name and end of the first function with their start or add one, the table ends sorted, reindexed and without listings, and the table invariant holds |
| FunctionTable.ElfAnalysisContext.DecodeAllFunctionsOnce | ps2xAnalyzer/src/elf_analyzer.cpp:1519-1535 | every function outside the library set gets its listing, the cache is emptied, and the table invariant holds |
| FunctionTable.ElfAnalysisContext.GetDecodedInstructions | ps2xAnalyzer/src/elf_analyzer.cpp:1590-1604 | the listing handed out is a fresh decode of the function's current bounds, and the invariant survives the caching |
| Sorting.SortSorts | ps2xAnalyzer/src/elf_analyzer.cpp:201-205 | the sorted sequence is ordered by start and a permutation |
| Sorting.SortedPermutationIsUnique | ps2xAnalyzer/src/elf_analyzer.cpp:1862-1866 | with distinct starts only one result is possible, so an unstable sort gives it too |
| Sorting.SortIsStable | ghidra_scripts/ExportPS2Functions.java:492 | elements with equal keys keep their order, as Java's list sort promises |
| Sha1.ComputeDigest | ps2xAnalyzer/src/sce_symbol_scanner.cpp:276-370 | for every byte sequence the digest of sections 5.1.1 and 6.1.2 of FIPS 180-4 |
| Sha1.OrFormOfCh | ps2xAnalyzer/src/sce_symbol_scanner.cpp:324-328 | the OR form of Ch equals the XOR form of section 4.1.1 of FIPS 180-4 |
| Sha1.OrFormOfMaj | ps2xAnalyzer/src/sce_symbol_scanner.cpp:334-338 | the OR form of Maj equals the XOR form of section 4.1.1 of FIPS 180-4 |
| Sha1.BitRotate | ps2xAnalyzer/src/sce_symbol_scanner.cpp:271-274 | rotation by n puts bit i - n modulo 32 at place i |
| Sha1.RoundConstants | ps2xAnalyzer/src/sce_symbol_scanner.cpp:324-343 | the four round constants are the square roots of 2, 3, 5 and 10 times 2^30, rounded down |
| Sha1.InitialPattern | ps2xAnalyzer/src/sce_symbol_scanner.cpp:292-296 | the initial hash is the byte pattern of the standard |
| Sha1Arithmetic.RotatedIs | ps2xAnalyzer/src/sce_symbol_scanner.cpp:271-274 | rotation is multiplication by a power of two with what leaves at the top added at the bottom |
| Sha1Arithmetic.MixIsF | ps2xAnalyzer/src/sce_symbol_scanner.cpp:324-343 | the round functions take the bits of three words together one by one, by choice, parity or majority |
| Sha1Arithmetic.RoundIs | ps2xAnalyzer/src/sce_symbol_scanner.cpp:345-350 | a round is the sum of rotation, round function, word and constant modulo 2^32, with the other variables moved up |
| Sha1Arithmetic.NextWordIs | ps2xAnalyzer/src/sce_symbol_scanner.cpp:309-312 | a later schedule word is the rotated parity of four earlier ones |
| Sha1Arithmetic.AddHashIs | ps2xAnalyzer/src/sce_symbol_scanner.cpp:353-357 | the words of two hashes are added modulo 2^32, each to its own |
| Sha1Arithmetic.WordBytesAre | ps2xAnalyzer/src/sce_symbol_scanner.cpp:360-368 | digest words are written most significant byte first |
| Sha1.PadMessage | ps2xAnalyzer/src/sce_symbol_scanner.cpp:278-290 | the padding loops produce the padding of section 5.1.1 of FIPS 180-4 |
| Sha1.PaddedLength | ps2xAnalyzer/src/sce_symbol_scanner.cpp:281-290 | padded messages are whole blocks of 64 bytes |
| Sha1.FewestZeros | ps2xAnalyzer/src/sce_symbol_scanner.cpp:281-285 | the number of zero bits is the least that section 5.1.1 of FIPS 180-4 allows |
| Sha1.PaddingInjective | ps2xAnalyzer/src/sce_symbol_scanner.cpp:278-290 | messages whose bit length fits 64 bits and whose padding is equal are equal |
| Sha1.BuildSchedule | ps2xAnalyzer/src/sce_symbol_scanner.cpp:300-312 | the 80 words are the message schedule of section 6.1.2 of FIPS 180-4 |
| Sha1.RunRounds | ps2xAnalyzer/src/sce_symbol_scanner.cpp:314-351 | the 80 rounds of section 6.1.2 of FIPS 180-4 |
| Relocations.DisablingIsMasking | ps2xAnalyzer/src/sce_symbol_scanner.cpp:161-213 | disabling a relocation is a bitwise AND with the mask that the tree search uses |
| Relocations.MaskBits | ps2xAnalyzer/src/sce_symbol_scanner.cpp:161-178 | the mask of a relocation selects exactly the bits that it leaves alone: bits 26 to 31 for jumps, 16 to 31 for 16-bit kinds, none for whole words, all without relocation |
| Relocations.BitMasked | ps2xAnalyzer/src/sce_symbol_scanner.cpp:690-701 | masking keeps exactly the bits that no relocation record clears, also where records overlap |
| Relocations.MaskingIgnoresOrder | ps2xAnalyzer/src/sce_symbol_scanner.cpp:690-701 | order and repetition of relocation records do not matter |
| Relocations.MaskedEqualIff | ps2xAnalyzer/src/sce_symbol_scanner.cpp:690-701 | two windows mask to the same bytes exactly when they agree on all kept bits |
| Relocations.MatchesSymbol | ps2xAnalyzer/src/sce_symbol_scanner.cpp:688-704 | the verdict is whether the masked window hashes to the symbol's digest |
| Relocations.VerdictIgnoresRelocatedBits | ps2xAnalyzer/src/sce_symbol_scanner.cpp:688-704 | windows that differ only in relocated bits get the same verdict |
| SymbolTree.FindCandidateSymbols | ps2xAnalyzer/src/sce_symbol_scanner.cpp:641-686 | the stack walk returns the same multiset of symbols as the recursive definition, reads only inside the section, and ends because the pending subtrees shrink |
| SymbolTree.WalkIffHeldBelow | ps2xAnalyzer/src/sce_symbol_scanner.cpp:641-686 | a symbol is found exactly when a non-root node that holds it is reached by edges, each of which agrees with the section's own bytes at the node's offset on every bit that its relocation leaves alone |
| SymbolTree.MatchesIff | ps2xAnalyzer/src/sce_symbol_scanner.cpp:661-668 | the masked comparison of the tested word is agreement with the bytes of the section, bit by bit |
| SymbolTree.KeyTextInjective | ps2xAnalyzer/src/sce_symbol_scanner.cpp:225-236 | keys without line breaks have different texts |
| HexText.HexRoundTrip | ps2xAnalyzer/src/sce_symbol_scanner.cpp:215-223 | a number that fits is read back from its fixed-width hex text |
| StaticBits.StaticBitCountIff | ps2xAnalyzer/src/sce_symbol_scanner.cpp:62-92 | for separate relocation records the count is the number of bits that masking keeps exactly when the records keep as many bits as they lose, or everything is relocated |
| StaticBits.KeptSize | ps2xAnalyzer/src/sce_symbol_scanner.cpp:690-701 | masking with n separate records keeps all bits but 32 n, plus those that the count adds up |
| StaticBits.CallIsMiscounted | ps2xAnalyzer/src/sce_symbol_scanner.cpp:62-92 | a symbol with one call for which the code counts 282 bits where masking keeps 262 |
| StaticBits.ViableWithoutRelocations | ps2xAnalyzer/src/sce_symbol_scanner.cpp:718 | without relocations a symbol is viable exactly from 32 bytes on |
| SymbolScanner.Scan | ps2xAnalyzer/src/sce_symbol_scanner.cpp:440-498 | each match lies in a code section, its masked bytes hash to the symbol's digest, its extra size is zero words, every viable symbol at its address has the same identity and is no better by size and static bits; the addresses are exactly those with one viable identity and strictly ascend |
| SymbolScanner.ReportedIsLargest | ps2xAnalyzer/src/sce_symbol_scanner.cpp:741-755 | where sections do not overlap, no viable candidate at the address of a match is larger |
| SymbolScanner.ReportedRecord | ps2xAnalyzer/src/sce_symbol_scanner.cpp:741-761 | a match carries library, name, hash and variant of one record, a viable function that hashes to its digest there, and of the equally large viable candidates that with the most static bits |
| SymbolScanner.ReportedNames | ps2xAnalyzer/src/sce_symbol_scanner.cpp:731-739 | when no library name has a line break, every viable symbol at the address of a match has its library and name |
| SymbolScanner.CollectCandidates | ps2xAnalyzer/src/sce_symbol_scanner.cpp:449-495 | the candidate map holds exactly the symbols that pass the tests, each under its address and key |
| SymbolScanner.ExtendOverZeros | ps2xAnalyzer/src/sce_symbol_scanner.cpp:481-486 | the extra size covers all following zero words inside the section and stops at the first other word |
| SymbolScanner.LoopEndsIff | ps2xAnalyzer/src/sce_symbol_scanner.cpp:456 | the 32-bit offset loop ends exactly for sections shorter than 0xFFFFFFFC bytes |
| SymbolScanner.ResolveAddress | ps2xAnalyzer/src/sce_symbol_scanner.cpp:714-751 | an address resolves exactly when it has viable candidates of a single identity, to one that is largest by size and then by static bits |
| SymbolScanner.ResolveCandidates | ps2xAnalyzer/src/sce_symbol_scanner.cpp:706-769 | the matches are the best candidates of exactly the unambiguous addresses, strictly ascending |
| SymbolScanner.IdentityCollidesIff | ps2xAnalyzer/src/sce_symbol_scanner.cpp:731-739 | two libraries can share an identity text exactly when one is the other followed by a line break and more |
| GuestMemory.Ram.Read | ps2xRuntime/include/ps2_runtime_macros.h:155-243 | every width reads the little-endian value of the circular window at the address, on the contiguous and the wrapped path |
| GuestMemory.Ram.Write | ps2xRuntime/include/ps2_runtime_macros.h:245-312 | every width replaces exactly the circular window at the address, on the contiguous and the wrapped path |
| GuestMemory.ReadAfterWrite | ps2xRuntime/include/ps2_runtime_macros.h:155-312 | a read after a write of the same width returns the value, also across the end of RAM |
| GuestMemory.WriteKeepsOthers | ps2xRuntime/include/ps2_runtime_macros.h:245-312 | bytes outside the written window are unchanged |
| GuestMemory.WideReadIsNarrowReads | ps2xRuntime/include/ps2_runtime_macros.h:160-243 | a wide read is its narrower reads side by side, low part first |
| GuestMemory.WideWriteIsNarrowWrites | ps2xRuntime/include/ps2_runtime_macros.h:245-312 | a wide write is the write of its low part and then of its high part |
| GuestMemory.WrappedAddress | ps2xRuntime/include/ps2_runtime_macros.h:160-163 | reducing an address to 32 bits before masking changes nothing |
| FunnelShift.Qfsrv | ps2xRuntime/include/ps2_runtime_macros.h:647-725 | for all 128-bit rs and rt and every shift amount the result is floor((rs * 2^128 + rt) / 2^sa) mod 2^128, on all paths |
| FunnelShift.ShiftHigh | ps2xRuntime/include/ps2_runtime_macros.h:651-672 | for shifts of 128 to 255 every result bit is the bit of rs that far up |
| FunnelShift.ShiftBoth | ps2xRuntime/include/ps2_runtime_macros.h:673-724 | for shifts of 1 to 127 every result bit is the bit of the concatenation that far up, on the byte path and both lane paths |
| PackedLanes.PaddswClamped | ps2xRuntime/include/ps2_runtime_macros.h:430-453 | each lane of PADDSW is the signed sum clamped to the lane, with the blend and with the and/or select |
| PackedLanes.PsubswClamped | ps2xRuntime/include/ps2_runtime_macros.h:457-480 | each lane of PSUBSW is the signed difference clamped to the lane, with the blend and with the and/or select |
| PackedLanes.PadduClamped | ps2xRuntime/include/ps2_runtime_macros.h:494-500 | each lane of the unsigned add is the sum clamped to the lane |
| PackedLanes.PsubuClamped | ps2xRuntime/include/ps2_runtime_macros.h:501-508 | each lane of the unsigned subtract is the difference clamped at zero |
| PackedLanes.WordRange | ps2xRuntime/include/ps2_runtime_macros.h:441-445 | for word lanes the clamping bounds are INT32_MIN, INT32_MAX and UINT32_MAX |
| PackedLanes.PackUndoesInterleave | ps2xRuntime/include/ps2_runtime_macros.h:510-537 | packing the upper and lower interleavings of a and b returns b, for words, halfwords and bytes |
| PackedLanes.PackOfOddElements | ps2xRuntime/include/ps2_runtime_macros.h:122-127 | after rotating the interleavings by one element packing returns a, so interleaving loses nothing |
| PackedLanes.InterleavedElements | ps2xRuntime/include/ps2_runtime_macros.h:122-127 | the lower interleaving has element k of b at place 2k and element k of a at place 2k + 1, the upper one those of the upper halves, at three widths |
| PackedLanes.PackedElements | ps2xRuntime/include/ps2_runtime_macros.h:510-537 | packing takes the elements at even places, those of rt into the lower half, at three widths |
| Seqlock.ValidatedCopyIsOneUpdate | ps2xRuntime/src/recomp_backend.cpp:46-56 | in every interleaving with the writer, an attempt that leaves the loop by break has copied all fields of the latest completed update, unless the counter went all the way around |
| Seqlock.InvariantHoldsThroughout | ps2xRuntime/include/recomp_debug_ipc.h:21-41 | every run keeps the even/odd discipline, and while the counter has not moved the fields copied so far are those of the latest completed update |
| Seqlock.WrapAcceptsTornCopy | ps2xRuntime/src/recomp_backend.cpp:47-56 | for every even counter modulus, half as many updates inside one attempt let a copy pass that is no completed update |
| Seqlock.GivingUpKeepsTornCopy | ps2xRuntime/src/recomp_backend.cpp:46-61 | eight failed attempts can end with a torn copy that is returned |
| Seqlock.CurrentThread | ps2xRuntime/src/recomp_backend.cpp:21-28 | the thread of a hit breakpoint, else the owner of the first claimed slot, else none |
| Seqlock.SelectSlot | ps2xRuntime/src/recomp_backend.cpp:36-42 | the first slot owned by the current thread, or failure exactly when there is none |
| Bitfield.LoadAfterStore | ps2xRuntime/include/types.h:96-133 | on 32- and 64-bit backing and for fields at the top, an unsigned load after a store gives the value modulo 2 to the field width |
| Bitfield.LoadExactIff | ps2xRuntime/include/types.h:64-68 | an unsigned load gives back every stored value exactly on those layouts |
| Bitfield.FieldAfterStore | ps2xRuntime/include/types.h:126-133 | on every legal layout a store makes the field the value modulo 2 to its width |
| Bitfield.SignedValueIsField | ps2xRuntime/include/types.h:109-117 | on every legal layout the signed reading is the field as two's complement |
| Bitfield.SignedLoadAfterStore | ps2xRuntime/include/types.h:109-133 | on every legal layout the signed reading of a stored value wraps it into the two's complement range of the field |
| Bitfield.StoreKeepsOutside | ps2xRuntime/include/types.h:126-133 | a store leaves every bit outside the field as it was |
| Bitfield.DisjointStoresCommute | ps2xRuntime/include/types.h:126-133 | on 32- and 64-bit backing stores to disjoint fields of one word can be done in either order |
| Bitfield.DisjointStoresCommuteIff | ps2xRuntime/include/types.h:64-68 | stores to two disjoint fields commute on all words and values exactly when the backing has at least 32 bits |
| Bitfield.RawIsField | ps2xRuntime/include/types.h:96-107 | the raw reading is the word divided by 2 to the offset, modulo 2 to the field width |
| Bitfield.RawExactIff | ps2xRuntime/include/types.h:64-68 | reading is right for every word exactly when the backing has at least 32 bits or the field is at the top |
| Bitfield.StoreExactIff | ps2xRuntime/include/types.h:64-68 | storing leaves the rest of every word alone exactly on the same layouts |
| Bitfield.Cell.Store | ps2xRuntime/include/types.h:126-133 | the field becomes the value reduced to its width on every layout, and no other bit changes on the layouts with an exact mask |
| SyntheticEntries.CollectExecutableLabelRecords | ghidra_scripts/ExportPS2Functions.java:402-524 | the entries are exactly the candidate addresses that are no function start, strictly ascending, each named after the first symbol at its address or by the address, each with the non-empty range that ends at the nearest start, function end or block end, holding no other start and meeting no other range |
| SyntheticEntries.AssignRanges | ghidra_scripts/ExportPS2Functions.java:483-520 | every entry keeps its name and start and gets the least end among its surroundings and the starts above it |
| SyntheticEntries.RangeEnd | ghidra_scripts/ExportPS2Functions.java:494-516 | the end is the least of the limit and the starts above, or four bytes when there is neither |
| SyntheticEntries.RangeEndIsUnique | ghidra_scripts/ExportPS2Functions.java:494-516 | that description leaves only one end |
| SyntheticEntries.RangesAreDisjoint | ghidra_scripts/ExportPS2Functions.java:483-520 | two entries with such ranges share no address |
| SyntheticEntries.AddCandidates | ghidra_scripts/ExportPS2Functions.java:410-476 | a record is added for exactly the candidate addresses that have no start yet, once each |
| SyntheticEntries.ContainingEnd | ghidra_scripts/ExportPS2Functions.java:496-501 | the end of the first function that contains the address past its start, and zero exactly when none does |
| SyntheticEntries.BlockEnd | ghidra_scripts/ExportPS2Functions.java:503-509 | one past the last address of a block that contains the address, and zero exactly when none does |
| SyntheticEntries.AnonymousNamesEqualIff | ghidra_scripts/ExportPS2Functions.java:398-400 | anonymous names are equal exactly for addresses with the same low 32 bits |
| CapabilityNames.ReadBuiltName | ghidra_scripts/Preview_Function_Capabilities.py:629-701 | reading a built name back by the category patterns yields exactly the capabilities written into it, own and child together |
| CapabilityNames.ReadCategory | ghidra_scripts/Preview_Function_Capabilities.py:631-650 | the pattern of one category captures exactly the letters of that category, own capabilities in upper case and those of children in lower case, whatever the other categories, the reference count and the address spell |
| CapabilityNames.ReadBuiltParts | ghidra_scripts/Preview_Function_Capabilities.py:35-38 | a built name shows in upper case exactly the capabilities of the function and in lower case exactly those of its children |
| CapabilityNames.NamesTellApart | ghidra_scripts/Preview_Function_Capabilities.py:39-44 | equal names mean the same address, reference count, own and child capabilities, for addresses printed at one width |
| CapabilityNames.FullName | ghidra_scripts/Preview_Function_Capabilities.py:658-701 | the name, in full, of a function that has every capability itself |
| CapabilityNames.CharacterSets | ghidra_scripts/Preview_Function_Capabilities.py:638-639 | the letters that the patterns match are the 26 lower-case and 26 upper-case ones, and addresses are written in lower-case hex digits |
| CapabilityNames.OnlyPreviewedCounts | ghidra_scripts/Preview_Function_Capabilities.py:658-701 | a name takes up only preview letters of what was read, so letters outside the nomenclature in leftover names are dropped |
| CapabilityNames.ThreadStartReadsNothing | ghidra_scripts/Preview_Function_Capabilities.py:152-159 | names of thread starts show no capability |
| CapabilityPropagation.PreviewCapabilities | ghidra_scripts/Preview_Function_Capabilities.py:176-237 | from default names the passes end; every function above a leaf has the name that shows in upper case its own capabilities and in lower case those of everything it reaches through visited callees other than itself, with what the names of callees outside the passes show; other names are unchanged |
| CapabilityPropagation.FinalNameForm | ghidra_scripts/Preview_Function_Capabilities.py:526-558 | a final name says that there are no calls exactly when the function makes none but to itself |
| CapabilityPropagation.PreviewFrom | ghidra_scripts/Preview_Function_Capabilities.py:199-237 | the same result from any texts as names of the functions above a leaf that read as nothing but own and reachable capabilities, old reference counts and own letters included |
| CapabilityPropagation.PreviewAny | ghidra_scripts/Preview_Function_Capabilities.py:199-237 | where every visited function on a cycle of calls reaches every capability, the same result from any texts whatsoever as names of the functions above a leaf, for every order |
| CapabilityPropagation.WrongNamesStay | ghidra_scripts/Preview_Function_Capabilities.py:199-237 | where that fails, the functions above a leaf can have names other than the final ones that every renaming leaves as they are, whatever the other names |
| CapabilityPropagation.EveryStartFits | ghidra_scripts/Preview_Function_Capabilities.py:629-650 | any names whatsoever are a possible start: what the names outside the passes show is recorded in the program |
| CapabilityPropagation.OnlyFinalSettlesIff | ghidra_scripts/Preview_Function_Capabilities.py:199-237 | the final names are the only ones at which the passes can stop exactly when every visited function on a cycle of calls reaches every capability |
| CapabilityPropagation.PreviewTwice | ghidra_scripts/Preview_Function_Capabilities.py:176-237 | running the script a second time changes no name |
| CapabilityPropagation.StoppedNamesShowAll | ghidra_scripts/Preview_Function_Capabilities.py:199-237 | whatever the names at the start, when the passes stop every name reads as at least its own capabilities and everything its function reaches, and they are the final names exactly when no name reads as more |
| CapabilityPropagation.StaleNamesNeverSettle | ghidra_scripts/Preview_Function_Capabilities.py:199-237 | three functions in a ring above a leaf, with one leftover name, on which every pass changes names and every second pass returns to the same state |
| CapabilityPropagation.ReachedIsUnion | ghidra_scripts/Preview_Function_Capabilities.py:629-650 | what a function reaches is the union of what its visited callees have and reach |
| CapabilityPropagation.FixpointIsLeast | ghidra_scripts/Preview_Function_Capabilities.py:199-237 | the fixpoint lies below every assignment that contains what it reads |
| CapabilityPropagation.FixpointIsReached | ghidra_scripts/Preview_Function_Capabilities.py:199-237 | at a fixpoint the child capabilities are exactly those at the end of some chain of calls |
| CapabilityPropagation.VisitedIsLeast | ghidra_scripts/Preview_Function_Capabilities.py:176-234 | the functions above a leaf are the least set with the leaves and the listed callers of its members |
| CapabilityPropagation.ChildReadIsNow | ghidra_scripts/Preview_Function_Capabilities.py:629-650 | once every visited name is built, reading the callees' names gives the union of what was written into them and of what the other names show |
| CapabilityPropagation.ReadIsBetween | ghidra_scripts/Preview_Function_Capabilities.py:629-650 | while some visited names still have arbitrary texts, the preview letters read from the callees' names lie between what the lower and the upper bound say |
| CapabilityPropagation.Renamer.Rename | ghidra_scripts/Preview_Function_Capabilities.py:209-215 | one renaming builds the name from the preview letters of the callees' names, whatever those texts are, keeps the names between the same renamings from names that show nothing and from an upper bound, and changes nothing once both of those are fixpoints |
| CapabilityPropagation.Renamer.RenameLevel | ghidra_scripts/Preview_Function_Capabilities.py:205-227 | one level renames its nodes in any order, collects their listed callers that are not traversed yet, and without a change leaves every traversed function settled |
| CapabilityPropagation.Renamer.Pass | ghidra_scripts/Preview_Function_Capabilities.py:200-234 | one pass visits exactly the functions above a leaf; a pass without a change leaves all of them settled, and one with a change raises the lower bound or lowers the upper one |
| CapabilityPropagation.Renamer.Run | ghidra_scripts/Preview_Function_Capabilities.py:199-237 | the passes end, because the bounds close in with every changing pass, with every visited name settled |

## Left out

- Reading the symbol database, ELF files and CSV text, and the R5900 decoder: the model starts from records, matches, well-formed lines and a decoding function.
- The writer of the snapshot claims and evicts slots (ps2xRuntime/src/lib/recomp_debug_writer.cpp); the model has one writer that owns its slot, sequential consistency, and no eviction during an attempt.
- The RAM window that `ReadRegs` copies after the loop, which no counter guards, and breakpoints, stepping and memory requests.
- Which library calls give a function its own capabilities (the API table and the stripping of name decorations): these are inputs.
- Monitor cancellation and thunks in the Ghidra scripts; the tests that make a symbol or an instruction a candidate entry are inputs.
- The Python slot reader, which takes the first counter from the same copy as the data and so follows another protocol.
- Floating-point fields of the bit-field template, the FPU and VU macros, and the remaining SIMD macros, which are single instructions.
- The fiber scheduler, guest heap and stack pool, whose bodies are not part of this model.
- Printed heuristics, name-list classification, TOML and CSV output, disassembly text, GUI, input and network code.
