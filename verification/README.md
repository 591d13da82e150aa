# Verified model of the binary-analysis engine

A Dafny model of the parts of rom_nom_nom that analyse and rewrite MIPS programs: everything in `core/`
that is loops, mutable tables, graphs and 32-bit arithmetic rather than input and output. Each module
follows one source file, or one algorithm of it.

- `Mips`, `UseDefs`: instruction decoding, classification, and the registers each instruction reads and
  writes.
- `RegisterTracking`, `TrackerSoundness`, `TrackerMerge`: the register tracker as a class over mutable
  tables; its soundness over a nondeterministic machine in which callees clobber the O32 caller-saved set;
  the merge as a meet.
- `Reachability`, `MustDefined`, `Availability`: the three fixpoint analyses over a control-flow graph,
  each proved equal to a statement about paths.
- `Lcs`: the Hunt-Szymanski subsequence length against the textbook recurrence.
- `Blocks`, `Leaders`, `Slicing`, `Linking`, `Pruning`, `PostOrder`, `Merging`, `Compaction`, `CompactionLinks`,
  `ControlFlow`:
  the control-flow graph with its redundant views (successors, predecessors, outgoing edges, edge list,
  address index), from leaders to coalescing and renumbering.
- `CAst`, `CSemantics`: the C tree, and a big-step semantics with loops, breaks, returns, gotos, switches,
  pointers and members. `CSearch`, `CPurity`, `CUnchanged`, `CSubstitution`, `CRename`, `CRenameStatements`,
  `CPruning`: the visitors, rewriters and block builder, proved exact on trees and then related to meaning.
- `Sha1Standard`, `Sha1Streaming`: FIPS PUB 180-1 and the buffered class that refines it.
- `RelocationApplier`, `HiLoTracking`, `HiLoMeaning`: applying `%hi`/`%lo`, jump and word relocations, finding the
  pairs again, and what the pairs found mean on the register machine.
- `Symbols`: registry validation, hash indices, and the names that stand for addresses.
- `Disassembly`: slicing a buffer into functions.
- `LabelRenaming`, `FunctionLabels`, `Splicing`: splicing functions of several compilations into one file.
- `Wrappers`, `Strings`, `Sets`: small shared definitions.

Code that updates fields is modelled by classes and loops: each method equates the new state with a function
or predicate of the old one, and lemmas prove what that function means. Values stand for values: a hash set
is a set, a vector is a sequence, a pointer to a block is its id. 32-bit words are `bv32` where bits matter
and integers below 2^32, with the wrap-around written out, where order does.

The machine of the tracker soundness is the instruction set as far as the decoder knows it: a word that decodes to
opcode Unknown writes no register, although some such words, `ll` and `dmfc0` among them, do; and a call through
`jalr` that links in another register keeps $ra, although the callee's own calls may change it.

Semantics is a parameter where the source leaves it to C or to the environment. A `Machine` of `CSemantics`
says what operators, casts, literals and calls do, and lemmas ask of it only what they use: `Unforgeable`
(no operator makes a pointer into a variable out of other values), `Nameless` (no operator or call looks at
variable names), `CastsDirectly` (an unsigned integer converted through double to single precision is the
integer converted at once), `Commutes` and `Negates` (the laws of C operators on integers). Fuel bounds the
rounds of loops and gotos; every theorem holds for every amount of it, so it bounds no statement. Symbol
lookup of the relocation applier, recovered jump tables, recognised division expansions and the effect of a
block on a return register are parameters.

Where the code and its comments or its apparent intent disagree, the code is modelled:

- The register tracker keeps the value of the link register over a call; `SoundExactlyWhenLinksSafe` gives
  the exact condition under which that is harmless, and `UntaintedIsRight` says what stays right when it is not.
- Equality of tracked values ignores where an index register was read, so a merge can keep the wrong
  instruction for one side; `AnalyzedTrackersCanDiffer` shows two such trackers, `MergeSoundForOtherExactly` gives
  the exact condition.
- `CompactReachableBlocks` removes repeated predecessors but not repeated successors, so afterwards the two
  agree as sets; `CompactedIsLinkedExactly` says when they still agree with multiplicity, `CompactionCanUnlink` shows
  a graph where they do not.
- The `%hi` relocation ignores the high half that is in the word already; `HighAddendExactly` says that this is right
  exactly when there is none, `HighAddendIsIgnored` shows a pair where there is one.
- The relocation tracker empties its table before the delay slot of a jump or return, not after it as its
  comment says; `DelaySlotExactly` says what that loses. It keeps a lui across calls; `RecordedTargetIsComputed` gives
  the exact condition under which the target it records is right.
- The visitors do not report the write of a member as a modification of the variable, and do not report the
  address of a member; `WritesExactly` and `AddressesExactly` say what they miss, `MemberWriteGoesUnnoticed` and
  `MemberAddressGoesUnnoticed` show it.
- Renaming a variable in a statement leaves declarations alone; `MutatorIsWholeExactly` says when nothing is left to
  rename, `DeclarationReadsTheOldName` shows a declaration that then computes something else.
- `AddStatement` drops a block that holds a label inside; `PruningKeepsBehaviourExactly` gives the exact condition
  under which nothing is lost.
- Labels generated for two functions can be equal, and the passes that generate them can rename inside a new label;
  `NewLabelsMeetExactly` and `PassesAreSimultaneousExactly` say exactly when, and `OldLabelsAreGoneAsRun` when an old
  label is left in the end.
- `.end` and `.size` lines are matched by prefix, so a line for a longer name closes or extends a function too;
  `ClosesAtOwnEndExactly` and `EndsAtOwnSizeExactly` say when a function ends at its own lines. A function can be
  swallowed that way: `SizeLineSwallowsFunction` shows one, `PassedOverExactly` says exactly which are passed over.
- Wrapping puts `.set move` only before `.end` lines that are spelled exactly; `NomoveStaysExactly` says when
  `.set nomove` is in force after the function.

## Model

| member | source | states |
|---|---|---|
| Lcs.ComputeCanonicalSequenceLcs | core/register_tracker.cc:1559-1613 | for all opcode sequences, prefix trimming, suffix trimming and the patience loop return the length that the textbook recurrence gives |
| Lcs.LcsIsAchieved | core/register_tracker.cc:1559-1613 | some common subsequence has the length of the recurrence |
| Lcs.LcsIsUpperBound | core/register_tracker.cc:1559-1613 | no common subsequence is longer than the recurrence says |
| Lcs.TrimmedLcs | core/register_tracker.cc:1562-1584 | cutting off a common prefix and a common suffix lowers the length by exactly what was cut |
| Lcs.PlaceMatches | core/register_tracker.cc:1596-1609 | folding the matches of one candidate opcode into `lis`, last match first, takes the jump list of the candidate prefix to that of the next one |
| Lcs.JumpListIsLeast | core/register_tracker.cc:1595-1612 | `lis[k]` is the least target position that ends a common subsequence of length k + 1, and nothing longer than `lis` exists |
| Lcs.LowerBound | core/register_tracker.cc:1601-1602 | the first entry not below the position, for a strictly increasing vector |
| Lcs.IndexPositions | core/register_tracker.cc:1588-1594 | every position of every opcode is listed once, in increasing order |
| UseDefs.GprDefsExact | core/register_tracker.cc:178-494 | for every instruction of a known opcode, the recorded integer definitions are the destination that the instruction set names (never $zero), or the link register of a call; opcode Unknown records and is taken to write nothing |
| UseDefs.FprDefsExact | core/register_tracker.cc:178-494 | the same for floating-point destinations |
| UseDefs.DecodedHasOperands | core/mips.cc:798-1292 | every decoded word carries the operands that `Step` dereferences for its opcode |
| RegisterTracking.RegisterTracker.Step | core/register_tracker.cc:512-715 | the four phases on the mutable tables compute one transition on tracker states, `StepState`, of which the soundness rows below speak |
| RegisterTracking.RegisterTracker.Analyze | core/register_tracker.cc:717-721 | stepping through a list computes `AnalyzeState` |
| RegisterTracking.RegisterTracker.ClearCallerSavedGprs | core/register_tracker.cc:783-799 | the fifteen plus four listed registers are exactly the caller-saved ones, and only their values and definitions are dropped |
| RegisterTracking.RegisterTracker.Merge | core/register_tracker.cc:822-853 | the new state is `MergeState` of the two old ones, and the result is true if and only if some integer value, reaching definition or bit pattern was lost |
| TrackerSoundness.StepSound | core/register_tracker.cc:512-715 | if all tracked values are right before an instruction whose link register is safe, they are right after it, whatever the machine does within its freedom |
| TrackerSoundness.AnalyzeSound | core/register_tracker.cc:717-721 | on every run of a list whose calls leave their link registers untracked, every register and bit pattern holds what its tracked kind denotes |
| TrackerSoundness.SoundExactlyWhenLinksSafe | core/register_tracker.cc:689-697 | the tracked state is right at every point of every run if and only if no call finds, in its link register, a tracked value that would survive it |
| TrackerSoundness.LinkRegisterKeepsStaleValue | core/register_tracker.cc:689-697 | the condition can fail: after `lui $ra` and `jal` the tracker still holds the old constant |
| TrackerSoundness.RunExists | core/register_tracker.cc:512-715 | every list has a run from every valid machine, so the soundness results are not empty |
| TrackerSoundness.CarefulIsSound | core/register_tracker.cc:512-721 | a tracker that also forgets the link register at each call is right at every point of every run of every list |
| TrackerSoundness.UntaintedIsRight | core/register_tracker.cc:512-721 | the tracker as it is agrees with that one outside the registers tainted by a stale link: on every run of every list, each untainted register holds what its tracked value denotes, whatever happened to the others |
| TrackerSoundness.ReachingDefinitionExact | core/register_tracker.cc:855-857 | the reaching definition of a register is the instruction whose write reaches this point through no redefinition and no clobbering call; it is absent exactly when no write does |
| TrackerSoundness.UsesExact | core/register_tracker.cc:859-865 | the uses of a definition are exactly the instructions that read a register it reaches |
| TrackerMerge.MergeIsMeet | core/register_tracker.cc:822-853 | a state knows at most what the merge knows if and only if it knows at most what each input knows: the merge is the meet |
| TrackerMerge.MergeSoundForThis | core/register_tracker.cc:822-853 | merging anything into a right state leaves it right |
| TrackerMerge.MergeSoundForOtherExactly | core/register_tracker.cc:822-853 | the merged values and bit patterns are right on every trace where the other tracker was right if and only if all indexed values that the two share were computed at the same instruction, because value equality ignores `mid_inst_index` |
| TrackerMerge.MergedValueSoundExactly | core/register_tracker.cc:822-853 | the same, value by value |
| TrackerMerge.AnalyzedTrackersCanDiffer | core/register_tracker.h:79-97 | `lui; addu` and `lui; lw; addu` leave two trackers whose values are equal for the code and differ in where the index was read |
| TrackerMerge.DecodedTrackersDiffer | core/register_tracker.h:79-97 | the same for three decoded words |
| TrackerMerge.MergeReportsLoss | core/register_tracker.cc:822-853 | a merge that reports a change has lost knowledge, one that does not has changed nothing |
| TrackerMerge.LosingChainBound | core/register_tracker.cc:822-853 | merges into one tracker report a change at most 94 times |
| Reachability.BuildCfgReachabilityGraph | core/register_tracker.cc:30-79 | marks exactly the blocks with a path from block 0, lists exactly the sources of edges as predecessors, and knows whether a return is reachable |
| MustDefined.Iterate | core/register_tracker.cc:1475-1508 | the `while (changed)` loop ends, because registers only go missing, and leaves all equations satisfied |
| MustDefined.MissingExactly | core/register_tracker.cc:1475-1508 | a register not defined on entry is missing at a block if and only if some walk from a root of the analysis reaches the block without writing it |
| MustDefined.DetectUninitializedCalleeSavedRegisters | core/register_tracker.cc:1456-1533 | reports exactly the callee-saved registers that some path from an entry reads, other than to spill them, before anything on it writes them |
| MustDefined.UnreportedReadsAreWritten | core/register_tracker.cc:1510-1532 | on any path from block 0, a read of an unreported callee-saved register that is no spill comes after a write |
| Availability.ReachablePredecessors | core/register_tracker.cc:63-76 | the graph that both availability loops work on has predecessors among reachable blocks only |
| Availability.SolveV0 | core/register_tracker.cc:1022-1097 | the loop ends with the least solution: a reachable block has the value on entry if and only if some path generates it on an edge and keeps it without re-entering block 0 |
| Availability.SolveF0 | core/register_tracker.cc:1267-1348 | the loop ends with the greatest solution: a reachable block has the value on entry if and only if no path spoils it or comes from a start that never generates it |
| PostOrder.ComputePostOrder | core/control_flow_graph.cc:621-642 | each block reachable from the entry exactly once, the entry last, and every edge leads to an earlier block or lies on a cycle |
| PostOrder.ComputeReversePostOrder | core/control_flow_graph.cc:644-648 | the post-order backwards |
| PostOrder.ReversePostOrderIsTopological | core/control_flow_graph.cc:621-648 | when no reachable edge lies on a cycle, every edge leads forward in reverse post-order |
| Leaders.IdentifyLeaders | core/control_flow_graph.cc:61-161 | an instruction is marked if and only if it is the first, a resolved transfer target, a switch target or follows a delay slot, division expansions excepted |
| Leaders.FindConstantTarget | core/control_flow_graph.cc:122-155 | the address that the last lui, or addi and lui before it, puts in the jump register; none when there is no such pair |
| Slicing.AssembleBlocks | core/control_flow_graph.cc:163-192 | one block for each leader, holding the instructions up to the next one, with its addresses, switch table and no edges |
| Slicing.SlicesTile | core/control_flow_graph.cc:171-192 | joined end to end, the blocks are the instruction list |
| Slicing.ControlEndsBlock | core/control_flow_graph.cc:100-160 | two places after a branch or jump another block begins, division expansions excepted: control leaves a block only at its end |
| Linking.WithEdgeLinked | core/control_flow_graph.cc:197-206 | adding an edge keeps ids, outgoing edges, successors and predecessor multiplicities in agreement |
| Linking.WithEdgeListed | core/control_flow_graph.cc:197-206 | and keeps the edge list in agreement with the blocks |
| Linking.EdgesStayRight | core/control_flow_graph.cc:208-356 | the edges that a terminator asks for stay right while other edges and stub blocks are added |
| ControlFlow.ControlFlowGraph.GetOrCreateTargetBlock | core/control_flow_graph.cc:232-287 | the block that starts at the address, or a new six-instruction stub for it; all views stay in agreement |
| ControlFlow.ControlFlowGraph.ConnectSwitch | core/control_flow_graph.cc:218-230 | one edge for each distinct case target that starts a block, and no other |
| ControlFlow.ControlFlowGraph.ConnectBranch | core/control_flow_graph.cc:296-313 | the taken edge, and the fall-through edge exactly when the branch can fall through to a block |
| ControlFlow.ControlFlowGraph.ConnectIndirect | core/control_flow_graph.cc:315-350 | an edge exactly when the block itself builds the address of a block in the jump register |
| ControlFlow.ControlFlowGraph.ConnectBlocks | core/control_flow_graph.cc:208-356 | after the loop every own block has exactly the edges its terminator asks for |
| Pruning.FindReachable | core/control_flow_graph.cc:360-375 | the worklist ends with exactly the blocks that the entry reaches |
| Pruning.PrunedReachesSame | core/control_flow_graph.cc:377-394 | dropping the edges of unreachable blocks changes nothing about reachability |
| Pruning.PrunedLinked | core/control_flow_graph.cc:377-389 | and leaves successors, predecessors and outgoing edges in agreement |
| Pruning.PrunedListed | core/control_flow_graph.cc:390-394 | and the filtered edge list in agreement with the blocks |
| Pruning.TrimOne | core/control_flow_graph.cc:396-411 | dropping one unreachable all-nop block from the end keeps every other promise |
| ControlFlow.ControlFlowGraph.Build | core/control_flow_graph.cc:48-415 | fails exactly on empty input; else slices of the code at its leaders, linked as their terminators ask, all views in agreement, every edge starting at a reachable block, and an exact address index when addresses are distinct |
| ControlFlow.TrimmedTiles | core/control_flow_graph.cc:396-411 | the own blocks that are left tile the code up to trailing nops, and only stubs follow them |
| ControlFlow.EdgeListIsUnion | core/control_flow_graph.cc:197-206 | the edge list of a linked graph is the multiset union of the outgoing edges |
| ControlFlow.ControlFlowGraph.FindBlockByVram | core/control_flow_graph.cc:431-444 | the block that starts at the address, else the first one whose range holds it, else none |
| ControlFlow.ControlFlowGraph.RebuildVramIndex | core/control_flow_graph.cc:446-453 | the index holds, for every start address of a non-empty block, the last such block, and nothing else |
| ControlFlow.ControlFlowGraph.CompactReachableBlocks | core/control_flow_graph.cc:538-619 | keeps the reachable non-empty blocks under the numbering by entry and address; edge list and index are rebuilt to match |
| Compaction.CompactionIsIsomorphic | core/control_flow_graph.cc:538-619 | when every reachable block is non-empty, the result is the reachable subgraph renumbered: entry 0, the rest by address, successor lists and edge types in order, predecessors as sets |
| Compaction.RenumberingKeepsTraces | core/control_flow_graph.cc:538-619 | renumbering changes no instruction sequence along any path |
| Compaction.OnlyReachableLeft | core/control_flow_graph.cc:538-619 | nothing unreachable and nothing empty is left |
| CompactionLinks.MultiplicityExactly | core/control_flow_graph.cc:571-597 | after compaction a block is listed among the predecessors of another as often as the other among its successors if and only if it was a successor at most once |
| CompactionLinks.CompactedIsLinkedExactly | core/control_flow_graph.cc:538-619 | the compacted graph has all its views in agreement again, with multiplicity, if and only if no reachable block lists a successor twice |
| CompactionLinks.CompactionCanUnlink | core/control_flow_graph.cc:571-597 | a linked graph of two blocks with a doubled edge loses the agreement |
| Merging.MergeKeepsTraces | core/control_flow_graph.cc:499-527 | one merge changes no instruction sequence along any path from the entry, also when the merged block leads back to its predecessor |
| Merging.MergeShrinks | core/control_flow_graph.cc:499-527 | every merge empties one non-empty block |
| ControlFlow.ControlFlowGraph.MergeOnce | core/control_flow_graph.cc:472-530 | a pass merges if and only if some reachable block may absorb the one it falls through to |
| ControlFlow.ControlFlowGraph.CoalesceContiguousBlocks | core/control_flow_graph.cc:455-536 | ends, keeps the prefix-closed set of instruction sequences along paths from the entry, leaves nothing to merge, and changes nothing when it returns false |
| Sha1Standard.PaddedIsPadding | core/sha1.cc:125-158 | the padded byte string is, bit for bit, the padding of section 4 of FIPS PUB 180-1 for messages below 2^61 bytes |
| Sha1Standard.PaddingIsUnique | core/sha1.cc:125-158 | section 4 leaves no choice of padding |
| Sha1Streaming.PaddedInOneBlock | core/sha1.cc:131-147 | when tail, mark and length fit one block, that block ends the padded message |
| Sha1Streaming.PaddedInTwoBlocks | core/sha1.cc:131-147 | otherwise the length ends a block of its own |
| Sha1Streaming.Sha1.Transform | core/sha1.cc:34-84 | one block is worked into the state as sections 5 to 7 say |
| Sha1Streaming.Sha1.Update | core/sha1.cc:86-119 | appends the bytes to what has been hashed, however full the buffer is; after `Finalize` it changes nothing |
| Sha1Streaming.Sha1.Finalize | core/sha1.cc:125-158 | the digest is the SHA-1 of everything fed in, and asking again gives the same answer |
| Sha1Streaming.ComputeStreamSha1 | core/sha1.cc:185-197 | the digest of the concatenated portions, for any split of any message |
| Sha1Streaming.ComputeSha1Digest | core/sha1.cc:199-204 | the digest of the message |
| Sha1Streaming.Sha1DigestToHex | core/sha1.cc:164-171 | two lower-case digits for each byte |
| Sha1Streaming.HexInjective | core/sha1.cc:164-171 | different digests have different texts |
| CSearch.SearchVisitor.VisitExpression | core/c_ast_visitor.cc:65-105 | early `Stop` included, the visitor reports a hit if and only if the expression holds one where it looks |
| CSearch.SearchVisitor.VisitStatement | core/c_ast_visitor.cc:14-63 | the same for statements |
| CSearch.SearchExpression | core/c_ast_utils.cc:385-428 | each verdict on an expression (calls, references, address-of, modification) is exact for the tree |
| CSearch.SearchStatement | core/c_ast_utils.cc:391-543 | the same for statements, with labels, jumps and loops |
| CSearch.IsPureExpression | core/c_ast_utils.cc:39-77 | true if and only if no increment, assignment, call or volatile stack load occurs anywhere |
| CSearch.IsCommutableBinary | core/c_ast_utils.cc:92-95 | true if and only if the operator has a mirror and both operands are pure |
| CPurity.PureEval | core/c_ast_utils.cc:39-77 | evaluating a pure expression changes no state |
| CPurity.SwapOperands | core/c_ast_utils.cc:79-95 | a commutable binary expression means the same with operands swapped and operator mirrored |
| CPurity.NegationNegates | core/c_ast_utils.cc:97-126 | the negated condition has the same effects and the opposite truth |
| CUnchanged.LeavesExec | core/c_ast_utils.cc:213-310 | a call-free statement that neither writes nor declares x, nor takes the address of x or writes or addresses a part of it, leaves x unchanged on every run, from any entry |
| CUnchanged.LeavesFunction | core/c_ast_utils.cc:213-310 | the same for a whole body through its gotos |
| CUnchanged.WritesExactly | core/c_ast_utils.cc:281-310 | an assignment or increment writes into x if and only if it is reported as a modification of x or writes a part of x: the writes of parts are exactly what the verdict misses |
| CUnchanged.MemberWriteGoesUnnoticed | core/c_ast_utils.cc:281-310 | the verdicts alone are not enough: `s.f = 1` is reported by none of them and changes s |
| CUnchanged.AddressesExactly | core/c_ast_utils.cc:213-247 | a `&` expression makes a pointer into x if and only if it is reported as taking the address of x or takes that of a part of x |
| CUnchanged.MemberAddressGoesUnnoticed | core/c_ast_utils.cc:213-247 | `&s.f` is reported by no verdict and points into s |
| CSubstitution.SubstitutionMeansBinding | core/c_ast_utils.cc:585-710 | evaluating the rewritten pure expression is evaluating the original with x bound to the value of the replacement |
| CRename.RenamedEval | core/c_ast_utils.cc:585-710 | renaming x to a fresh y commutes with evaluation, effects included |
| CRename.AbsentEval | core/c_ast_utils.cc:585-710 | renaming a name that does not occur changes no meaning |
| CRenameStatements.SubstituteIdentifierInStatement | core/c_ast_utils.cc:712-740 | the in-place mutator produces the statement with every expression renamed and every declaration untouched |
| CRenameStatements.MutatorIsWholeExactly | core/c_ast_utils.cc:712-740 | what the mutator makes of a statement is the renaming of it all, declarations included, if and only if no declaration in it mentions the variable |
| CRenameStatements.RenamedExec | core/c_ast_utils.cc:712-740 | the renaming of it all, of x to a fresh y, commutes with execution for every statement: same outcome, exchanged states, same number of rounds, loops and abrupt exits included, from any entry |
| CRenameStatements.RenamedFunction | core/c_ast_utils.cc:712-740 | the same for a whole body through its gotos |
| CRenameStatements.MutatedFunction | core/c_ast_utils.cc:712-740 | so what the mutator makes of a body behaves as the body when no declaration mentions x |
| CRenameStatements.DeclarationReadsTheOldName | core/c_ast_utils.cc:712-740 | the condition can fail: in `s32 b = a` the declaration goes on reading the old variable, and another value is computed |
| CPruning.CompoundStatement.AddStatement | core/c_ast.cc:392-415 | appends the statement unless the last one is a jump and this one is no label or case label |
| CPruning.CompoundStatement.AddStatements | core/c_ast.cc:392-415 | adding a list one by one builds `AddedAll`, of which the rows below speak |
| CPruning.PruningKeepsBehaviour | core/c_ast.cc:392-415 | a block built by `AddStatement` calls behaves, from any entry, as the list with nothing left out, when what is left out holds no label or case label |
| CPruning.PrunedFunction | core/c_ast.cc:392-415 | the same for a whole body through its gotos |
| CPruning.PruningKeepsBehaviourExactly | core/c_ast.cc:392-415 | for every machine, fuel and store: the built block behaves as the list with nothing left out from all entries if and only if what is left out holds no label or case label, when no mark is both left out and kept |
| CPruning.PrunedFunctionExactly | core/c_ast.cc:392-415 | the same for a whole body through its gotos |
| CPruning.DistinctIsLostForGood | core/c_ast.cc:392-415 | that no mark is both left out and kept follows from marks being distinct, as C asks of labels |
| CPruning.NestedLabelIsLost | core/c_ast.cc:392-415 | a label nested in a dropped block is lost: entering there finds nothing |
| CPruning.GotoIntoDroppedBlockIsLost | core/c_ast.cc:392-415 | so is a whole body run from its start: `goto again; { again: }` no longer reaches its label |
| RelocationApplier.ApplyRelocations | core/relocation_applier.cc:46-120 | the in-place loop computes `Applied`, of which the rows below speak, and collects exactly the names it could not resolve |
| RelocationApplier.HiLoIdentity | core/relocation_applier.cc:94-106 | the carried high half and the sign-extended low half of any address add up to it modulo 2^32 |
| RelocationApplier.HiLoPair | core/relocation_applier.cc:81-106 | with distinct targets, each high relocation and its first later low one of the same symbol add up to symbol plus low addend; the upper halves of both words are kept |
| RelocationApplier.HighAddendExactly | core/relocation_applier.cc:81-106 | the pair comes out at symbol plus the whole addend in the two words, high half included, if and only if the high word holds no high half yet |
| RelocationApplier.HighAddendIsIgnored | core/relocation_applier.cc:81-106 | a pair of words whose high addend is dropped |
| RelocationApplier.UntouchedWords | core/relocation_applier.cc:46-120 | a word that no relocation patches stays as it is |
| RelocationApplier.PatchedOnce | core/relocation_applier.cc:46-120 | with distinct targets a patched word depends on its original value alone |
| RelocationApplier.JumpsMove | core/relocation_applier.cc:73-79 | a patched jump leads to symbol plus four times its field if and only if that is aligned and in the same 256 MB region; its opcode is kept |
| RelocationApplier.DecodedJump | core/mips.cc:367-369 | the decoded jump target of the patched word, under the same condition |
| RelocationApplier.ImmediateOpcodeKept | core/relocation_applier.cc:94-106 | replacing the low half keeps opcode and register fields |
| HiLoTracking.SeenIsLive | core/relocations.cc:182-266 | what an instruction sees for a register is the lui that nothing overwrote and no return or jump preceded, and nothing when there is none |
| HiLoTracking.PairsAreLive | core/relocations.cc:204-245 | an instruction completes a pair if and only if it is a consumer and such a lui is live for its base, and then it completes that one |
| HiLoMeaning.RecordedTargetIsComputed | core/relocations.cc:182-245 | on every run of the register machine the target recorded for a consumer is the address that the consumer computes, if and only if no call between the lui and the consumer clobbers the register |
| HiLoTracking.RecoversPatchedAddress | core/relocations.cc:182-266 | on patched code, a live lui and consumer other than ori give back symbol plus low addend, the address the relocations put there |
| HiLoTracking.DelaySlotIsNotPaired | core/relocations.cc:199-202 | a consumer in the delay slot of a jump is not paired, although its lui is in force |
| HiLoTracking.DelaySlotExactly | core/relocations.cc:199-262 | in any code, a consumer whose lui is in force at the instruction before it is paired if and only if that instruction is no jump or return |
| HiLoTracking.RelocationTracker.Analyze | core/relocations.cc:182-266 | records both halves of exactly the completed pairs with a valid target, one entry for each address, found through the index |
| HiLoTracking.RelocationTracker.FindRelocation | core/relocations.cc:159-165 | finds what was recorded last for the address |
| HiLoTracking.ConsumerIsFound | core/relocations.cc:182-266 | after analysing code with distinct addresses, the record of a consumer is the low half of the pair it completes |
| HiLoTracking.NamedTargetIsTarget | core/relocations.cc:114-141 | resolving the recorded name and adding the addend gives the target if and only if a registered symbol names it or its synthesized name is free |
| Symbols.ValidateSymbolRegistry | core/symbol_registry.cc:46-71 | accepts exactly the registries without an empty name, untyped entry or duplicate; else names the first offender and its fault |
| Symbols.SymbolIndex.RebuildIndex | core/symbol_registry.cc:144-161 | both hash indices hold, for every key, the last entry with it; the address order lists each entry once |
| Symbols.SymbolTable.FindByAddress | core/symbol_registry.cc:213-216 | agrees with a linear scan of the registry |
| Symbols.SymbolTable.FindByName | core/symbol_registry.cc:218-221 | agrees with a linear scan of the registry |
| Symbols.FoundIsTheEntry | core/symbol_registry.cc:213-221 | in a validated registry both lookups give back each entry |
| Symbols.SynthesizedSpells | core/symbol_registry.cc:231-245 | every synthesized name, of every kind, spells its address when resolved as text |
| Symbols.NamingRoundTrip | core/symbol_registry.cc:231-310 | resolving the looked-up or synthesized name returns the address, for every address and fallback, if and only if the address is registered or no entry has taken the synthesized name |
| Symbols.NamingWithoutRegistry | core/symbol_registry.cc:256-310 | without a registry every synthesized name resolves |
| Disassembly.Disassembler.PreScanCode | core/disassembler.cc:46-71 | adds as entrypoints exactly the call targets in memory, and as labels exactly the branch targets and the jump targets inside the buffer |
| Disassembly.FindEnd | core/disassembler.cc:73-145 | the boundary pass ends the function at the first entrypoint after its start, or at the first return that nothing up to it jumps over, extended over padding up to a marked address or other word, or at the end of the buffer |
| Disassembly.EndIsUnique | core/disassembler.cc:73-145 | these cases determine the boundary |
| Disassembly.EndInBuffer | core/disassembler.cc:73-145 | a function takes at least 4 bytes and stops at a word boundary or at the end of the buffer |
| Disassembly.InteriorEntryIsDelaySlot | core/disassembler.cc:85-98 | a known entrypoint inside a function can only be the delay slot of the return that ends it |
| Disassembly.NothingJumpsPastTheReturn | core/disassembler.cc:107-142 | no branch up to the terminating return leads forward past it, nor does a j that stays in the buffer, by the wrapped addresses that the code compares; on buffers that do not wrap, none leads past it at all |
| Disassembly.Disassembler.DisassembleFunction | core/disassembler.cc:73-285 | fails exactly on buffers under 4 bytes; else name, addresses, every word of the function, the function verdict, and a label on exactly the words that are targets |
| Disassembly.Disassembler.DisassembleAllFunctions | core/disassembler.cc:306-343 | ends, changes nothing in the disassembler, and on every buffer gives its slices up to the first function of 2^32 bytes or more; without one, the slices of the whole buffer |
| Disassembly.SmallBufferIsSliced | core/disassembler.cc:306-343 | a buffer below 2^32 bytes is sliced whole |
| Disassembly.FunctionsTile | core/disassembler.cc:306-343 | the functions are adjacent, and together hold every word of the buffer once and in order |
| Disassembly.FunctionsHoldTheBuffer | core/disassembler.cc:306-343 | on buffers of whole words the raw words of the functions concatenate to the buffer |
| Disassembly.EntriesStartFunctions | core/disassembler.cc:306-343 | every known entrypoint in the buffer starts a function, or is the delay slot of a return inside one |
| Disassembly.HowFunctionsEnd | core/disassembler.cc:73-145 | in a buffer that does not wrap around, each function of a run ends behind the first of its returns that no branch of it up to there leads past, after its delay slot and all padding that follows; a function without such a return runs up to an entrypoint or to the end of the buffer |
| Disassembly.CalledIsEntry | core/disassembler.cc:46-71 | every call target in memory is such an entrypoint |
| Disassembly.TargetsAreLabelled | core/disassembler.cc:46-71 | the target of every branch, and of every j that stays in the buffer, carries its label if it is a word of the buffer |
| LabelRenaming.ReplaceWordToken | core/assembly_aligner.cc:134-155 | the in-place search and replace loop replaces the label wherever it stands as a whole token, and nowhere else |
| LabelRenaming.RenameComposes | core/assembly_aligner.cc:197-208 | renaming twice is renaming once by the composed map |
| LabelRenaming.TokensAreMapped | core/assembly_aligner.cc:134-155 | renaming maps every token of a text, and no other token appears |
| LabelRenaming.RenamingIsUndone | core/assembly_aligner.cc:134-155 | an injective renaming to labels not in the text is undone by its inverse |
| LabelRenaming.RenamedTokens | core/assembly_aligner.cc:134-155 | the tokens of a renamed text are those inside the new labels and the old ones that stay, for new labels of any shape |
| FunctionLabels.PassesAreSimultaneousExactly | core/assembly_aligner.cc:197-208 | for every line, function name and order of labels: the passes label by label are one simultaneous renaming if and only if no new label that the line gets holds a label of a later pass |
| FunctionLabels.AlwaysSimultaneousExactly | core/assembly_aligner.cc:197-208 | they are so on every line if and only if no new label holds a label of a later pass |
| FunctionLabels.PassesAreSimultaneous | core/assembly_aligner.cc:197-208 | longest first and a function name of word characters meet that condition |
| FunctionLabels.NameMustBeWord | core/assembly_aligner.cc:197-208 | a name that does not meet it, and a line on which the passes differ |
| FunctionLabels.RenameLabels | core/assembly_aligner.cc:178-208 | every line comes out after one pass for each label that the function defines, longest first |
| FunctionLabels.InPassesIsAtOnceExactly | core/assembly_aligner.cc:178-208 | the lines that come out have all labels of the function renamed at once if and only if no new label that some line gets holds a label of a later pass |
| FunctionLabels.InPassesIsAtOnce | core/assembly_aligner.cc:178-208 | so they have for function names of word characters, whatever the order among labels of one length |
| FunctionLabels.OldLabelsAreGoneExactly | core/assembly_aligner.cc:178-208 | a renamed line holds no old label if and only if no label that it held has a new label that holds one |
| FunctionLabels.OldLabelsAreGone | core/assembly_aligner.cc:178-208 | that is so when no old label starts with `.L_sp_` and the name consists of word characters; tokens are then mapped one by one |
| FunctionLabels.OldLabelsAreGoneAsRun | core/assembly_aligner.cc:178-208 | for the passes as they run, any name and any order: a line holds no old label at the end if and only if no label that it held becomes one through the passes |
| FunctionLabels.PassesTokens | core/assembly_aligner.cc:134-154 | the tokens of a text after the passes are what each of its tokens becomes, pass by pass |
| FunctionLabels.NewLabelsDiffer | core/assembly_aligner.cc:203 | generated labels of one function are different for different labels |
| FunctionLabels.NewLabelsMeetExactly | core/assembly_aligner.cc:203 | labels of two functions become one if and only if they are one label of one function, or one function name goes on from the other with an underscore and the suffix of the other's label spells the rest |
| FunctionLabels.NewLabelsDifferAcross | core/assembly_aligner.cc:203 | in particular they differ when the suffixes hold no underscore |
| FunctionLabels.NewLabelsCanMeet | core/assembly_aligner.cc:203 | two labels that become one |
| Splicing.ParseAssemblyFunctions | core/assembly_aligner.cc:47-103 | the spans found are opened by their `.ent` and closed by an `.end` or `.size` that begins with their name, in order and disjoint; between them no line opens a function that is closed; a later function of the same name replaces an earlier one |
| Splicing.ClosesAtOwnEndExactly | core/assembly_aligner.cc:63-70 | a function closes at the first line that closes its own name if and only if no such line for a longer name that begins with it comes before |
| Splicing.EndsAtOwnSizeExactly | core/assembly_aligner.cc:72-84 | a closed function ends at the first size line of its own name in the window if and only if no size line for a longer name that begins with it comes before |
| Splicing.PassedOverExactly | core/assembly_aligner.cc:47-103 | a function that is closed is passed over if and only if its first line lies behind the `.ent` of a span, up to the line that closes the span or, behind that, up to the size line that extends it |
| Splicing.SizeLineSwallowsFunction | core/assembly_aligner.cc:72-84 | `.size FooBar` extends Foo over the whole of FooBar: every parse of that text finds the one span of Foo |
| Splicing.LongerNameClosesFirst | core/assembly_aligner.cc:63-70 | `.end FooBar` closes Foo |
| Splicing.SortFunctions | core/assembly_aligner.cc:124-132 | the parsed functions, each once, in the order of their lines |
| Splicing.WrappingOnlyAddsMarks | core/assembly_aligner.cc:220-243 | wrapping adds its two directives and nothing else |
| Splicing.NomoveStaysExactly | core/assembly_aligner.cc:220-243 | `.set nomove`, as wrapping writes it, is in force at the end of a wrapped function if and only if some entry line, or such a directive of the function itself, has no exact `.end` line and no `.set move` after it, or it was in force before and none of them occurs |
| Splicing.SplicePerFunctionAssembly | core/assembly_aligner.cc:105-254 | the output is the base file with a right body in place of each function: its own lines, or those of its flag set's file with labels renamed, wrapped exactly when its flags ask for it |
| Splicing.SplicingConserves | core/assembly_aligner.cc:157-252 | every gap between functions comes out unchanged and in order, at the place that the lengths of the bodies before it give, with each body right after its gap |
| Splicing.DefaultFlagsKeepTheFile | core/assembly_aligner.cc:157-252 | when the base file provides every function, only wrapper directives are added; without wrapping the output is the input |

## Left out

- Disassembly.Disassembler.DisassembleAllFunctions: after a function of 2^32 bytes or more, whose `Size()` is wrong in 32 bits, nothing is promised of the functions that follow.
- TrackerSoundness.StepSound: the machine writes nothing for words that decode to opcode Unknown, although some real ones, such as ll and dmfc0, write rt; and a call through `jalr` with another link register keeps $ra, although the callee's own calls may change it.
- CUnchanged.LeavesExec: besides the verdicts of the visitors it asks that no part of the variable is written or addressed, that the store holds no pointer into it, and that operators make none; `CUnchanged.MemberWriteGoesUnnoticed` and `CUnchanged.MemberAddressGoesUnnoticed` show why, and `CUnchanged.WritesExactly` and `CUnchanged.AddressesExactly` say what is missed.
- CSubstitution.SubstitutionMeansBinding: excludes `&`, function-pointer casts of the name and direct members of it, where rewriting an lvalue is not binding a value.
- CRenameStatements.MutatorIsWholeExactly: asks that no function-pointer cast spells the variable, as such names are rewritten as text.
- Sha1Standard.PaddedIsPadding: for messages below 2^61 bytes, where the standard's 64-bit length is defined; the streaming theorems hold for all lengths with the 64-bit length wrapped.
- Per-sequence scoring inside `DetermineReturnsV0` and `DetermineReturnsF0`, and delay-slot stripping: edge and block effects are arbitrary functions, and the fixpoints are proved for all of them.
- `MatchDivisionPattern` and the jump table detector: their results are inputs of `Build`.
- Bit masks of the must-defined analysis are sets of registers.
- `std::sort` is insertion sort; the orders are total, or the results hold for every order of ties.
- The instruction stored inside a reaching definition, which repeats the one at its index.
- Seeding a tracker at block entries and from outside (`PrepareForBlock`, `SetEntryParameter`, the setters): soundness starts from `Reset`.
- lwl and lwr are modelled as the source lists them, with no read of their target register.
- Floating-point values, the upper halves of 64-bit registers and memory contents: arbitrary in the machine of the tracker.
- Scoping, arrays as declared objects and parameters in the C semantics: a variable is one place for a whole body.
- gotos into a nested block resume at the label with the enclosing loops entered as if from there; variable lifetimes are not modelled.
- `MayAliasMemoryExpressions`, counting and collecting visitors, `HasReturnValue`: bookkeeping or compiler-specific rules.
- `Clone` and `ToString` of the C tree: copies and text of values.
- Assembly text of instructions, reports and DOT output: long tables with little to prove; of the text of a function only which words carry labels is modelled.
- Relocations printed by the disassembler: `HiLoTracking` models what they are.
- ELF, ROM and configuration reading, protobuf text, process control and compiler orchestration: input and output. `ReadAssemblyLines` is replaced by its lines and file hashing by its portions.
- Parsed function maps are iterated in an arbitrary order before sorting, as hash maps are.
