# Verification of the subnet's proof, codec and policy logic

This project models the parts of the Verathos neurons whose correctness rests on
index arithmetic, byte formats, algebra over finite sums or long runs of a state
machine, and proves what they are for.

* **Hot-capacity proof.** Workspace Merkle trees of any leaf count, strict paths,
  the opened state blocks reassembled into matrix bands, zero padding, multilinear
  evaluation, the pseudo-random fill in its scalar and its vector form, and the
  sampled memory transition. `CapacityGemm.TerminalRelation` joins them: whatever
  openings are accepted against the two roots, the Q block is the product of the
  two bands and satisfies the relation the terminal evaluations compare.
* **Signed encodings.** The owner's verdict snapshot with its cursor parser and the
  follower's anti-replay floor, the four nested generations of the receipt message,
  and the capacity statement and payload.
* **Policy machines.** The sliding-window rate limiter, the auto-updater's installer
  lane under every interleaving, the hard-proof strike tracker, the canary schedule
  and its dispatch queue, and the score aggregation with its emission split.

Modules follow the source files. Code that changes state is a class or a method
with loops, proved equal to a specification function; the theorems are lemmas
about those functions, for every input, every run or every interleaving. The
auto-updater's interleavings are runs of a step machine, and a call whose thread
moves alone is proved to end as the method's specification says
(`AutoUpdate.NotifyAlone`, `CheckAlone`).

The hash is a parameter `h: Bytes -> Bytes` whose results are 32 bytes long. Such a
function cannot be injective, so binding is not proved from injectivity: each
binding lemma says that what was opened is what was committed, or that a named
function returns two different byte strings with the same hash. Under an injective
hash the second case is impossible and the lemma is the plain statement.

## What the code does beyond, or short of, what it says

* `CapacityGemmV2Payload.from_mapping` compares the version by `!=`, so a float 2.0 is
  accepted; every other accepted mapping is the canonical one
  (`CapacityEncoding.FloatVersionAccepted`, `MappingCanonicalIffInteger`).
* For `matrix_dim` equal to 2^17, the largest the context admits, a product entry
  leaves the 32-bit range exactly when both vectors are all -128
  (`Multilinear.EntryFitsExactly`, `OverflowAtLimit`).
* The transition opener takes sibling directions from the path, so a block index is
  bound exactly when the path's directions lead to it; a relabelled honest block is
  accepted (`WorkspaceTransition.IndexBoundExactly`, `RelabelledPasses`).
* The rate limiter's cleanup uses the window of the request that triggers it. The
  bound of a key holds on every run exactly when no caller uses a smaller window
  (`RateLimit.BoundedExactly`).
* The receipt's commitment and hotkey carry no length. First-generation receipts of
  two pairs of lengths are told apart exactly when the pairs are equal or their sums
  differ (`ReceiptLengths.FirstExactly`). In the later generations equal sums are
  told apart only for equal pairs (`EqualSumsExactly`), and the counted timing source
  can absorb a difference of twelve bytes or more (`SecondExactly`, which is exact,
  and `NotOver`).
* A sibling digest's text is checked for 64 characters, but `bytes.fromhex` skips
  white space: the digest has 32 bytes exactly when the text has none
  (`PathFormat.DigestLengthExactly`). Binding holds for digests of any length.
* The performance sample is robust against one signer exactly when the minimum is
  three or more (`Medians.RobustExactly`); every caller uses the default, three.
* Marked hard-audit tests are drawn over the whole epoch. They leave the completion
  reserve that the light request and every retry keep, for every endpoint and draw,
  exactly when the full reserve is one block (`CanarySchedule.ReserveExactly`).
* The canary's light request at the advertised context fits it exactly when its
  decode is smaller than the context (`CanarySchedule.AdvertisedFitsExactly`).
* A strike table with an empty address or a negative index can be saved but not
  loaded (`FailureStrikes.ReloadExact`).
* The auto-updater's lane stays claimed with nobody in it exactly when a call inside
  it has raised or a thread has restarted (`AutoUpdate.StuckExactly`); from then on
  drain stays requested in every continuation (`RaiseKeepsDrain`).

## Model

| member | source | states |
|---|---|---|
| MerkleTree.HonestPath | neurons/capacity_audit_workspace_proof.py:752-772 | the path of leaf i has the directions of i's bits and folds to the root, for every leaf count, odd levels included |
| MerkleTree.PathBinding | neurons/capacity_audit_workspace_proof.py:871-882 | a path of the tree's height that folds to the root starts from the leaf its directions lead to, or gives away a collision |
| MerkleTree.PayloadBinding | neurons/capacity_audit_workspace_proof.py:871-898 | a path of any length and any directions accepted against the root opens the payload at the place it leads to, with the tree's height, or gives away a collision; a leaf cannot pass for a node |
| MerkleTree.StrictPayloadBinding | neurons/capacity_audit_v2.py:731-770 | a strict path for leaf i opens exactly the payload committed at i, or gives away a collision |
| MerkleTree.LooseBindingExact | neurons/capacity_audit_workspace_proof.py:885-898 | without the strict check, the opened payload is the one at i exactly when the path's directions lead to i |
| MerkleTree.CheckStrictPath | neurons/capacity_audit_v2.py:731-770 | over decoded entries, the loop accepts exactly the paths with the right index, the tree's height and the index's directions |
| MerkleTree.StrictExactly | neurons/capacity_audit_v2.py:731-770 | a path is accepted exactly for the expected leaf, with a step for each doubling up to the number of leaves and the bits of the leaf index as directions; otherwise the first of the three to fail is the error |
| PathFormat.StrictMerklePath | neurons/capacity_audit_v2.py:731-770 | the whole reading of a path from its decoded JSON form: every check of the source in its order, the first error or the steps |
| PathFormat.ReadExact | neurons/capacity_audit_v2.py:731-770 | a form reads to a path exactly when its entries spell the path's digests and directions, the leaf index equals the expected one and the path is strict |
| PathFormat.PrintedReads | neurons/capacity_audit_v2.py:731-770 | every strict path of 32-byte digests is read back from its printed form |
| PathFormat.DigestLengthExactly | neurons/capacity_audit_v2.py:752-761 | a digest text of 64 characters gives 32 bytes exactly when it has no white space, and never more |
| MerkleTree.TreeHeight | neurons/capacity_audit_v2.py:722-728 | the halving loop computes the number of levels above the leaves |
| MerkleTree.VerifyPath | neurons/capacity_audit_workspace_proof.py:871-882 | the path loop accepts exactly when the fold of the leaf along the path is the root |
| WorkspaceTree.ComputeLevelSizes | neurons/capacity_audit_workspace_proof.py:557-565 | the sizes of all levels of the layout |
| WorkspaceTree.ComputeLevelOffsets | neurons/capacity_audit_workspace_proof.py:568-572 | where each level begins in the flat list |
| WorkspaceTree.Layout | neurons/capacity_audit_workspace_proof.py:557-572 | every level of the flat node list stands between its offset and the next |
| WorkspaceTree.LastNodeIsRoot | neurons/capacity_audit_workspace_proof.py:744-746 | the last node of the flat list is the root computed from the leaves |
| WorkspaceTree.PairUp | neurons/capacity_audit_workspace_proof.py:666-671 | one round of the pairing loop is the next level, the odd last node hashed with itself |
| WorkspaceTree.RootFromLeaves | neurons/capacity_audit_workspace_proof.py:660-671 | the level-by-level loop computes the recursive root for every non-empty list |
| WorkspaceTree.Tree.constructor | neurons/capacity_audit_workspace_proof.py:691-709 | the constructor's appended nodes and offsets are the flat layout of its leaves |
| WorkspaceTree.Tree.FromFlatTree | neurons/capacity_audit_workspace_proof.py:711-722 | accepts exactly a byte string of the node count and cuts it into a valid tree of those nodes |
| WorkspaceTree.Tree.GetRoot | neurons/capacity_audit_workspace_proof.py:744-746 | returns the last node |
| WorkspaceTree.Tree.GetPath | neurons/capacity_audit_workspace_proof.py:848-868 | the path loop reads the sibling of every level from the flat list |
| WorkspaceTree.HonestPathIn | neurons/capacity_audit_workspace_proof.py:752-772 | the path read from the flat list is the recursive honest path |
| WorkspaceTree.HonestOpening | neurons/capacity_audit_v2.py:731-770 | the path of every leaf passes the strict check and verifies against the root |
| WorkspaceTree.SplitJoined | neurons/capacity_audit_workspace_proof.py:718-719 | cutting the joined nodes gives the nodes back |
| WorkspaceTree.RoundTrip | neurons/capacity_audit_workspace_proof.py:711-722 | building, joining, reloading and opening gives the same root and the same strict path for every leaf |
| CapacityEncoding.EncodeRecord | neurons/capacity_audit_v2.py:71-82 | the growing buffer is the record of the fields, and an empty label or an unpackable length is an error |
| CapacityEncoding.RecordInjective | neurons/capacity_audit_v2.py:71-82 | equal records come from equal field lists |
| CapacityEncoding.ContextExactly | neurons/capacity_audit_v2.py:170-262 | which contexts the constructor admits, derived indices aside: bounded texts, 32-byte roots, indices below their counts, one mix mode at most, and block coordinates among the n blocks of a row |
| CapacityEncoding.IdentifierExactly | neurons/capacity_audit_v2.py:60 | an identifier is 1 to 128 lower-case letters, digits and, after the first, separators |
| CapacityEncoding.DimensionsExactly | neurons/capacity_audit_v2.py:203-230 | the dimensions pass exactly when the block size is a power of two from two up, the matrix is n such blocks wide within the limit, and both coordinates are below n |
| CapacityEncoding.CanonicalBytesInjective | neurons/capacity_audit_v2.py:314-349 | two valid contexts with the same canonical bytes are equal, although an absent state root is written as 32 zero bytes |
| CapacityEncoding.PayloadBytesExact | neurons/capacity_audit_v2.py:617-656 | a byte string parses to p exactly when p is valid and the bytes are its printed form |
| CapacityEncoding.HexRoundTrip | neurons/capacity_audit_v2.py:658-663 | hex text of any bytes parses back to them |
| CapacityEncoding.MappingExact | neurons/capacity_audit_v2.py:658-695 | a mapping parses to p exactly when p is valid and the mapping is printed from p, its version being any number equal to 2 |
| CapacityEncoding.MappingCanonicalIffInteger | neurons/capacity_audit_v2.py:665-695 | an accepted mapping is the canonical one exactly when its version is an integer |
| CapacityEncoding.FloatVersionAccepted | neurons/capacity_audit_v2.py:672-677 | for every payload a mapping with the float 2.0 is accepted and is not canonical |
| WorkspaceState.KindsSeparated | neurons/capacity_audit_workspace_proof.py:32-37 | leaf and node tags have one length and differ, in both trees; those of the state tree have 32 bytes |
| WorkspaceState.UnpackInterleaved | neurons/capacity_audit_v2.py:791-812 | unpacking the even and odd rows of a packed block gives back its A and its B block |
| WorkspaceState.CutInterleaved | neurons/capacity_audit_workspace_proof.py:628-630 | rows 2r and 2r+1 of the packed block are row r of A and of B |
| WorkspaceState.BlockWordsInjective | neurons/capacity_audit_workspace_proof.py:575-582 | equal 32-bit serialisations of blocks of one shape come from equal blocks |
| WorkspaceState.AtCoordinates | neurons/capacity_audit_v2.py:310-312 | block coordinates and block index determine each other |
| WorkspaceState.StatePayloadAt | neurons/capacity_audit_workspace_proof.py:830-842 | the leaf at the index of block (i, j) is the packed pair of blocks at (i, j) |
| WorkspaceState.FromStateMatrices | neurons/capacity_audit_workspace_proof.py:813-842 | accepts exactly non-empty square matrices of one size divisible by the block size and builds the tree of all packed blocks in row order |
| WorkspaceState.StateLeaves | neurons/capacity_audit_workspace_proof.py:830-842 | the nested loops yield the leaf hashes of all packed blocks in row order |
| TransitionBands.RequiredExactly | neurons/capacity_audit_v2.py:815-829 | the required blocks are 2·blocks_per_row-1 ascending indices, and exactly those in the challenged block row or block column |
| TransitionBands.RequiredStateBlocks | neurons/capacity_audit_v2.py:815-829 | the two loops and the sort compute exactly that list, or the empty one without transition rounds |
| TransitionBands.TransitionBands | neurons/capacity_audit_v2.py:832-896 | the whole reassembly, its block list, its checks in order and its two filling loops, is the specification of the bands or its first error |
| TransitionBands.CheckOpenings | neurons/capacity_audit_v2.py:849-883 | the loop accepts exactly openings without an error and collects their blocks by index |
| TransitionBands.AssembleX | neurons/capacity_audit_v2.py:884-889 | the column loop fills the row band block by block |
| TransitionBands.AssembleW | neurons/capacity_audit_v2.py:891-896 | the row loop fills the column band block by block |
| TransitionBands.StateBinding | neurons/capacity_audit_v2.py:832-896 | every opening list accepted against the root of int8 matrices A and B yields exactly A's row band and B's column band, or gives away a collision |
| TransitionBands.StateCompleteness | neurons/capacity_audit_v2.py:832-896 | the honest openings of the required blocks are accepted and yield those bands |
| TransitionBands.QBinding | neurons/capacity_audit_v2.py:773-788 | an accepted Q block is the block of Q committed at the challenged place, or gives away a collision |
| TransitionBands.QCompleteness | neurons/capacity_audit_v2.py:773-788 | the block of Q at the challenged place with its own path is accepted |
| Multilinear.MleEvaluate | neurons/capacity_audit_v2.py:966-983 | the halving loop computes the folded value, with the size and coordinate errors |
| Multilinear.MleIsExtension | neurons/capacity_audit_v2.py:966-983 | the loop's value is the sum over all indices of the value times the product of eq(bit, coordinate), first coordinate on the top bit, modulo p |
| Multilinear.WeightIsEqProduct | neurons/capacity_audit_v2.py:966-983 | the weight the folding gives to index b is that product over b's bits |
| Multilinear.MatrixExtension | neurons/capacity_audit_v2.py:986-987 | the row-major extension of a matrix is the row weights applied to the matrix applied to the column weights |
| Multilinear.SwappedHalves | neurons/capacity_audit_v2.py:1019-1023 | the transposed matrix at the swapped point halves evaluates to the same value |
| Multilinear.NativeRefinesFallback | neurons/capacity_audit_v2.py:990-1031 | the native path, transposing when there are more rows than columns, equals the fallback at every point of every int8 matrix with power-of-two sides, errors included; for other sides neither gives a value |
| Multilinear.ProductExtension | neurons/capacity_audit_v2.py:1098-1113 | the extension of X·W at (r, c) is the sum over the inner cube of X's at (r, k) times W's at (k, c) |
| Multilinear.PaddedInner | neurons/capacity_audit_v2.py:302-308 | the padded inner dimension is at least the dimension and less than twice it |
| Multilinear.PaddingKeepsProduct | neurons/capacity_audit_v2.py:949-963 | zero padding of the inner dimension leaves X·W unchanged |
| Multilinear.GemmRelation | neurons/capacity_audit_v2.py:1067-1113 | the evaluation of the product of the bands at (r, c) is that sum over the padded inner cube modulo p |
| Multilinear.EntryFitsExactly | neurons/capacity_audit_v2.py:698-719 | up to the largest dimension a product entry fits 32 bits except when the dimension is 2^17 and both vectors are all -128 |
| Multilinear.ProductFits | neurons/capacity_audit_v2.py:698-719 | below 2^17 every entry of a product of int8 matrices fits 32 bits |
| Multilinear.OverflowAtLimit | neurons/capacity_audit_v2.py:203-205 | at dimension 2^17 the all -128 vectors reach 2^31 |
| CapacityGemm.ProductBlock | neurons/capacity_audit_v2.py:1067-1097 | a block of A·B is the product of A's row band and B's column band |
| CapacityGemm.TerminalRelation | neurons/capacity_audit_v2.py:1067-1113 | end to end: when the roots commit to A, B and A·B, accepted openings give a Q block that is the product of the reassembled bands and satisfies the evaluation identity, or a collision |
| WorkspaceFill.ValueAfterMix | neurons/capacity_audit_workspace_proof.py:136-200 | the scalar loop computes the fill value and its mix rounds at row·dim+col, for every integer dimension, with the errors for negative rounds and for a division by zero |
| WorkspaceFill.ValuesAfterMix | neurons/capacity_audit_workspace_proof.py:203-259 | the vector form yields for every index what the scalar form yields, with its errors |
| WorkspaceFill.WordSplitMixIsSplitMix | neurons/capacity_audit_workspace_proof.py:233-240 | the wrapping 64-bit form of the mixer equals the masked form |
| WorkspaceFill.OffsetRefinesMixed | neurons/capacity_audit_workspace_proof.py:203-259 | keeping bytes offset by 128 and converting to two's complement first stay 128 apart through every mix round |
| WorkspaceFill.VectorRefinesScalar | neurons/capacity_audit_workspace_proof.py:100-259 | for every index below 2^64, matrix and round count both forms give one value |
| Bits.OffsetMask | neurons/capacity_audit_workspace_proof.py:127-133 | adding 128 modulo 256 commutes with XOR by any mask |
| Bits.XorBits | neurons/capacity_audit_workspace_proof.py:100-133 | every bit of an exclusive or is set when one of the two operand bits is |
| WorkspaceFill.SplitMixExactly | neurons/capacity_audit_workspace_proof.py:100-106 | the mixer step by step, its shifts and exclusive ors stated bit by bit |
| WorkspaceFill.FillDrawn | neurons/capacity_audit_workspace_proof.py:100-124 | the hashed word of a fill value is, bit by bit, the parity of seed, pass, round, index and the matrix constant, each modulo 2^64 |
| WorkspaceFill.MaskDrawn | neurons/capacity_audit_workspace_proof.py:179-198 | the same for a mix mask, with the mix index, twice or four times the index and the offset of the matrix |
| WorkspaceTransition.ExpectedValues | neurons/capacity_audit_workspace_proof.py:310-342 | the lane loop computes the two updated values |
| WorkspaceTransition.SourcesDrawn | neurons/capacity_audit_workspace_proof.py:295-306 | the two elements a lane reads are hashed words modulo the number of elements, each word the parity of key, mix index, lane and element terms |
| WorkspaceTransition.MasksDrawn | neurons/capacity_audit_workspace_proof.py:331-339 | and so are the two byte masks of a lane |
| WorkspaceTransition.ExpectedIsSum | neurons/capacity_audit_workspace_proof.py:328-342 | the first value is, modulo 256, the own byte of A plus the sum over the lanes of the read byte of B masked; the second mirrors it; both are int8 |
| WorkspaceTransition.EveryReadCounts | neurons/capacity_audit_workspace_proof.py:328-342 | changing one read byte of B, or the own byte of A, to another byte changes the first value, and nothing else read of A or B does; the second value mirrors it |
| WorkspaceTransition.ElementBound | neurons/capacity_audit_workspace_proof.py:345-373 | statements of one shape that differ in a root, the challenge, the lease or the lane coordinates draw different elements under some hash |
| WorkspaceTransition.OpenStateBlocks | neurons/capacity_audit_workspace_proof.py:1367-1408 | the opening loop refuses on the first bad block or returns the blocks by index |
| WorkspaceTransition.OpenedExactly | neurons/capacity_audit_workspace_proof.py:1367-1408 | count plus subset make the opened indices exactly the required ones, each opened once |
| WorkspaceTransition.BlockPassesExactly | neurons/capacity_audit_workspace_proof.py:1266-1297 | one block passes exactly when it holds 16-bit numbers in squares of the block size, its index is in range and the path's, and the path leads from its bytes to the root |
| WorkspaceTransition.AcceptedCovers | neurons/capacity_audit_workspace_proof.py:1300-1459 | an accepted opening has the derived element and exactly the required blocks before and after |
| WorkspaceTransition.RequiredReads | neurons/capacity_audit_workspace_proof.py:1345-1366 | the blocks required before the step are that of the element and those of the elements its lanes read, and no others |
| WorkspaceTransition.AcceptedUpdate | neurons/capacity_audit_workspace_proof.py:1300-1459 | its opened values satisfy the update modulo 256 at the derived element, and are the fill values when the mix index is 0 |
| WorkspaceTransition.ChangedReadRefused | neurons/capacity_audit_workspace_proof.py:1300-1459 | of two openings with one after-value at most one is accepted when the values they read differ in one byte that enters either value |
| WorkspaceTransition.TransitionSound | neurons/capacity_audit_workspace_proof.py:1300-1459 | with strict paths the committed states themselves satisfy the update at the derived element, or a collision is given away |
| WorkspaceTransition.NextSteps | neurons/capacity_audit_workspace_proof.py:310-342 | the updated state steps correctly at every element |
| WorkspaceTransition.FilledState | neurons/capacity_audit_workspace_proof.py:376-419 | for every key there is a state that holds the fill value at every element |
| WorkspaceTransition.TransitionComplete | neurons/capacity_audit_workspace_proof.py:1300-1459 | for two states that obey the rule at the derived element, the honest opening of exactly the required blocks, in any order, is accepted |
| WorkspaceTransition.HonestUpdateAccepted | neurons/capacity_audit_workspace_proof.py:1300-1459 | whoever updates every element of a state, the filled one when the mix index is 0, and opens the required blocks is accepted, whatever element is drawn |
| WorkspaceTransition.EntryOfBlock | neurons/capacity_audit_workspace_proof.py:1244-1263 | the value of an element is found in the block of its index at the element's place |
| WorkspaceTransition.RelabelledPasses | neurons/capacity_audit_workspace_proof.py:1266-1297 | an honest block is accepted under any other index in range |
| WorkspaceTransition.IndexBoundExactly | neurons/capacity_audit_workspace_proof.py:1266-1297 | an accepted block is the one committed at its index exactly when its path leads there |
| RateLimit.RateLimiter.Check | neurons/rate_limit.py:75-94 | one check: cleanup when due, pruning, the denial with its retry time or the new entry, equal to the specified step and result |
| RateLimit.RateLimiter.Cleanup | neurons/rate_limit.py:96-101 | exactly the buckets that are empty or whose last entry is older than the window go |
| RateLimit.SlidingWindow | neurons/rate_limit.py:75-101 | on every run with a clock that does not go back and no window below the key's, any interval (T-W, T] holds at most L allowed requests of the key, whatever other keys and cleanups do |
| RateLimit.AdmissionExact | neurons/rate_limit.py:75-94 | on every run a call is allowed exactly when fewer than its limit of the key's allowed calls lie in the window ending now, and is told how many more there is room for |
| RateLimit.RemainingExactly | neurons/rate_limit.py:75-94 | after an allowed call exactly that many repetitions at the same time are allowed and every further one is denied |
| RateLimit.StepOnOthers | neurons/rate_limit.py:75-101 | a check leaves the other keys alone unless a minute has passed since the last cleanup; then exactly the empty and expired ones go |
| RateLimit.RunKeeps | neurons/rate_limit.py:75-101 | the bucket is the end of the key's history, what is missing has expired, and entries L apart are a window apart |
| RateLimit.RetryIsAllowed | neurons/rate_limit.py:89-91 | a denied caller who returns after retry_after with no call between is allowed |
| RateLimit.RetryIsLeast | neurons/rate_limit.py:89-91 | and who returns more than a second before it, with no call between, is denied again |
| RateLimit.ShorterWindowBreaks | neurons/rate_limit.py:96-101 | a run in which another key's window, shorter by one, makes a key exceed its limit |
| RateLimit.BoundedExactly | neurons/rate_limit.py:75-101 | the bound holds on every run exactly when the least window in use is not below the key's |
| AutoUpdate.AutoUpdater.DrainRequested | neurons/auto_update.py:754-759 | drain is requested exactly when an update is pending or applying |
| AutoUpdate.AutoUpdater.DeferUpdate | neurons/auto_update.py:761-764 | the lane is released and the update pending; the other flags stay |
| AutoUpdate.AutoUpdater.ClearUpdate | neurons/auto_update.py:766-771 | all four flags are reset |
| AutoUpdate.AutoUpdater.BeginUpdate | neurons/auto_update.py:785-795 | claims exactly when nobody is applying and a required pending update is there; a refusal changes nothing |
| AutoUpdate.AutoUpdater.NotifyNotBusy | neurons/auto_update.py:856-909 | for every starting state and all answers from outside, which outcome a call has and the flags it leaves, equal to the specified call |
| AutoUpdate.AutoUpdater.CheckAndUpdate | neurons/auto_update.py:928-972 | the same for a check cycle |
| AutoUpdate.AutoUpdater.InstallAndRestart | neurons/auto_update.py:872-909 | the part both share, from the claim to the defer, clear or restart |
| AutoUpdate.LaneIsExclusive | neurons/auto_update.py:834-972 | under every interleaving of the checking thread and any number of callers, with any answers and exceptions, at most one thread is in the lane, and then drain is requested |
| AutoUpdate.EveryRunIsSafe | neurons/auto_update.py:834-972 | in every run no pull follows a successful install, the stagger is paid at most once and after it, and a restart is reached only installed, staggered and with the thread's latest busy check false; stated on the positions of the record |
| AutoUpdate.AttemptsRecorded | neurons/auto_update.py:834-972 | every pull, stagger, restart and answered busy check is in that record, also a pull that raises, and nothing else is |
| AutoUpdate.RaiseLeaves | neurons/auto_update.py:834-972 | a raise counts exactly in the eight steps that call out; the thread is outside again and the flags stay |
| AutoUpdate.StepKeeps | neurons/auto_update.py:834-972 | every step of every thread keeps the invariant that ties flags, program counters and the record |
| AutoUpdate.OwnerReleases | neurons/auto_update.py:761-771 | only the thread in the lane releases it |
| AutoUpdate.NotifyAlone | neurons/auto_update.py:856-909 | a thread of the step machine that moves alone from the drain check ends with the flags and the outcome of NotifyNotBusy |
| AutoUpdate.CheckAlone | neurons/auto_update.py:928-972 | and from the remote check with those of CheckAndUpdate |
| AutoUpdate.LoopAlone | neurons/auto_update.py:834-854 | a thread alone outside looks for an update exactly when it is the checking thread and nothing is pending or applying, and otherwise goes on with what is pending |
| AutoUpdate.StuckExactly | neurons/auto_update.py:834-972 | after every run the lane is claimed with nobody in it exactly when in some step a call inside the lane raised or a thread restarted; otherwise a claimed lane has a thread in it |
| AutoUpdate.StuckForGood | neurons/auto_update.py:785-795 | from such a state no continuation claims or releases the lane, changes a flag, pulls, sleeps or restarts |
| AutoUpdate.RaiseKeepsDrain | neurons/auto_update.py:754-759 | after a call inside the lane has raised, in any run, drain is requested in every continuation |
| VerdictRecords.Validate | neurons/verdict_records.py:91-113 | the loop with the prior key accepts exactly valid snapshots with strictly rising keys |
| VerdictRecords.Cursor.Take | neurons/verdict_records.py:185-190 | returns the next bytes and advances, or fails when too few remain |
| VerdictRecords.Cursor.U32 | neurons/verdict_records.py:196-197 | reads four big-endian bytes |
| VerdictRecords.Cursor.I64 | neurons/verdict_records.py:199-200 | reads a signed eight-byte integer |
| VerdictRecords.Cursor.I8 | neurons/verdict_records.py:202-203 | reads a signed byte |
| VerdictRecords.Cursor.Boolean | neurons/verdict_records.py:205-209 | accepts the bytes 0 and 1 only |
| VerdictRecords.Cursor.String | neurons/verdict_records.py:211-218 | reads a counted UTF-8 string of 1 to 4096 bytes |
| VerdictRecords.Cursor.NextEntry | neurons/verdict_records.py:149-158 | reads the eight fields of an entry in order |
| VerdictRecords.ParseEntries | neurons/verdict_records.py:147-160 | the loop reads exactly the announced entries |
| VerdictRecords.Parse | neurons/verdict_records.py:135-173 | the cursor-driven parse equals the specified one on every byte string |
| VerdictRecords.TextExact | neurons/verdict_records.py:211-218 | a string is read exactly where its printed form stands, for UTF-8 as in section 3 of RFC 3629 |
| VerdictRecords.CodecExact | neurons/verdict_records.py:115-173 | from_bytes(raw) is s exactly when to_bytes(s) is raw, for every byte string and every snapshot |
| VerdictRecords.EncodesExactly | neurons/verdict_records.py:91-126 | a snapshot has bytes exactly when its version is 1, sizes and numbers are in range and its entries are sound with strictly rising keys |
| VerdictRecords.HeaderLayout | neurons/verdict_records.py:115-129 | where version, key, epoch, time, count and signature stand in the bytes, and that the signed message is the domain and all but the signature |
| VerdictRecords.SigningInjective | neurons/verdict_records.py:128-129 | snapshots with one signing message differ at most in the signature |
| VerdictRecords.CanonicalExact | neurons/verdict_records.py:221-229 | values are the canonical entries exactly when they are a permutation of the given ones, all sound, with keys strictly rising in address and index |
| Utf8.EncodeThenDecode | neurons/verdict_records.py:17-23 | decoding what was encoded gives the text back |
| Utf8.DecodeThenEncode | neurons/verdict_records.py:215-216 | only canonical byte sequences decode |
| VerdictFollower.Follower.AcceptRaw | neurons/verdict_follower.py:74-134 | the checks in order with their reasons, and the new floor exactly on acceptance |
| VerdictFollower.Follower.ClearCurrent | neurons/verdict_follower.py:69-72 | drops the current snapshot and keeps the floor |
| VerdictFollower.NeverBack | neurons/verdict_follower.py:114-134 | in every run a later accepted snapshot has a later epoch, or the same epoch and a later time, or is the same bytes |
| VerdictFollower.NoReplay | neurons/verdict_follower.py:114-128 | once a newer decision was accepted, the bytes of an older one are refused, whenever and by whomever offered |
| VerdictFollower.CurrentIsLast | neurons/verdict_follower.py:65-72 | what is applied is the last accepted snapshot or nothing |
| VerdictFollower.ClearKeepsFloor | neurons/verdict_follower.py:69-72 | the same offers are accepted as if nothing had been cleared |
| VerdictFollower.AcceptedExactly | neurons/verdict_follower.py:37-134 | on every state and offer a snapshot is accepted exactly when the bytes are its encoding, the owner's first UID has a permit, the owner signed it, its epoch is the closing one or the one before, it is within both time bounds, and its epoch and time are above the floor or its bytes are the floor's |
| Receipts.EncodeV1 | neurons/receipts.py:157-200 | the growing parts list joins to the message of the first generation, or an unpackable field is an error |
| Receipts.EncodeV2 | neurons/receipts.py:203-216 | the same for the second generation around the first |
| Receipts.Injective1 | neurons/receipts.py:157-200 | a first-generation message determines every field it signs, whatever follows it |
| Receipts.Injective2 | neurons/receipts.py:203-216 | and so does the second generation, with its timing and version |
| Receipts.Injective3 | neurons/receipts.py:219-227 | and the third, with the capture digest |
| Receipts.Injective4 | neurons/receipts.py:230-261 | and the fourth, with obligation, kind and target |
| Receipts.GenerationTold | neurons/receipts.py:264-279 | equal messages have one generation unless an address is exactly as long as the tag's first four letters read as a length |
| Receipts.MessageInjective | neurons/receipts.py:157-279 | equal messages have one generation and agree on every field it signs, floats as their bytes with -0.0 read as 0.0 where the code does |
| Receipts.SignableExactly | neurons/receipts.py:157-261 | a receipt has a message exactly when the texts, lengths and integers its generation signs fit and the obligation is absent or complete |
| Receipts.FlagBytes | neurons/receipts.py:182-200 | the last bytes of a first-generation message are the three truth values, the trusted-hardware result and the hotkey |
| ReceiptLengths.SameLengthsInjective | neurons/receipts.py:157-279 | receipts of one generation and equal lengths of commitment and hotkey with one message agree on every signed field |
| ReceiptLengths.SumTold | neurons/receipts.py:175-198 | a first-generation message tells the sum of the two lengths |
| ReceiptLengths.FirstExactly | neurons/receipts.py:157-200 | over all first-generation receipts of two pairs of lengths, one message means one set of fields exactly when the pairs are equal or their sums differ |
| ReceiptLengths.EqualSumsExactly | neurons/receipts.py:157-279 | in every generation, pairs of equal sums are told apart exactly when they are equal |
| ReceiptLengths.SecondExactly | neurons/receipts.py:203-216 | in the second generation different pairs, the smaller sum first, are told apart exactly when the sums differ by 1 to 11 or by at least 2^32, or the later switches fall on the earlier version byte, or they fall on the earlier count and no count is legal there |
| ReceiptLengths.NotOver | neurons/receipts.py:203-261 | in every later generation a difference of 12 to 2^32-1 can be absorbed when the later switches keep clear of the earlier version and count |
| ReceiptLengths.AbsorbedNotOver | neurons/receipts.py:203-261 | and when they fall on legal bytes of the earlier count |
| Medians.GroupBySigner | neurons/scoring.py:263-273 | the grouping loop collects each signer's counting values in order |
| Medians.SampleOf | neurons/scoring.py:255-276 | the aggregation equals the median of the per-signer medians, or 0 below the minimum |
| Medians.SampleExactly | neurons/scoring.py:255-276 | there is a sample exactly when there is a signer and there are as many as the minimum asks for |
| Medians.IgnoredUnchanged | neurons/scoring.py:263-273 | a receipt whose requested proof was not verified, whose value is not positive or whose key has not 32 bytes changes no sample |
| Medians.OtherCounts | neurons/scoring.py:263-273 | every other receipt adds its value to its signer's list, and to no other |
| Medians.SignersAre | neurons/scoring.py:263-273 | the signers are exactly those with such a receipt |
| Medians.OutlierRobust | neurons/scoring.py:255-276 | a non-zero sample of at least three signers lies between medians of signers other than any given one |
| Medians.RobustExactly | neurons/scoring.py:255-276 | for all receipts a sample lies between the medians of other signers, whichever signer is left out, exactly when the minimum is at least three |
| Medians.TwoSignersNotRobust | neurons/scoring.py:274-276 | for every minimum below three, one of two signers moves the sample anywhere above the other's median |
| Medians.SampleUnordered | neurons/scoring.py:255-276 | the sample depends only on each signer's multiset of values |
| Medians.MedianBetweenOthers | neurons/scoring.py:656-664 | without any one of at least three values, one not above and one not below the median remain |
| Medians.MedianIsMiddle | neurons/scoring.py:656-664 | of the values in ascending order the median is the middle one, or the mean of the middle two |
| Medians.MedianUnordered | neurons/scoring.py:656-664 | the median depends only on the multiset of its values |
| Emission.ModelBucketWeights | neurons/scoring.py:918-1002 | every UID receives its part of every group in proportion to its scores; weights and the unallocated rest are non-negative and sum to exactly 1, or all are 0 when there is no budget to split |
| Emission.SplitAll | neurons/scoring.py:989-1002 | the loop over groups keeps the sum of weights and rest equal to the shares handed out |
| Emission.SplitGroup | neurons/scoring.py:997-1000 | splitting a share over entries, UIDs repeated or not, adds exactly the share |
| Emission.CollectEntries | neurons/scoring.py:972-987 | the nested loops collect exactly the eligible entries of each group in order |
| Emission.CollectEntry | neurons/scoring.py:974-987 | the checks on one entry admit exactly the eligible ones |
| Emission.ApprovedGroups | neurons/scoring.py:964-969 | a model is approved in a group exactly when it has a budget, belongs to it and the group has one |
| Emission.LogicalBudgets | neurons/scoring.py:945-958 | the loop computes the logical budgets |
| Emission.LargestExact | neurons/scoring.py:945-952 | without given group budgets the groups are those of the models and each has the largest budget of its models |
| Emission.WeightExactly | neurons/scoring.py:960-1002 | a UID has a weight exactly when it has an entry that is not excluded, whose model and group have budgets and whose score is not dust |
| Emission.IgnoredEntry | neurons/scoring.py:972-987 | removing an entry that is excluded, without a budget or dust changes no weight and nothing of the rest |
| Emission.Proportional | neurons/scoring.py:997-1000 | the weights of two miners with one such entry each, in one group, are in the proportion of their scores |
| Emission.GetWeights | neurons/scoring.py:884-916 | every weight is the miner's share of the total over its entries that are not excluded, non-negative, and all sum to 1 exactly when somebody scores |
| Emission.BarredEntry | neurons/scoring.py:900-908 | removing an excluded entry changes no aggregate |
| Emission.OpenEntryAdds | neurons/scoring.py:900-908 | any other entry adds its score, and a total below dust counts as none |
| Emission.ModelEntryScore.UpdateEma | neurons/scoring.py:1022-1044 | an epoch without data leaves the average, any other moves it by the recurrence |
| Emission.ColdStart | neurons/scoring.py:1027-1033 | after k scored epochs the average has at most 1-(1-a)^k of the best score |
| Emission.EqualScores | neurons/scoring.py:1027-1044 | equal scores are approached exactly by that factor, epochs without data not counted |
| FailureStrikes.HardProofStrikeTracker.ConfigureThresholds | neurons/proof_v3_failure_strikes.py:47-65 | thresholds out of range raise and change nothing; a tightened policy marks every strike that now reaches it |
| FailureStrikes.ConfigureExactly | neurons/proof_v3_failure_strikes.py:47-65 | thresholds are taken exactly from 1 to 10 and from 1 to 100; then a strike has a penalty if it had one or reaches the new threshold, and nothing else changes |
| FailureStrikes.HardProofStrikeTracker.RecordFailure | neurons/proof_v3_failure_strikes.py:67-95 | the new strike and the returned penalty, equal to the specified operation |
| FailureStrikes.FailExactly | neurons/proof_v3_failure_strikes.py:67-95 | the epoch joins the failures; a penalty is required exactly when there was one, on probation, or at the threshold; clean epochs go unless the report repeats a known epoch |
| FailureStrikes.HardProofStrikeTracker.RecordCleanPass | neurons/proof_v3_failure_strikes.py:97-120 | the same for a clean pass, and when it clears |
| FailureStrikes.HardProofStrikeTracker.ClearOne | neurons/proof_v3_failure_strikes.py:134-135 | removes the key and tells whether it was there |
| FailureStrikes.HardProofStrikeTracker.ClearEverything | neurons/proof_v3_failure_strikes.py:137-142 | removes all and counts them |
| FailureStrikes.HardProofStrikeTracker.MigrateIndex | neurons/proof_v3_failure_strikes.py:144-172 | moves the one candidate's strike to the new index, or does nothing |
| FailureStrikes.MigrateExactly | neurons/proof_v3_failure_strikes.py:144-172 | it answers true exactly when the new key is free and exactly one other index of the address has no endpoint, meets an empty offer or has the stripped offer as its endpoint |
| FailureStrikes.MigrateMoves | neurons/proof_v3_failure_strikes.py:144-172 | then that strike stands under the new key with its epochs and penalty, and every other strike is as it was |
| FailureStrikes.OtherEndpointStays | neurons/proof_v3_failure_strikes.py:156-166 | a strike with another known endpoint stays under its key unchanged |
| FailureStrikes.ReachableOk | neurons/proof_v3_failure_strikes.py:47-172 | in every run failures are non-empty, clean epochs exceed all of them, and reaching the threshold implies a penalty |
| FailureStrikes.PenaltyStep | neurons/proof_v3_failure_strikes.py:47-172 | one operation removes a penalty only by an explicit clear and moves it only by a migration |
| FailureStrikes.PenaltyEarned | neurons/proof_v3_failure_strikes.py:67-124 | in every run from a new tracker, every failed epoch of a strike was reported for its address after the last time everything was cleared, and a required penalty comes from such a report on probation or from as many epochs as a threshold of the run |
| FailureStrikes.PenaltyPersists | neurons/proof_v3_failure_strikes.py:47-172 | over any run without a clear of its address, a penalty is still there under some index |
| FailureStrikes.RecoveryExact | neurons/proof_v3_failure_strikes.py:97-120 | a pending strike clears exactly with the pass that completes the required number of distinct later clean epochs |
| FailureStrikes.FromItems | neurons/proof_v3_failure_strikes.py:190-258 | the loading loop equals the specified load, index texts read as `int` reads them, or raises |
| FailureStrikes.SavedForm | neurons/proof_v3_failure_strikes.py:174-188 | every table has a saved form of the kind the reload results speak of |
| FailureStrikes.ReadItemExactly | neurons/proof_v3_failure_strikes.py:190-258 | an entry is read exactly when its key splits at the last bar into an address and a number that is not negative, its epochs are distinct naturals without overlap, and its penalty fits; and then as that strike |
| FailureStrikes.ParseIntExactly | neurons/proof_v3_failure_strikes.py:226-227 | an index text reads as a number exactly when it is digits, an underscore between two of them allowed, with at most one sign and white space around |
| FailureStrikes.ReloadExact | neurons/proof_v3_failure_strikes.py:174-258 | save and reload with the same thresholds gives the same tracker exactly when every address is non-empty and every index non-negative |
| FailureStrikes.EveryRunReloads | neurons/proof_v3_failure_strikes.py:174-258 | the same for every reachable tracker |
| CanarySchedule.LogUniformBands | neurons/canary.py:332-352 | the band loop and its merge compute the bands; a cap that is not positive raises |
| CanarySchedule.BandsTile | neurons/canary.py:332-352 | the bands tile 1..cap in order, each with upper at most twice lower |
| CanarySchedule.BandsExactly | neurons/canary.py:332-352 | band i starts at the i-th power of two, all but the last end just below double, and the last ends at the cap and holds one length only for a cap of one |
| CanarySchedule.TokensInRange | neurons/canary.py:355-396 | whatever is drawn, the decode length is within 1..cap |
| CanarySchedule.TailReaches | neurons/canary.py:386-395 | every length up to the cap can be drawn |
| CanarySchedule.CommonExactly | neurons/canary.py:369-378 | the common lengths are those from 64 to the common maximum within the cap, or 64, or a smaller cap |
| CanarySchedule.AnchorExactly | neurons/canary.py:379-386 | the anchored lengths are the five anchors within the cap, and the cap when it is below one |
| CanarySchedule.CategoryShares | neurons/canary.py:424-445 | of the 10,000 draws exactly the anchor rate gives an anchor, the tail rate a tail and the rest a common length |
| CanarySchedule.CategoryRaises | neurons/canary.py:432-439 | the rates raise exactly below their minimums or when they leave nothing |
| CanarySchedule.SafeTargetFits | neurons/canary.py:905-924 | target plus decode fit the context exactly when the decode leaves room for one token |
| CanarySchedule.SafeTargetExactly | neurons/canary.py:905-924 | the safe target is the largest prompt that keeps the configured fraction and leaves the reserve and the decode, and at least one token |
| CanarySchedule.BlockInWindow | neurons/canary.py:1402-1442 | a drawn target block lies in the epoch and leaves the completion reserve |
| CanarySchedule.BlockReaches | neurons/canary.py:1402-1442 | every block of that window can be drawn, and a reserve raises exactly when it is not positive or does not fit |
| CanarySchedule.CandidateEvents | neurons/canary.py:1153-1187 | the block loop collects exactly the drawn candidates, and one forced when due and none was drawn |
| CanarySchedule.CandidateShare | neurons/canary.py:1153-1176 | of a block's draws exactly the candidate target makes it a candidate |
| CanarySchedule.ForcedReaches | neurons/canary.py:1177-1200 | every candidate of a due endpoint can be the forced one, and without candidates every block can get one |
| CanarySchedule.PlanHard | neurons/canary.py:1004-1284 | the plan of an endpoint in the hard audit, with every check that raises |
| CanarySchedule.HardPlanRaises | neurons/canary.py:1004-1076 | planning an endpoint raises exactly for a policy, context, reserve or, with a candidate, rates out of range |
| CanarySchedule.MarkedExactly | neurons/canary.py:1202-1284 | a marked test field by field: the length of the drawn category, its safe target, and a proof exactly when forced or by the hard draw |
| CanarySchedule.HardShare | neurons/canary.py:1257-1266 | of the 10,000 hard draws exactly the hard rate verifies a test that is not forced |
| CanarySchedule.MinimumExactly | neurons/canary.py:1223-1236 | a late decode demands the least output that reaches the late rate of it, any other none |
| CanarySchedule.PlanLight | neurons/canary.py:950-1341 | the small tests of a light plan, followed by the fixed requests at the advertised context |
| CanarySchedule.CanaryScheduler.PlanEpoch | neurons/canary.py:926-1342 | the queue is a permutation of all endpoints' plans, in order of block and address, or the call raises |
| CanarySchedule.PlannedRaises | neurons/canary.py:926-1342 | the epoch's plan raises exactly when the plan of some endpoint does |
| CanarySchedule.HardPlanAudits | neurons/canary.py:1004-1284 | an endpoint's plan is one light request and marked tests at rising blocks of the epoch, each within the signed context and decode limits of its endpoint, one of them proof-verified when due |
| CanarySchedule.EveryTestFits | neurons/canary.py:1004-1284 | every test of the epoch lies in it and keeps its endpoint's signed context and decode limits unless it is the light request |
| CanarySchedule.LimitsFit | neurons/canary.py:1068-1076 | those limits are never above the endpoint's own context, nor above the signed ones where there are any |
| CanarySchedule.LimitsExactly | neurons/canary.py:1068-1076 | the limits of an endpoint leave no prompt capacity, and planning raises, exactly when its context is at most one token |
| CanarySchedule.LimitsLargest | neurons/canary.py:1036-1072 | and they are the largest numbers within the endpoint's context, the signed limits or, without those, the common maximum |
| CanarySchedule.EveryDueAudited | neurons/canary.py:1177-1200 | every endpoint whose lower-case address and index are in the due set or on probation has a proof-verified test within its limits |
| CanarySchedule.OthersByDraw | neurons/canary.py:1153-1284 | every other endpoint has the light request and one test for each drawn candidate, which verifies a proof by its own draw only |
| CanarySchedule.AdvertisedFitsExactly | neurons/canary.py:1093-1097 | the light request fits its context exactly when its decode is smaller |
| CanarySchedule.LightPlanOk | neurons/canary.py:1285-1341 | outside the hard audit nothing verifies a proof, every block leaves its reserve, and every test has the sizes of its kind |
| CanarySchedule.LightPlanSize | neurons/canary.py:950-1341 | an endpoint then gets its small tests and after them those at the advertised context, a negative count being none |
| CanarySchedule.LightPlanRaises | neurons/canary.py:950-1341 | such a plan raises exactly when a test is wanted whose reserve is not positive or does not fit the epoch |
| CanarySchedule.CanaryScheduler.GetPendingTests | neurons/canary.py:1344-1347 | the tests due go out in order, the others stay |
| CanarySchedule.RunKeepsOrder | neurons/canary.py:1344-1400 | over any run of collections and retries an ordered queue stays in order of block and address, and what is due stands at its front |
| CanarySchedule.CanaryScheduler.Reschedule | neurons/canary.py:1349-1400 | the test rejoins the queue at its new block and the queue is in order, or nothing changes |
| CanarySchedule.RetryInWindow | neurons/canary.py:1367-1398 | a retry is the same test at a block after the current one that still leaves its reserve |
| CanarySchedule.RetryExactly | neurons/canary.py:1367-1398 | a retry raises exactly for a bad reserve, is impossible exactly from the last block on, and can land on every later block of the window |
| CanarySchedule.RunConserves | neurons/canary.py:1344-1400 | over any run of collections and retries the multiset of obligations is unchanged |
| CanarySchedule.RunStaysInEpoch | neurons/canary.py:1344-1400 | over any run whose current blocks are not before the epoch's start minus one, from a plan in the epoch, everything queued waits for a block of the epoch |
| CanarySchedule.ReserveExactly | neurons/canary.py:1153-1187 | the marked tests of every endpoint and every draw leave the full completion reserve exactly when it is one block |
| CanarySchedule.CollectExact | neurons/canary.py:1344-1347 | what stays is later, and everything due is handed out |

## Left out

- Hashing, signatures and address decoding: parameters; no property of SHA-256, Sr25519 or SS58 is proved.
- The sumcheck protocol, its transcript and the native polynomial commitment: not part of this model. `evaluate_i8_matrix` is taken to be the row-major multilinear extension.
- Text forms around the data: base64 of state blocks, and JSON shapes other than those of the payload mapping and of the Merkle path.
- MerkleTree.CheckStrictPath: entries are decoded already; malformed entries, digests and directions are the subject of PathFormat.StrictMerklePath. The level size the source tracks in the loop is never read and is not modelled.
- CapacityEncoding.CanonicalBytesInjective: does not model the derived-index checks of the context constructor, which only shrink the set of valid contexts.
- WorkspaceTree.Tree.GetPath: for the Q tree, the square root that recovers the blocks per row is left out; the leaf index is the argument.
- The loop of `WorkspaceMerkleTree.from_matrix_i32`: its leaves appear as the value `QPayloads`; the same loop of the state tree is modelled.
- WorkspaceTransition.OpenStateBlocks: blocks are values; numpy's conversion errors for entries outside 16 bits are one error.
- RateLimit.RateLimiter.Check: clock readings are reals and the lock makes each check one step; the PostgreSQL back end is not modelled.
- AutoUpdate.EveryRunIsSafe: safety only. Waiting times, the stop event, Git, pip and PM2 are outside; what they return is any answer.
- AutoUpdate.AutoUpdater.NotifyNotBusy: a call during which no other thread moves and no call raises, as is AutoUpdate.AutoUpdater.CheckAndUpdate; interleavings and exceptions are the subject of the step machine beside it.
- VerdictFollower.Follower.AcceptRaw: the HTTP fetch and the URL rules are not modelled; the version, permit and signature inputs are.
- FailureStrikes.FromItems: the saved form is a list of entries in any order; JSON text, its version field and the sorting of epochs are not modelled; in an index text, digits and white space outside ASCII and the length limit of `int` are not.
- ReceiptLengths.NotOver: the third and fourth generation, whose counted digests stand behind the timing, are not decided for sums that differ by less than 12 or by 2^32 and more, nor where the later switches fall on the earlier version or count.
- FailureStrikes.HardProofStrikeTracker.MigrateIndex: keys are pairs already; the conversion of an index to an integer is not modelled.
- Medians.SampleOf: floats are reals, so rounding, infinities and NaN are not modelled; `compute_peer_medians` nests the same medians once more and is left out.
- Emission.ModelBucketWeights: floats are reals; `model_budgets` and `group_budgets` are ordered dictionaries with distinct keys, the miner states a list with distinct UIDs.
- The utility, speed, latency and demand factors, which use square roots and logarithms.
- CanarySchedule.PlanHard: prompt text, repeat-prefix targets, TEE and sampling fields of a test are left out; no statistical claim is made about the draws.
- CanarySchedule.CanaryScheduler.Reschedule: a test is a value here; the attempt counter and the caller's reference to the same object are not modelled.
- CanarySchedule.CanaryScheduler.PlanEpoch: after an exception nothing is said of the queue.
- HTTP, nginx, chain RPC, logging and configuration.
