# Verified models of the Taurus 3001 clocked components

The repository emulates an out-of-order RISC-V core in C++ and implements parts of it in Verilog. This
project models its clocked state machines and proves what they are for, on every input, every reachable
state and every size.

- **Register renaming.** `RegisterAliasTable`, `ShadowRegisterAliasTable`, `Scoreboard` and
  `PhysicalRegisterFile` are classes whose methods stage changes and whose `Eval` applies them; each `Eval`
  is proved equal to the next state of a value model. `Renaming` composes the value models into one machine
  (`Core`) together with a history: every renamed instruction that has not been squashed, of which the first
  `c` have committed. `RenamingCycle` proves that one clock edge equals its requests done one after the
  other, `RenamingSteps` that each request keeps the invariant, `RenamingTheorems` and `RenamingRecovery`
  what follows for every run, `AliasRecovery` what a checkpoint restores with no protocol at all, and
  `RenamingCores` that the four objects, driven as the simulator drives
  them, realise that machine.
- **Tree pseudo-LRU.** `LruTree` and `LruOrder` hold the theory over an arbitrary depth, `PseudoLrus` the
  emulated classes with their in-place loops, `LruHardware` the carry, valid and select trees.
- **Compressing memory, ring FIFO, hardware FIFOs.** Each is proved to do, edge by edge, what a plain
  sequence does: `CompressingMemories`, `RingFifos`, `HardwareFifos`.
- **Bypass and cross buffers, free-list model.** `BypassBuffers`, `CrossBuffers`, `CrossBuffers4`,
  `Freelists` and `FreelistModels`.

Emulated components change fields and arrays step by step and are classes here, each method proved against a
function of the old state. A Verilog module's registers all change together at the clock edge, so an edge is
a function from the old registers and the inputs to the new registers, and its wires are functions.

## Conventions

- Sizes are symbolic. `RenamingRecovery.DesignNeverFull` uses the design's 32 architectural registers, 96
  physical registers and 32 reorder-buffer entries.
- A "modified" flag with its staged value is one `Option`. -1 keeps meaning "none" where the source uses it.
- The renaming protocol (`Renaming.Legal`, `RenamingTheorems.Allowed`, `RenamingTheorems.Reaches`): at most one
  rename and one commit a cycle; sources are looked up before the touch; the take-off goes with the touch that
  returned the register;
  instructions commit in program order after both operands were read; landing, register write, alias and
  shadow commit go in one cycle; a restored checkpoint lies within what is in flight after this cycle's
  commit; NRA synchronisation happens in a cycle that renames and commits nothing and leaves nothing in
  flight, which may be the cycle that restores a checkpoint. Operands are read in any cycle in which their register is not busy, up to the reader's commit.
- Runs start from the state after `ResetInput`, in which no landing or take-off flag is set. Physical
  registers start at 0; none is read before it is written.
- The register file wraps at 64 bits (`bv64`). Everything else the models count stays within its bounds by
  the invariants, so integers are unbounded.
- The zero-register convention of the simulator is on: register 0 reads 0 and is never mapped.

## Where code and comments disagree

- Both hardware FIFOs announce that a write is always ignored when full (`common_fifo_shift_1w1r.v:7`,
  `common_fifo_ram_1w1r.v:7`). The code accepts it when a read happens in the same cycle; the model does too.
- The four-port cross buffer keeps one port bit per pair, but ports 2 and 3 consult the first pair's bit
  (`common_cross_buffer4.v:200-201`). The model keeps this, and `CrossBuffers4.ServedExactly`,
  `CrossBuffers4.WaitEndsExactly` and `CrossBuffers4.PortThreeStarves` show exactly what it costs.
- The simulator passes -1 to the scoreboard when an instruction writes register 0 (`vmc_core.hpp:1019`,
  `vmc_core.hpp:1243`). The model takes off and lands only registers that were claimed.

## Specification functions

What the contracts below refer to, and where it comes from:

- `AliasTables.Table` (Invalidate, InvalidateAndRelease, Touch, Commit, SyncNRA, Next), `ShadowTables.Shadow`,
  `Scoreboards.Board` and `RegisterFiles.Registers`: the four components as values, from
  `core_dispatch.hpp:708-887`, `core_dispatch.hpp:1294-1503`, `core_dispatch.hpp:1777-1814` and
  `core_issue.hpp:72-91`. Nothing rests on them alone: the classes realise them and the run theorems are about
  them.
- `Renaming.Clock`: one cycle of all four under the protocol. `Renaming.LastWriter` and `Instructions.RefRun`
  (the in-order machine, from `vmc_core.hpp:712-726` and `vmc_core.hpp:4085-4129`) say what it should mean.
- `LruTree.Rank`, `LruTree.Turn`, `LruTree.Towards`: a leaf's path XOR the tree bits, read from the root as
  most significant, as least significant, and counted. `LruOrder.Order` expands the order from the root.
- `CompressingMemories.Aged`: the valid payloads from the highest address down. `HardwareFifos.QueueEdge`: one
  cycle of a bounded queue. `RingFifos.Contents`: the payloads between the two pointers.
- `BypassBuffers.Edge` (`common_bypass_buffer.v:58-74`), `CrossBuffers.Edge2` (`common_cross_buffer2.v:91-104`),
  `CrossBuffers4.Edge4` (`common_cross_buffer4.v:176-223`), `HardwareFifos.ShiftEdge`
  (`common_fifo_shift_1w1r.v:42-126`), `HardwareFifos.RingEdge` (`common_fifo_ram_1w1r.v:52-157`),
  `LruHardware.Clocked` and `LruHardware.PickSelect` (`common_pseudo_lru_pick_onehot.v:40-181`).

Check everything with `dafny verify dfyconfig.toml`.

## Model

| member | source | states |
|---|---|---|
| RenamingTheorems.RenamingPreservesMeaning | main/emulated/core_dispatch.hpp:1294-1503 | in every state of every legal run, squashes included: each operand an in-flight instruction has read, or may read now, through the register recorded at rename is the value in-order execution of everything before it gives; the registers the shadow table marks hold the in-order values of what has committed, and unmarked ones are 0 |
| RenamingTheorems.StraightLineRefinement | test/emulated/core/vmc_core.hpp:979-1019 | runs without restores: once everything renamed has committed, reading any architectural register through the alias table gives what the in-order machine computes for the instructions the run renamed |
| RenamingRecovery.ExecutesOne | test/emulated/core/vmc_core.hpp:979-1253 | from reset with any sizes an instruction is renamed, reads its operands and commits in a legal run, and its destination then reads what it computes from zeroes |
| Instructions.AddCountsUp | test/emulated/core/vmc_core.hpp:4103-4105 | adding 0 changes nothing and adding one more gives one more, with wrap-around: ADD |
| Instructions.SubCountsDown | test/emulated/core/vmc_core.hpp:4107-4109 | subtracting 0 changes nothing and subtracting one more gives one less, with wrap-around: SUB |
| Instructions.ImmediateCounts | test/emulated/core/vmc_core.hpp:4123-4129 | ADDI and SUBI do with the immediate what ADD and SUB do with the second operand; NOP copies the first |
| Instructions.AndBitwise | test/emulated/core/vmc_core.hpp:4091-4113 | AND and ANDI set a bit exactly where both operands have it |
| Instructions.OrBitwise | test/emulated/core/vmc_core.hpp:4095-4117 | OR and ORI set a bit exactly where one of the operands has it |
| Instructions.XorBitwise | test/emulated/core/vmc_core.hpp:4099-4101 | XOR sets a bit exactly where the operands differ |
| Instructions.XorImmediateBitwise | test/emulated/core/vmc_core.hpp:4119-4121 | XORI sets a bit exactly where the first operand and the immediate differ |
| Instructions.ExecutesInOrder | test/emulated/core/vmc_core.hpp:4085-4129 | loading two constants and executing an instruction on them leaves in its destination what it computes from the first source and the second, in this order |
| Instructions.StepWritesDestination | test/emulated/core/vmc_core.hpp:712-726 | an instruction changes its destination only, and register 0 reads 0 |
| RenamingTheorems.RunInv | main/emulated/core_dispatch.hpp:857-886 | every run of allowed steps keeps the invariant and the size of the tables |
| RenamingTheorems.LegalIsAllowed | test/emulated/core/vmc_core.hpp:1230-1253 | in every state that satisfies the invariant a legal cycle can be taken: the committing instruction names a register of the table or none |
| RenamingTheorems.HistoryIsAccepted | test/emulated/core/vmc_core.hpp:989-1013 | without restores the history of a run is exactly the instructions whose touch succeeded, in order; a rename without a free register waits |
| RenamingTheorems.QuietRead | test/emulated/core/vmc_core.hpp:728-743 | with nothing in flight, the register the alias table names holds the in-order value of the architectural one |
| RenamingTheorems.OperandValue | main/emulated/core_issue.hpp:72-75 | a register that is not busy holds the in-order value for the instruction that recorded it as a source |
| RenamingTheorems.NoEarlyReuse | main/emulated/core_dispatch.hpp:1325-1431 | in every run, the register a touch would return is no source and no destination of an instruction in flight, is not mapped, not busy, and not the last committed one of anything |
| RenamingTheorems.TableInvariant | main/emulated/core_dispatch.hpp:1335-1446 | in every state of every run: entry i keeps PRF i, one V entry at most per architectural register and none for 0, V implies NRA, busy implies NRA, and without un-synchronised squashes at most one NRA entry per architectural register that is not busy |
| RenamingTheorems.ShadowAgreement | main/emulated/core_dispatch.hpp:1777-1814 | in every run the shadow NRA bit of a register is set if and only if it is the last committed register of some architectural one |
| RenamingTheorems.SyncFreesOrphans | main/emulated/core_dispatch.hpp:1458-1463 | every legal synchronising cycle, also one that restores a checkpoint, clears NRA exactly for the entries kept for nobody after it, squashed ones included; NRA then marks exactly the last committed registers, and with the restore applied V implies NRA |
| RenamingRecovery.CheckpointRecovery | main/emulated/core_dispatch.hpp:1115-1196 | in every run: allocate in one cycle, any steps that restore nothing older, restore in a later cycle, with or without an NRA synchronisation: if only instructions in flight at the allocation have committed, the restore is legal and the history and the mapping of every architectural register are those at the start of the allocating cycle |
| AliasRecovery.RecoveredExactly | main/emulated/core_dispatch.hpp:1484-1503 | no protocol assumed, whatever was staged in between: a restore brings back the mapping of every architectural register if and only if every entry mapped at the allocation stands under its old number again, that is, the last number staged for it since, if any, is the one it had |
| AliasRecovery.ArfIsStaged | main/emulated/core_dispatch.hpp:1406-1431 | over any cycles the number of an entry is the last one staged for it, or the one it had; restores leave it alone |
| AliasRecovery.CheckpointKeepsMapping | main/emulated/core_dispatch.hpp:1115-1196 | over any cycles a checkpoint holds the V bits of its allocation until allocated again, and no entry changes its PRF |
| AliasRecovery.ReleasedIsLost | main/emulated/core_dispatch.hpp:1356-1431 | a run of touches and commits from reset, with the busy bits of the scoreboard it drives, in which a younger instruction commits and the register it supersedes is claimed again: mapped when the checkpoint is allocated, the architectural register is unmapped after the restore, and the condition is indeed not met |
| RenamingRecovery.RecoveryUndoesRename | main/emulated/core_dispatch.hpp:1484-1503 | from reset with any sizes, allocating with a rename maps its destination and restoring in the next cycle unmaps it: the recovery theorem applies to a real squash |
| RenamingRecovery.StandsAfterRun | main/emulated/core_dispatch.hpp:1484-1503 | a checkpoint stays valid, and its history a prefix of the current one, over every run that neither re-allocates it nor restores an older one |
| RenamingRecovery.SameMapping | main/emulated/core_dispatch.hpp:1294-1305 | the mapping of every architectural register is determined by the history alone |
| RenamingRecovery.KeptBound | main/emulated/core_dispatch.hpp:1356-1431 | without un-synchronised squashes the number of NRA entries is at most in-flight instructions plus architectural registers less one |
| RenamingRecovery.AlwaysRoom | main/emulated/core_dispatch.hpp:1316-1333 | with more entries than that bound, touch succeeds and the table is not full |
| RenamingRecovery.DesignNeverFull | main/emulated/core_globaldef.hpp:11-13 | with 32 architectural and 96 physical registers and at most 32 in flight, in every run touch succeeds and the table is not full while no squash is un-synchronised |
| RenamingCycle.ClockIsSerial | main/emulated/core_dispatch.hpp:1484-1503 | one clock edge over everything staged equals allocating, renaming, committing, restoring and synchronising one after the other |
| RenamingCycle.ClockInv | main/emulated/core_dispatch.hpp:857-886 | every legal clock cycle keeps the renaming invariant |
| RenamingCycle.StagedEntry | main/emulated/core_dispatch.hpp:1356-1431 | the staged writes of a touch and a commit of one cycle leave at every entry what remapping followed by releasing leaves; the touch wins over the release |
| RenamingSteps.AllocatedInv | main/emulated/core_dispatch.hpp:1186-1190 | saving V and busy bits snapshots the mapping and the pending destinations of the current history |
| RenamingSteps.RenamedInv | main/emulated/core_dispatch.hpp:1406-1431 | a rename that finds a free register keeps the invariant, including every live checkpoint |
| RenamingSteps.CommittedInv | main/emulated/core_dispatch.hpp:1356-1379 | committing the oldest instruction keeps the invariant: values, shadow marks, live checkpoints and the orphan bound |
| RenamingSteps.RestoredInv | main/emulated/core_dispatch.hpp:1192-1196 | restoring only V and busy bits gives an invariant-keeping state whose history is cut at the checkpoint |
| RenamingSteps.SyncedInv | main/emulated/core_dispatch.hpp:1458-1463 | taking NRA from the shadow table with nothing in flight keeps the invariant |
| RenamingSteps.ValidIsKept | main/emulated/core_dispatch.hpp:1423-1425 | a valid entry is marked NRA |
| RenamingSteps.CommittedValues | test/emulated/core/vmc_core.hpp:1229-1253 | writing the result of the committing instruction makes the register file hold the in-order values of one more instruction |
| RenamingSteps.RemappedSaved | main/emulated/core_dispatch.hpp:1115-1123 | reusing a free entry disturbs no snapshot that can still be restored |
| Renaming.InitialInv | main/emulated/core_dispatch.hpp:1225-1235 | the reset state satisfies the invariant |
| Renaming.WritersAreKept | main/emulated/core_dispatch.hpp:1366-1379 | the last writer of an architectural register in any restorable prefix is NRA and still carries that number |
| Renaming.AliasIsLastWriter | main/emulated/core_dispatch.hpp:1294-1305 | the associative lookup returns the physical register of the last writer in program order, -1 for none and for register 0 |
| RenamingCores.RenamingCore.Rename | test/emulated/core/vmc_core.hpp:979-1019 | looks both sources up before the touch, returns the claimed register, and takes it off in the scoreboard only when one was claimed |
| RenamingCores.RenamingCore.Commit | test/emulated/core/vmc_core.hpp:1229-1253 | writes, lands and releases in one cycle, in the register file and all three tables |
| RenamingCores.RenamingCore.ReadOperand | main/emulated/core_issue.hpp:72-75 | reads the recorded register, or 0 for -1, and records the operand |
| RenamingCores.RenamingCore.Tick | test/emulated/core/vmc_core.hpp:1271-1277 | evaluates the components and leaves each in its next state |
| RenamingCores.RenamingCore.Cycle | test/emulated/core/vmc_core.hpp:1271-1277 | a whole cycle of the component objects takes the protocol state to the clocked one the theorems are about |
| AliasTables.AliasIndex | main/emulated/core_dispatch.hpp:1299-1304 | the first valid entry that maps the architectural register, -1 if there is none |
| AliasTables.FreeIndex | main/emulated/core_dispatch.hpp:1325-1333 | the first entry without NRA, -1 if all have it |
| AliasTables.SyncPrevails | main/emulated/core_dispatch.hpp:1458-1463 | synchronised NRA bits override whatever else the cycle staged and change nothing else |
| AliasTables.CommitReleases | main/emulated/core_dispatch.hpp:1356-1379 | a commit alone leaves NRA exactly where it was set and the entry is busy or of another architectural register, and changes no other field |
| AliasTables.ReleasesAll | main/emulated/core_dispatch.hpp:1381-1404 | a register mapped at most once is mapped nowhere afterwards and nothing of it stays NRA; other entries are untouched |
| AliasTables.ZeroIsIgnored | main/emulated/core_dispatch.hpp:1335-1410 | no call on register 0 stages anything, and its touch succeeds |
| AliasTables.TouchAndCommitCommute | main/emulated/core_dispatch.hpp:1356-1431 | a touch and a commit of one cycle stage the same writes and return the same register in either order |
| AliasTables.RegisterAliasTable.constructor | main/emulated/core_dispatch.hpp:1225-1235 | nothing mapped, kept or staged; entry i names register i |
| AliasTables.RegisterAliasTable.GetAliasPRF | main/emulated/core_dispatch.hpp:1294-1305 | the search loop returns the alias of the architectural register |
| AliasTables.RegisterAliasTable.IsFull | main/emulated/core_dispatch.hpp:1316-1323 | true exactly when every entry is NRA |
| AliasTables.RegisterAliasTable.GetNextEntry | main/emulated/core_dispatch.hpp:1325-1333 | the search loop returns the first entry without NRA |
| AliasTables.RegisterAliasTable.Invalidate | main/emulated/core_dispatch.hpp:1335-1354 | stages V off for the first valid entry of the architectural register and changes nothing else |
| AliasTables.RegisterAliasTable.LandAndRelease | main/emulated/core_dispatch.hpp:1356-1379 | stages NRA off for every entry of the same architectural register that is not busy and has no NRA write staged |
| AliasTables.RegisterAliasTable.InvalidateAndRelease | main/emulated/core_dispatch.hpp:1381-1404 | stages NRA off for every entry of the architectural register and V off for its first valid one |
| AliasTables.RegisterAliasTable.Touch | main/emulated/core_dispatch.hpp:1406-1431 | register 0 succeeds without effect; a full table fails without effect; otherwise the first free entry is claimed after the old mapping is staged away |
| AliasTables.RegisterAliasTable.Commit | main/emulated/core_dispatch.hpp:1443-1446 | stages the release of the superseded entries |
| AliasTables.RegisterAliasTable.SyncNRA | main/emulated/core_dispatch.hpp:1458-1463 | stages every NRA bit from the shadow table, over anything already staged |
| AliasTables.RegisterAliasTable.Allocate | main/emulated/core_dispatch.hpp:1186-1190 | copies the V bits into one checkpoint and leaves the others |
| AliasTables.RegisterAliasTable.Restore | main/emulated/core_dispatch.hpp:1192-1196 | copies one checkpoint into the V bits and leaves the rest of every entry |
| AliasTables.RegisterAliasTable.Eval | main/emulated/core_dispatch.hpp:1484-1503 | snapshot, staged writes, restore, and all requests cleared: the next state of the value model |
| ShadowTables.KeepsOneFor | main/emulated/core_dispatch.hpp:1777-1795 | a shadow commit alone leaves exactly the committed entry kept for its architectural register and touches no entry of another; register 0 is ignored |
| ShadowTables.ShadowRegisterAliasTable.Commit | main/emulated/core_dispatch.hpp:1777-1795 | stages the new committed entry and the end of all others of the same architectural register; nothing for register 0 |
| ShadowTables.ShadowRegisterAliasTable.Eval | main/emulated/core_dispatch.hpp:1803-1814 | applies the staged writes and clears them |
| ScoreboardRecovery.RestoredBusyBits | main/emulated/core_dispatch.hpp:857-886 | after the cycle restoring checkpoint k a register is busy if and only if it was busy at the start of the allocating cycle and has not landed in any cycle from that one on, whatever was taken off |
| ScoreboardRecovery.LastCallStands | main/emulated/core_dispatch.hpp:785-795 | without a restore the last landing or take-off of a cycle decides the busy bit of its register, and without one it keeps it |
| ScoreboardRecovery.CheckpointTracksLandings | main/emulated/core_dispatch.hpp:677-698 | the same about the bits of the checkpoint after every cycle since its allocation |
| ScoreboardRecovery.StagedLanding | main/emulated/core_dispatch.hpp:785-795 | whatever the order of calls of a cycle, a landing among them is staged, and only then |
| Scoreboards.Scoreboard.constructor | main/emulated/core_dispatch.hpp:842-849 | nothing busy, and no landing or take-off flag set |
| Scoreboards.Scoreboard.Allocate | main/emulated/core_dispatch.hpp:688-692 | copies the busy bits into one checkpoint and leaves the others |
| Scoreboards.Scoreboard.LandInCheckpoints | main/emulated/core_dispatch.hpp:874-877 | clears one register in every checkpoint |
| Scoreboards.Scoreboard.Restore | main/emulated/core_dispatch.hpp:694-698 | copies one checkpoint into the busy bits |
| Scoreboards.Scoreboard.ApplyModification | main/emulated/core_dispatch.hpp:863-879 | writes the staged busy bits and clears landed registers in every checkpoint |
| Scoreboards.Scoreboard.Eval | main/emulated/core_dispatch.hpp:857-886 | snapshot, staged writes with landings written through to all checkpoints, restore: the next state of the value model |
| RegisterFiles.PhysicalRegisterFile.Eval | main/emulated/core_issue.hpp:83-91 | applies the staged write, if any |
| ImmediateWrites.ImmediateWriteRefinement | test/emulated/core/vmc_core.hpp:712-771 | after any sequence of writes on a table at least as large as the register count, none has failed and every register reads as the reference does |
| ImmediateWrites.FailsExactly | main/emulated/core_dispatch.hpp:1408-1414 | a write fails if and only if it is not to register 0 and the table is full, and then changes nothing |
| ImmediateWrites.WriteKeepsMirror | main/emulated/core_dispatch.hpp:1381-1431 | one write without in-flight cycles succeeds and keeps one entry per written register with its reference value |
| ImmediateWrites.RoomForWrite | main/emulated/core_dispatch.hpp:1325-1333 | such a table always has an entry left |
| ImmediateWrites.WritesKeepMirror | test/emulated/core/vmc_core.hpp:762-771 | the same over any sequence of writes |
| ImmediateWrites.SimContext.GetO3ARF | test/emulated/core/vmc_core.hpp:728-743 | register 0 and unmapped registers read 0, others through the alias table |
| ImmediateWrites.SimContext.SetO3ARFAndEval | test/emulated/core/vmc_core.hpp:745-771 | touch without flight, staged write and both evaluations; a failed touch changes nothing |
| LruTree.FullCycle | main/emulated/common/lru.hpp:135-169 | from any bits of any depth n, 2^n rounds of update-the-pick return the bits, and pick every index, each in one round only |
| LruTree.PickedOnTurn | main/emulated/common/lru.hpp:153-168 | within a cycle, index x is picked in the round its turn (its bits XOR the tree bits on its path, root least significant) names, and in no other |
| LruTree.RoundCountsDown | main/emulated/common/lru.hpp:138-168 | a round counts the turn of every node down by one, modulo the size of its depth |
| LruTree.BitsReturn | main/emulated/common/lru.hpp:138-151 | 2^n rounds leave every bit as it was |
| LruTree.UpdatedBit | main/emulated/common/lru.hpp:140-148 | an update makes exactly the nodes on the path of the index point away from it |
| LruTree.UpdateTurnsOne | main/emulated/common/lru.hpp:138-148 | an update of another index turns at most one node of a path towards its end |
| LruTree.Protection | main/emulated/common/lru.hpp:138-168 | an updated index is not picked again before n further updates |
| LruTree.ProtectionIsTight | main/emulated/common/lru.hpp:138-168 | for every index some n updates of other indices do make it the pick |
| LruTree.PathIsAncestor | main/emulated/common/lru.hpp:153-166 | the nodes followed from the root are the ancestors of the picked leaf |
| LruOrder.RankOfOrder | main/emulated/common/lru.hpp:279-306 | the expanded order is injective, and the rank (bits of the index XOR tree bits, root most significant) is its inverse |
| LruOrder.OrderOfRank | main/emulated/common/lru.hpp:279-306 | every index stands in the order, at its rank |
| LruOrder.ResetOrder | main/emulated/common/lru.hpp:279-306 | with all bits clear every index stands at its own rank, and index 0 is picked |
| LruOrder.UpdatedIsLast | main/emulated/common/lru.hpp:264-277 | the index updated last stands last |
| PseudoLrus.UpdateBits | main/emulated/common/lru.hpp:138-148 | the in-place loop leaves the updated bits |
| PseudoLrus.PseudoLRUSwap.constructor | main/emulated/common/lru.hpp:82-91 | starts with all bits 0 and their pick |
| PseudoLrus.PseudoLRUSwap.Eval | main/emulated/common/lru.hpp:135-169 | applies the staged update, clears it, and picks the leaf the new bits point at |
| PseudoLrus.PseudoLRUSwap.Follow | main/emulated/common/lru.hpp:153-168 | the descent ends at the leaf the bits point at |
| PseudoLrus.PseudoLRUPick.constructor | main/emulated/common/lru.hpp:188-193 | starts with all bits 0, their order, and no valid index |
| PseudoLrus.PseudoLRUPick.GetPicked | main/emulated/common/lru.hpp:214-220 | the order at the picked rank; 0 when no index was marked valid |
| PseudoLrus.PseudoLRUPick.SetValid | main/emulated/common/lru.hpp:244-252 | moves the pick to the rank of the index if that is earlier, and only then |
| PseudoLrus.PseudoLRUPick.Expand | main/emulated/common/lru.hpp:288-305 | the reversed in-place doubling loop expands the order of one depth to that of the next without overwriting what it has still to read |
| PseudoLrus.PseudoLRUPick.Refresh | main/emulated/common/lru.hpp:280-308 | the array ends as the whole replacement order of the bits |
| PseudoLrus.PseudoLRUPick.Eval | main/emulated/common/lru.hpp:261-309 | applies the staged update, expands its order, and forgets the valid indices |
| PseudoLrus.OrdersExpand | main/emulated/common/lru.hpp:283-306 | the order of a depth is the one above with each node replaced by its children, the one its bit points at first |
| PseudoLrus.PickedIsLeast | main/emulated/common/lru.hpp:244-252 | after any calls the pick stands at the least rank of the indices marked valid |
| PseudoLrus.PickMatchesHardware | main/emulated/common/lru.hpp:213-252 | after any nonempty set of valid marks in any order the picked index is the first valid one of the order, and the one leaf the hardware valid and select trees raise |
| LruHardware.ClockedIsUpdate | main/verilog/common/lru/common_pseudo_lru_pick_onehot.v:152-175 | clocking the flip-flops with a one-hot write port is the emulated update; without write enable they hold |
| LruHardware.SwapSelectsPick | main/verilog/common/lru/common_pseudo_lru_swap_onehot.v:85-92 | the select tree raises exactly the emulated pick |
| LruHardware.PickSelectsFirstValid | main/verilog/common/lru/common_pseudo_lru_pick_onehot.v:50-121 | the valid and select trees raise exactly the first valid index of the order, and nothing when none is valid |
| LruHardware.SelectsAncestor | main/verilog/common/lru/common_pseudo_lru_pick_onehot.v:172-179 | at every depth exactly the ancestor of the first valid index is selected |
| LruHardware.CarryIsAncestor | main/verilog/common/lru/common_pseudo_lru_swap_onehot.v:36-83 | the carry of a one-hot write port is high exactly on the path of its index |
| LruHardware.TracesAgree | main/verilog/common/lru/common_pseudo_lru_swap_onehot.v:44-138 | from reset, for every trace of updates and idle cycles, flip-flops equal emulated bits and the swap output is one-hot at the emulated pick |
| CompressingMemories.EdgeRefinesList | main/emulated/core_global.hpp:420-456 | if edits target valid entries and a push the top address, an edge yields the age-ordered list in which an entry made invalid is gone, one given a payload has that and any other keeps its own, with the push appended as youngest |
| CompressingMemories.EdgePacks | main/emulated/core_global.hpp:420-456 | an edge without edits keeps the list and lowers the holes above the lowest valid entry by exactly one while there are any |
| CompressingMemories.EdgesPack | main/emulated/core_global.hpp:420-456 | k such edges remove min(k, holes) holes |
| CompressingMemories.NextTopIs | main/emulated/core_global.hpp:366-379 | without edits the next top address moves up exactly when there is a hole above it |
| CompressingMemories.UpperPart | main/emulated/core_global.hpp:425-450 | above the top address the entries with a hole at or above them move up one place with their edits |
| CompressingMemories.LowerPart | main/emulated/core_global.hpp:425-450 | at and below the landing address there is the pushed entry and nothing else |
| CompressingMemories.CompressingMemory.constructor | main/emulated/core_global.hpp:327-331 | starts empty with nothing staged |
| CompressingMemories.CompressingMemory.NextTopAddress | main/emulated/core_global.hpp:366-379 | the address below the lowest valid entry, -1 when address 0 is valid |
| CompressingMemories.CompressingMemory.Eval | main/emulated/core_global.hpp:420-456 | the downward in-place pass leaves at every address the entry the edge defines, and nothing staged |
| RingFifos.EdgeRefinesQueue | main/emulated/common/fifo.hpp:573-611 | accepted pops and pushes of one cycle turn the contents into themselves less the popped prefix plus the pushed payloads, positions staying in the ring |
| RingFifos.EdgePointers | main/emulated/common/fifo.hpp:579-607 | pointers and wrap bits stay in the ring and the count changes by pushes less pops |
| RingFifos.WrittenAt | main/emulated/common/fifo.hpp:576-577 | staged pushes land each at its own ring position and disturb no other |
| RingFifos.LastWriteStands | main/emulated/common/fifo.hpp:576-577 | of several staged writes to one index the last one stands |
| RingFifos.PointersMove | main/emulated/common/fifo.hpp:579-607 | a pointer set directly goes where it is set, with its wrap bit; otherwise it moves by its delta and the wrap bit turns when it passes the end; a reader set to the writer leaves nothing |
| RingFifos.WalkMeetsWriter | main/emulated/common/fifo.hpp:274-286 | walking from the read pointer meets the write pointer after exactly as many steps as there are payloads, also when full |
| RingFifos.VisitAll | main/emulated/common/fifo.hpp:432-441 | iterating from begin to end visits exactly the queue, in order |
| RingFifos.FIFO.constructor | main/emulated/common/fifo.hpp:359-373 | starts empty with nothing staged |
| RingFifos.FIFO.GetCount | main/emulated/common/fifo.hpp:414-417 | the length of the queue, between 0 and the size |
| RingFifos.FIFO.GetRemainingSize | main/emulated/common/fifo.hpp:408-411 | the size less the length |
| RingFifos.FIFO.IsEmpty | main/emulated/common/fifo.hpp:420-423 | true exactly when the queue is empty |
| RingFifos.FIFO.IsFull | main/emulated/common/fifo.hpp:426-429 | true exactly when the queue has the size of a nonempty memory |
| RingFifos.FIFO.PeekPayload | main/emulated/common/fifo.hpp:510-518 | the oldest payload, none when empty |
| RingFifos.FIFO.PopPayload | main/emulated/common/fifo.hpp:521-531 | accepted while fewer pops are staged than the queue is long |
| RingFifos.FIFO.PushPayload | main/emulated/common/fifo.hpp:534-546 | accepted while fewer pushes are staged than there is room, not counting pops of the same cycle; staged behind the others |
| RingFifos.FIFO.Eval | main/emulated/common/fifo.hpp:573-611 | staged writes and pointer sets are applied and cleared; without direct sets the queue loses its popped prefix and gains the pushed payloads |
| RingFifos.Iterator.Begin | main/emulated/common/fifo.hpp:432-435 | stands at the oldest payload |
| RingFifos.Iterator.InRange | main/emulated/common/fifo.hpp:252-256 | true exactly while there is a payload to look at |
| RingFifos.Iterator.Get | main/emulated/common/fifo.hpp:267-272 | the k-th payload, none where the source throws |
| RingFifos.Iterator.Advance | main/emulated/common/fifo.hpp:275-286 | one step further, none where the source throws |
| HardwareFifos.FifoEquivalence | main/verilog/common/fifo/common_fifo_ram_1w1r.v:52-157 | from matching reset words and occupancy, for every input trace, both FIFOs of a power-of-two depth show the same queue: same flags, and same output word whenever not empty |
| HardwareFifos.FifoStream | main/verilog/common/fifo/common_fifo_shift_1w1r.v:42-126 | for every trace from reset and both FIFOs, judged by flags and outputs alone: reset words followed by accepted words are the words given out followed by at most depth words, where a write is accepted unless full, or full and read in the same cycle |
| HardwareFifos.TracesShowQueue | main/verilog/common/fifo/common_fifo_shift_1w1r.v:42-126 | from any two states holding the same queue, both show it in every cycle of every trace |
| HardwareFifos.ShiftRefines | main/verilog/common/fifo/common_fifo_shift_1w1r.v:42-126 | flags and output show the queue, and an edge of the shift FIFO does the queue edge, also a write with a read when full |
| HardwareFifos.ShiftedWords | main/verilog/common/fifo/common_fifo_shift_1w1r.v:98-102 | the content words after an edge are the next queue, from the output back to the token |
| HardwareFifos.RingRefines | main/verilog/common/fifo/common_fifo_ram_1w1r.v:52-157 | flags and output show the queue, and an edge of the RAM FIFO does the queue edge, also a write with a read when full |
| HardwareFifos.RingShows | main/verilog/common/fifo/common_fifo_ram_1w1r.v:110-114 | the extra pointer bit tells full from empty |
| BypassBuffers.EdgeKeepsStream | main/verilog/common/buffer/common_bypass_buffer.v:58-74 | held and accepted words equal delivered and still-held ones in order; a word on offer that is not taken stays on offer |
| BypassBuffers.PassesThrough | main/verilog/common/buffer/common_bypass_buffer.v:61-74 | the buffer is ready exactly while it holds nothing, offers a word exactly when it holds or is offered one, passes one through to a ready consumer in the same cycle, and is emptied by it |
| CrossBuffers.GrantUnique2 | main/verilog/common/buffer/common_cross_buffer2.v:93-104 | a handshake grants exactly one port, which is valid and supplies the output; otherwise none is granted |
| CrossBuffers.SelectorCountsContests | main/verilog/common/buffer/common_cross_buffer2.v:91-98 | on every trace the selector is the parity of the handshakes both ports competed for |
| CrossBuffers.ServedExactly2 | main/verilog/common/buffer/common_cross_buffer2.v:93-104 | in every cycle of every trace a port alone is served by a ready consumer, and contested handshakes go to the ports in turn, port 0 first |
| CrossBuffers.StepMerges2 | main/verilog/common/buffer/common_cross_buffer2.v:100-104 | each cycle keeps: accepted words of a port are its delivered ones followed by its buffered one |
| CrossBuffers.StepFair2 | main/verilog/common/buffer/common_cross_buffer2.v:91-101 | each cycle keeps: an overtaken port is buffered and next in turn |
| CrossBuffers.CrossBuffer2 | main/verilog/common/buffer/common_cross_buffer2.v:91-104 | on every trace both, so a waiting port is overtaken at most once |
| CrossBuffers4.GrantUnique4 | main/verilog/common/buffer/common_cross_buffer4.v:183-223 | with a valid port and a ready consumer exactly one port is granted, it is valid and the masked or is its word; otherwise none is |
| CrossBuffers4.StepMerges4 | main/verilog/common/buffer/common_cross_buffer4.v:211-223 | each cycle keeps: accepted words of a port are its delivered ones followed by its buffered one |
| CrossBuffers4.StepPairsFair | main/verilog/common/buffer/common_cross_buffer4.v:203-209 | each cycle keeps: an overtaken pair has a buffered word and is next in turn |
| CrossBuffers4.StepFirstPairFair | main/verilog/common/buffer/common_cross_buffer4.v:198-209 | each cycle keeps the bound on how often a waiting port of the first pair is overtaken |
| CrossBuffers4.CrossBuffer4 | main/verilog/common/buffer/common_cross_buffer4.v:187-223 | on every trace: merging, a waiting pair overtaken at most once by the other pair, a waiting port of the first pair at most three times |
| CrossBuffers4.BitsRememberOutput | main/verilog/common/buffer/common_cross_buffer4.v:203-208 | on every trace the pair bit says whether the last word delivered came from the first pair, and the first pair's bit whether the last word delivered from ports 0 and 1 came from port 0 |
| CrossBuffers4.ServedExactly | main/verilog/common/buffer/common_cross_buffer4.v:190-201 | in every cycle of every trace a port is served if and only if the consumer is ready, it has a word on offer, the other pair was served last or has none, and its partner has none or the last word delivered from ports 0 and 1 favours it: for port 3 one from port 0, for port 2 none or one from port 1 |
| CrossBuffers4.WaitEndsExactly | main/verilog/common/buffer/common_cross_buffer4.v:190-223 | a port waiting since one cycle is served before another if and only if in some cycle between the consumer is ready, the other pair was served last or has nothing, and the port is favoured or its partner has nothing |
| CrossBuffers4.StaysOnOffer | main/verilog/common/buffer/common_bypass_buffer.v:61-74 | a word on offer at a port that is not served is on offer in the next cycle |
| CrossBuffers4.PortThreeStarves | main/verilog/common/buffer/common_cross_buffer4.v:200-201 | with ports 2 and 3 always valid and 0 and 1 never, every cycle with a ready consumer delivers a word of port 2, none of port 3 is ever delivered, and port 3 holds a waiting word |
| CrossBuffers4.PortThreeStarvesReady | main/verilog/common/buffer/common_cross_buffer4.v:200-201 | with a consumer that is always ready such a trace delivers as many words as it has cycles, all of port 2 |
| Freelists.Conservation | test/verilated/rat_freelist_checkpoint/csrc/main.cpp:110-224 | over every run without a clash, that is, in which no cycle pushes into a bank it commits: accepted pushes equal banked plus popped plus given-back values as multisets, invalid banks are empty, no bank exceeds four, and each bank pops in push order |
| Freelists.KeptExactly | test/verilated/rat_freelist_checkpoint/csrc/main.cpp:110-224 | a run keeps invalid-is-empty and the capacity throughout if and only if it has no clash |
| Freelists.DistinctGroupsNeverClash | test/verilated/rat_freelist_checkpoint/csrc/main.cpp:920-1007 | a run that never commits the group it pushes for in the same cycle, as the bench ensures, has no clash |
| Freelists.InvariantKept | test/verilated/rat_freelist_checkpoint/csrc/main.cpp:110-173 | a cycle keeps invalid-is-empty and the capacity if and only if its push does not join a bank it commits |
| Freelists.AnsweredExactly | test/verilated/rat_freelist_checkpoint/csrc/main.cpp:110-193 | a push is accepted if and only if some bank is invalid, or is live, of its group, and holds fewer than 4 words; a pop finds nothing if and only if every abandoned bank is empty |
| Freelists.StatesExactly | test/verilated/rat_freelist_checkpoint/csrc/main.cpp:110-224 | without a clash: an abandoned bank becomes invalid when it was empty and stays otherwise; an invalid one becomes live exactly with a push; a live one becomes invalid with the commit of its group, else abandoned with its abandonment, else stays; the group changes with the first push only |
| Freelists.ClashReached | test/verilated/rat_freelist_checkpoint/csrc/main.cpp:110-173 | two cycles after reset a clash leaves an invalid bank holding both words of the group |
| Freelists.BanksConserve | test/verilated/rat_freelist_checkpoint/csrc/main.cpp:195-224 | one cycle over any number of banks: nothing appears or vanishes |
| Freelists.BankInOrder | test/verilated/rat_freelist_checkpoint/csrc/main.cpp:204-215 | one bank over one cycle: what it was pushed is what it popped followed by what it holds, oldest first |
| Freelists.StagedCalls | test/verilated/rat_freelist_checkpoint/csrc/main.cpp:110-193 | what all calls of a cycle stage for a bank, and which bank each call works on, from the state at its start |
| Freelists.PushTarget | test/verilated/rat_freelist_checkpoint/csrc/main.cpp:112-133 | the first bank that is invalid, or live, of the group, and holds fewer than 4 words; -1 exactly when there is none |
| Freelists.PopTarget | test/verilated/rat_freelist_checkpoint/csrc/main.cpp:177-190 | the first abandoned bank that is not empty; -1 exactly when there is none |
| FreelistModels.FreelistModel.constructor | test/verilated/rat_freelist_checkpoint/csrc/main.cpp:77-97 | all banks invalid and empty, nothing staged |
| FreelistModels.FreelistModel.Push | test/verilated/rat_freelist_checkpoint/csrc/main.cpp:110-136 | stages the push for the first bank that takes it, fails without effect otherwise |
| FreelistModels.FreelistModel.Abandon | test/verilated/rat_freelist_checkpoint/csrc/main.cpp:138-154 | stages abandonment of every live bank of the group and returns how many |
| FreelistModels.FreelistModel.Commit | test/verilated/rat_freelist_checkpoint/csrc/main.cpp:156-173 | stages clearing of every live bank of the group and returns how many |
| FreelistModels.FreelistModel.Pop | test/verilated/rat_freelist_checkpoint/csrc/main.cpp:175-193 | returns the oldest value of the first abandoned bank that has one and stages its removal |
| FreelistModels.FreelistModel.Eval | test/verilated/rat_freelist_checkpoint/csrc/main.cpp:195-224 | drained abandoned banks become invalid, staged values take effect, nothing stays staged |

## Left out

- RenamingTheorems.RenamingPreservesMeaning: covers straight-line instructions with restores as squashes; what branches compute and when they redirect fetch is not modelled.
- RenamingRecovery.CheckpointRecovery: speaks of restores the protocol allows; what any other restore does to the mapping is AliasRecovery.RecoveredExactly, and nothing is claimed about the values behind it.
- CrossBuffers4.CrossBuffer4: bounds the waiting of pairs and of ports 0 and 1; for ports 2 and 3 there is no bound, as PortThreeStarves shows, and WaitEndsExactly says when they are served.
- RingFifos.FIFO.Eval: with direct pointer sets only the pointers and the memory are described; that a caller sets them to a meaningful queue is not claimed.
- Freelists.Conservation: takes the calls of a cycle in the order abandon, commit, pop, push, as the bench makes them; `pop_back` on an empty bank, undefined in C++, cannot occur in these runs and is modelled as no effect.
- Freelists.InvariantKept: a push that joins a bank committed in the same cycle leaves an invalid bank with a value (ClashReached); the condition that excludes it is exact, and nothing is claimed after such a cycle.
- PseudoLrus.PseudoLRUPick.GetPicked: with no index marked valid it returns 0, like the source; nothing more is claimed.
- The simulator's out-of-order pipeline (fetch, reservation, execution, reorder buffer): only rename order, commit order and the meaning of instructions are used; forwarding of results before commit is not modelled.
- The scoreboard's forward flag, and `SetBusy` called outside landing and take-off.
- The shadow table's own lookup, which reads V bits that are never cleared.
- The fetch-group checkpoint table of `core_global.hpp`, whose walk is unfinished.
- The flushable bypass buffer, which has no stream property.
- The fetch identifier parameter of `Touch`, which is unused, and the bound checks and plain field accessors.
- Copy constructors, destructors, `Clear`, `IsPicked`, `ResetUpdate` and iterator comparison.
- Reset in the middle of a trace, X values, and timing inside a cycle of the Verilog modules.
- `memory.hpp`, the instruction decoders and executors, CSR files, consoles, benches, random numbers and waveforms.
