# Verified model of Luci

Luci is a dynamic linker and loader that replaces code in a running process. This project models the
parts of it that are hard to get right and proves what they keep, in Dafny 4.11. `dafny verify
dfyconfig.toml` checks all of it.

| module | what it models |
|---|---|
| `Symbols` | symbol resolution over namespaces, lookup order, dependencies and weak definitions |
| `LiveUpdate`, `Linker` | loading new versions and rebinding relocations; whole runs on values, and the loops that do it in place |
| `Binding` | which definition a relocation is bound to, in terms of load order, flags and dependencies |
| `Redirect` | traps in old code that become jumps once every task has hit them, as steps of all tasks |
| `Segment` | composing changes to a mapped segment in a back buffer, publishing, disabling and faulting it back in |
| `Dependencies` | preparing and initializing objects in dependency order, with cycles and failures |
| `VersionChain` | the linked chain of versions of a file and the queue of versions to disable |
| `Trampoline` | trampolines for looked-up symbols |
| `GotRelax` | rewriting instructions that go through the global offset table |
| `Addresses` | address reservation |
| `Relocatable` | symbols and sections of relocatable objects over a chain of versions |
| `DataAlias` | data shared by all versions of a file, and its duplication by fork |
| `Debounce` | the delayed worklist of modified files |
| `InitialStack` | the stack of the started program, and the environment partition |
| `Tls` | static and lazily allocated thread-local storage |
| `SymbolVersion` | symbol version indices |
| `Common` | types that several modules share |
| `ChessBoard`, `Chess` | the rules of the chess example on the squares of its board, and its alpha-beta search |

Objects whose methods update fields are classes; each such method is proved against a function or
relation on values (`View()`, `Pending`, ...), and the theorems about whole runs are about those.

## What turned out not to hold

Where the code does not meet a property for all inputs, the model keeps the code and states the exact
condition.

- A relative jump is chosen up to a distance of four gigabytes but reaches two (`Redirect.JumpLandsIff`).
  The comment in the source speaks of two.
- A function too short for a jump saves bytes of its neighbour, which may be a trap already
  (`Redirect.ShortFunctionSavesTrap`); the saved bytes are the original ones exactly under
  `Redirect.SavesOriginalIff`.
- Two loads of one file without an update between them can leave a binding to the oldest version
  (`LiveUpdate.SecondLoadLeavesStaleBinding`), and so can clearing `bind_global`
  (`LiveUpdate.ClearedGlobalLeavesStaleBinding`); otherwise none is left (`LiveUpdate.NoStaleBindings`).
- A file with priority that cannot be loaded stays in the load order, and the last file is forgotten instead
  (`Binding.GivenUpRestoresIff`).
- Disabling a segment drops an unpublished buffer of an anonymous mapping (`Segment.SecondWriteDropped`),
  and all changes to the file when there is no memory for a buffer and the segment starts inside a page
  (`Segment.ChangesDropped`); `Segment.DisableKeepsContentIff` is the exact condition.
- A segment that was disabled, faulted in and finalized takes no write (`Segment.RepublishedCannotCompose`)
  until it is disabled again (exact condition `Segment.RepublishedTakesIff`), and a failed buffer is reported
  as null only for page-aligned offsets (`Segment.MemorySegment.ComposePointer`).
- A finalize that cannot move the back buffer leaves it protected, so that the next write faults
  (`Segment.FailedPublishFaults`), and so does a disable that cannot unprotect the pages it moved
  (`Segment.ProtectedMoveFaults`); `Segment.RunWritableIff` is the exact condition over all runs.
- A finalize that cannot protect the back buffer but moves it reports a failure, yet the next one reports success
  without protecting the pages (`Segment.ProtectionForgotten`; exact condition `Segment.FinalizeProtectsIff`).
- A jump that could not be published is not asked for again by the tasks that hit the trap already
  (`Redirect.JumpAskedIff`).
- A jump can be in the code while its entry is still to be made static, or the other way round, when
  finalize returns something else than it did (exact condition `Redirect.MadeStaticIff`).
- A failed preparation leaves objects half prepared for good (`Dependencies.Identities.PrepareAll`).
- A rejected load at a fixed address gives back address 0 and forgets reservations
  (`Addresses.ForgottenReservationOverlaps`), and so does a rejected update of a relocatable object, which
  gives back the base of its first version (`Addresses.RejectedUpdateForgetsBlock`); exact conditions are
  `Addresses.ReleaseKeepsCoveredIff`, `Addresses.StepIsSafeIff` and, over runs, `Addresses.ObjectsStayDisjointIff`.
- An object that reaches into the loader is not looked at, so that the next one overlaps it
  (`Addresses.ObjectAtLoaderOverlaps`; exact condition `Addresses.NextIsAboveMappedIff`).
- Static thread-local blocks are misaligned when alignments grow (`Tls.GrowingAlignmentMisaligns`; exact
  condition `Tls.AlignedIff`).
- A fork copies as many bytes as the newest version's segment has: older, longer segments lose the rest
  (`DataAlias.ForkLosesSecondPage`; exact condition `DataAlias.ForkKeepsDataIff`), and a segment longer
  than its memory file makes the copy loop run forever (`DataAlias.Memory.CopyRequests`).
- A library opened by dlopen has a memory file but is not updatable any more by default, so that a child
  maps it from its image and loses its data (`DataAlias.DlopenedForkLosesData`; same exact condition).
- A clone that fails leaves the copies open in the parent (`DataAlias.FailedCloneKeepsCopy`; exact condition
  in `DataAlias.Memory.Fork`).
- The overflow of the notification queue is announced as a check of all objects, but schedules nothing,
  since the kernel reports it without a watch (`Debounce.Worklist.Handle`).
- The stack pointer handed to the program is 16-byte aligned only for an odd number of strings
  (`InitialStack.Process.Init`).
- A needed version can be answered by a definition of the same name when there is no base entry
  (`SymbolVersion.DefinitionAnswersForNeeded`; exact condition `SymbolVersion.NeededRoundTripIff`).
- The chess search never castles (`Chess.CastlingNeverTried`), and searches nothing for levels above 127
  (`Chess.Search.AiMove`).

## Model

| member | source | states |
|---|---|---|
| `ChessBoard.LegalMoves` | example/chess/base/board.c:138-146 | only moves of an own piece to another square without an own one are legal |
| `ChessBoard.PawnMovesIff` | example/chess/base/board.c:147-152 | on the squares of the board: one row onto an empty square, two from the first row over an empty one, or diagonally onto a piece of the opponent or behind a pawn that just passed |
| `ChessBoard.RookMovesIff` | example/chess/base/board.c:154-167 | a rook moves along its column or row if and only if all squares between are empty |
| `ChessBoard.BishopMovesIff` | example/chess/base/board.c:168-176 | a bishop moves along a diagonal if and only if all squares between are empty |
| `ChessBoard.QueenMovesIff` | example/chess/base/board.c:153-178 | a queen does either |
| `ChessBoard.KnightMovesIff` | example/chess/base/board.c:179-180 | a knight has its eight jumps, whatever stands between |
| `ChessBoard.KingMovesIff` | example/chess/base/board.c:181-190 | a king goes to a neighbouring square or castles, and never to a captured square |
| `ChessBoard.CastlesIff` | example/chess/base/board.c:187-188 | castling: king and rook on their first squares, the rook never moved, empty squares between, and the king neither captured where it stands nor on the square it crosses |
| `ChessBoard.CapturedIff` | example/chess/base/board.c:78-126 | a square is captured if and only if the opponent could take a piece on it by the rules of movement, or has its king next to it |
| `Chess.TargetsComplete` | example/chess/base/ai.c:164-243 | the targets tried for a piece contain the target of every legal move of that piece except castling |
| `Chess.CastlingNeverTried` | example/chess/base/ai.c:188-217 | the two castling tries of the search are never legal: the search looks for the king on the far row, the rules allow castling on the home row |
| `Chess.BestOfIsUpperBound` | example/chess/base/ai.c:129-245 | the reference value bounds the value of every playable move |
| `Chess.BestOfIsAttained` | example/chess/base/ai.c:129-245 | the reference value is attained by a playable move unless it is the lower limit |
| `Chess.ValueIsMaximum` | example/chess/base/ai.c:129-245 | the reference value of a position is the maximum over all playable moves |
| `Chess.MoveTried` | example/chess/base/ai.c:97-126 | one tried move: a fail-soft answer for the narrowed window keeps the search invariant, or proves that the cut-off is right |
| `Chess.SquareDone` | example/chess/base/ai.c:164-243 | after the tries for a square, every playable move from it is accounted for |
| `Chess.Search.PlayAndUndo` | example/chess/base/ai.c:97-126 | move, search and undo leave the board and the selected move as they were and answer fail-soft for the move |
| `Chess.Search.TryMove` | example/chess/base/ai.c:97-126 | alpha, best value and recorded move after one try |
| `Chess.Search.SearchFrom` | example/chess/base/ai.c:164-243 | all tries for one piece, or a justified cut-off |
| `Chess.Search.SearchSquare` | example/chess/base/ai.c:164-243 | one square: the invariant for all squares up to it, or a justified cut-off |
| `Chess.Search.SearchBoard` | example/chess/base/ai.c:161-244 | the loops over the board answer fail-soft for the window and record a move that has the value |
| `Chess.CutOffFailsSoft` | example/chess/base/ai.c:97-126 | returning at a cut-off is a fail-soft answer |
| `Chess.SearchFailsSoft` | example/chess/base/ai.c:161-244 | so is the best value after all squares |
| `Chess.Search.Negamax` | example/chess/base/ai.c:129-245 | fail-soft alpha-beta against plain negamax for every window: exact inside, a bound of the right side outside; the board is restored; the recorded move is legal and has the returned value |
| `Chess.Search.AiMove` | example/chess/base/ai.c:247-254 | the full search returns the plain negamax value for the level as a signed depth of 8 bits; a move is selected if and only if the level is below 128 and that value is above the lower limit, and then it is legal and has that value |
| `Chess.AppliedSquare` | example/chess/base/ai.c:111-126 | square by square: the board after a move, with promotion |
| `Symbols.ResolveFinds` | src/loader.cpp:637-690 | resolution succeeds if and only if a file of the scope defines the name, and yields the definition of the current version of such a file |
| `Symbols.FirstMatchWins` | src/object/base.cpp:259-272 | without dynamic_weak the first definition in the scope wins |
| `Symbols.SkipSeen` | src/loader.cpp:664-680 | skipping a file that was searched before does not change the outcome, also with weak definitions |
| `Symbols.HasSymbol` | src/object/base.cpp:259-272 | one file: stop at a final match, else remember the first weak one |
| `Symbols.SearchGlobalFile` | src/loader.cpp:648-662 | one file of the lookup list, with the object-relative modes |
| `Symbols.SearchGlobal` | src/loader.cpp:648-662 | the loop over the lookup list searches exactly the global part of the scope |
| `Symbols.SearchDependency` | src/loader.cpp:664-680 | one dependency, skipped when it is in the global scope |
| `Symbols.SearchDependencies` | src/loader.cpp:664-680 | the loop over the dependencies searches the rest of the scope |
| `Symbols.ResolveSymbol` | src/loader.cpp:637-690 | the search with its skips and early exits equals the choice from a flat list: first strong definition, else first weak one |
| `Binding.BoundDeeply` | src/object/dynamic.cpp:397-398 | a name that a deeply bound file defines is bound to it, unless it is a COPY relocation |
| `Binding.BoundGlobally` | src/loader.cpp:648-661 | otherwise it is bound to the first global file in load order that defines it, for a COPY relocation the first other one |
| `Binding.BoundToDependency` | src/loader.cpp:663-680 | if there is none, to the first dependency that defines it |
| `Binding.BoundToOwn` | src/loader.cpp:681-686 | if there is none either, to the own file, in particular a COPY relocation |
| `Binding.FoundAfter` | src/loader.cpp:649-655 | a search after a file finds the first global file behind it in load order |
| `Binding.FoundWithoutDependencies` | src/loader.cpp:637-691 | a search without dependencies finds the first global file |
| `Binding.DependenciesIgnored` | src/loader.cpp:663-666 | if there is none, the own file or nothing |
| `Binding.WeakGivesWay` | src/object/base.cpp:259-275 | with dynamic_weak a strong definition beats every weak one however early, and else nothing changes |
| `Binding.OpenedOrder` | src/loader.cpp:211 | a new file gets its place in the load order and the others keep theirs |
| `Binding.GivenUpRestoresIff` | src/loader.cpp:211-224 | giving up a file that cannot be loaded restores the load order if and only if it was put at the end |
| `Binding.DependencyAdded` | src/loader.cpp:663-680 | a dependency is searched after those added before |
| `Binding.ReopenedBinds` | src/loader.cpp:231-241 | what the flags of dlopen change for bindings |
| `Binding.UpdatedEntryIs` | src/object/dynamic.cpp:324-334 | exactly which cached bindings an update changes, and that they become what a fresh search gives |
| `Binding.LoadedIff` | src/object/dynamic.cpp:424-464 | a new version is accepted if and only if it is compatible and defines all names taken from the one it replaces |
| `Binding.PreparedBinds` | src/object/dynamic.cpp:232-239 | preparing binds every need that resolves before the first missing strong one, as a fresh search gives it |
| `Binding.PreparedStops` | src/object/dynamic.cpp:237-239 | a missing strong symbol ends it |
| `Binding.PreparedOnly` | src/object/dynamic.cpp:232-239 | nothing else is bound |
| `LiveUpdate.BindFinds` | src/object/dynamic.cpp:350-422 | a relocation is bound if and only if a file in scope defines its name, whatever the mode |
| `LiveUpdate.BindIgnoresCaches` | src/object/dynamic.cpp:350-422 | what a relocation is bound to does not depend on the caches of bindings |
| `LiveUpdate.UpdatedEntry` | src/object/dynamic.cpp:324-334 | exactly which visited bindings point to a latest version after an update |
| `LiveUpdate.UpdateStaleFreeIff` | src/object/identity.cpp:571-599 | an update leaves no stale binding if and only if every outdated binding has a name that its scope still defines |
| `LiveUpdate.NewVersionKeepsBinding` | src/object/dynamic.cpp:424-464 | the symbol check before an update keeps bindings of other latest versions defined |
| `LiveUpdate.UpdatedGood` | src/loader.cpp:258-298 | an update makes all bindings of latest versions good and none stale |
| `LiveUpdate.ExtendsGood` | src/loader.cpp:175-230 | opening files and adding dependencies keep bindings good |
| `LiveUpdate.ReopenedGood` | src/loader.cpp:233-247 | opening a file again with other flags keeps bindings good if no file that is bound to leaves a scope |
| `LiveUpdate.GlobalKeepsScopes` | src/loader.cpp:233-247 | none does unless bind_global is cleared |
| `LiveUpdate.ClearedGlobalLeavesStaleBinding` | src/loader.cpp:233-247 | a concrete run: bind_global is cleared, a new version is loaded and the update leaves the old binding |
| `LiveUpdate.StepKeepsCachesGood` | src/loader.cpp:258-298 | every step keeps bindings good if no file is loaded twice between updates and no needed file leaves a scope |
| `LiveUpdate.NoStaleBindings` | src/loader.cpp:288-298 | in every run that loads no file twice between two updates and takes no needed file out of a scope, no binding of a latest version is stale after an update; this is for the default that altered relocation contents are not looked for, and for files that pass the symbol check, which relocatable ones do not |
| `LiveUpdate.SecondLoadLeavesStaleBinding` | src/object/dynamic.cpp:447-462 | without the first condition it fails: two loads in a row, the second without the name, leave a binding to the oldest version |
| `LiveUpdate.TwoLoadsHappen` | src/object/dynamic.cpp:447-462 | a concrete application and library that do this |
| `Linker.ReboundIgnoresOthers` | src/object/dynamic.cpp:324-334 | rebinding one entry does not depend on entries rebound before |
| `Linker.Linker.constructor` | src/loader.cpp:175-230 | nothing is loaded, all bindings are good |
| `Linker.Linker.Open` | src/loader.cpp:209-220 | a file and its first version are added in place |
| `Linker.Linker.Reopen` | src/loader.cpp:235-241 | the flags of a file are replaced |
| `Linker.Linker.Relocate` | src/object/dynamic.cpp:350-422 | one entry: bound if the symbol is found; fatal if and only if a strong symbol is missing |
| `Linker.Linker.UpdateEntry` | src/object/dynamic.cpp:324-334 | one entry of the update loop |
| `Linker.Linker.UpdateObject` | src/object/dynamic.cpp:324-334 | the loop over the cache, in any order, rebinds exactly the outdated entries |
| `Linker.Linker.UpdateFile` | src/object/identity.cpp:581-587 | the current version, and the older ones if they are to be updated |
| `Linker.Linker.Update` | src/loader.cpp:268-273 | the in-place loops over files, versions and entries equal the update of all entries at once |
| `Linker.Linker.CheckPatchable` | src/object/dynamic.cpp:447-462 | the nested search answers the symbol check |
| `Linker.Linker.Prepare` | src/object/dynamic.cpp:232-265 | binding the entries of a new version up to a missing strong symbol |
| `Linker.Linker.Load` | src/object/identity.cpp:336-533 | a load either puts a prepared version in front or changes nothing |
| `Redirect.Read8Is` | src/redirect.cpp:135-154 | the address in an absolute jump is read with its lowest byte first |
| `Redirect.JumpLandsIff` | src/redirect.cpp:108-157 | the written jump reaches its target if and only if it is absolute or the target is within two gigabytes |
| `Redirect.FarRelativeJumpMisses` | src/redirect.cpp:108-111 | between two and four gigabytes a relative jump is chosen and misses |
| `Redirect.StaticFits` | src/redirect.cpp:257-326 | a redirection becomes static only when asked for and when the jump fits the function |
| `Redirect.StepIsSafe` | src/redirect.cpp:165-214 | every step of every task keeps: the bytes an entry may write were saved as they were originally, all other bytes are unchanged, written bytes do not overlap, a jump fits its function, and no task that passed a trap or counts when the jump is written is inside its bytes |
| `Redirect.RunIsSafe` | src/redirect.cpp:165-214 | the same over all runs and interleavings |
| `Redirect.PatchesIff` | src/redirect.cpp:193-208 | a jump gets into the code exactly by a trap handler that is asked for it, or by a later publication of the back buffer it waits in |
| `Redirect.PatchIsSafe` | src/redirect.cpp:193-208 | at the moment of the patch no task but the helper is inside the overwritten bytes, and the jump fits the function and the saved bytes |
| `Redirect.MadeStaticIff` | src/redirect.cpp:202-205 | after the handler asked for the jump, the entry counts as static exactly when the jump is in the code if and only if the publication returns what it did |
| `Redirect.EveryPatchIsSafe` | src/redirect.cpp:165-214 | that holds for every patch of every run from an unredirected program, also when the jump is published later or the publication is reported as failed |
| `Redirect.RemembersIff` | src/redirect.cpp:193-201 | exactly the tasks that hit a trap in the run are remembered |
| `Redirect.JumpAskedIff` | src/redirect.cpp:193-205 | over all runs, a trap asks for the jump if and only if the redirection is to be made static, all other tasks but the helper have hit it, and this one has not before |
| `Redirect.LeadsToTarget` | src/redirect.cpp:190-191 | a task at a redirected address continues at the target that was added, through the trap or the jump |
| `Redirect.SavesOriginalIff` | src/redirect.cpp:266-274 | all saved bytes are the original ones if and only if no earlier patch shows another byte among them |
| `Redirect.ShortFunctionSavesTrap` | src/redirect.cpp:266-274 | a run in which a short function saves the trap of its neighbour |
| `Redirect.PatchedCodeJumps` | src/redirect.cpp:120-157 | patched code holds the jump; it leads to the target if and only if the distance is not between two and four gigabytes |
| `Redirect.Redirections.constructor` | src/redirect.cpp:69-72 | a program without redirections meets the invariant |
| `Redirect.Redirections.CheckAllTasks` | src/redirect.cpp:93-101 | the loop over the tasks: all but the helper are listed |
| `Redirect.Redirections.TrapHandler` | src/redirect.cpp:165-214 | the trap handler makes the Trap step, for everything the publication can do and return |
| `Redirect.Redirections.StaticRedirect` | src/redirect.cpp:120-157 | the jump gets nowhere, into the back buffer, or into the code |
| `Redirect.Redirections.AddRedirection` | src/redirect.cpp:257-326 | adding a redirection makes the Add step |
| `Segment.ApplyContent` | src/memory_segment.cpp:104-237 | each operation changes the intended contents by exactly its write, which takes place if and only if there is or can be a back buffer that is writable |
| `Segment.ApplyLive` | src/memory_segment.cpp:131-167 | what the process sees changes only to the whole intended contents |
| `Segment.RunContent` | src/memory_segment.cpp:104-237 | over all runs without a lossy disable, the intended contents are the original ones overlaid with all writes that took place |
| `Segment.RunByte` | src/memory_segment.cpp:104-237 | byte by byte: after every run without a lossy disable there is what the last write that took place there stored, or else what was there |
| `Segment.RunLive` | src/memory_segment.cpp:104-237 | at any time the process sees the complete intended contents of some earlier moment, never a partial update |
| `Segment.PublishShowsAllWrites` | src/memory_segment.cpp:131-167 | a successful finalize shows all composed writes at once |
| `Segment.FaultShowsAllWrites` | src/loader_helper.cpp:206-250 | a fault in a disabled segment brings back its contents with all composed writes, in every run without a lossy disable |
| `Segment.DisableKeepsContentIff` | src/memory_segment.cpp:169-237 | disable keeps the intended contents if and only if it drops neither an unpublished buffer of an anonymous mapping nor, without memory for a buffer and for a segment that starts inside a page, all changes to the file; and what is left otherwise |
| `Segment.SecondWriteDropped` | src/memory_segment.cpp:192-208 | a run of successful calls after which a composed write is gone |
| `Segment.ChangesDropped` | src/memory_segment.cpp:195-201 | a disable without memory for a buffer succeeds and the next access shows the file |
| `Segment.ComposeFailsIff` | src/memory_segment.cpp:104-129 | exactly when composing gives no place: without a back buffer, and without memory for one or for a segment that is not "mapped" any more; a write takes place if and only if there is one and the buffer is writable |
| `Segment.ApplyWritableIff` | src/memory_segment.cpp:104-237 | exactly which operations leave a back buffer that can be written |
| `Segment.RunWritableIff` | src/memory_segment.cpp:104-237 | over all runs, there is a writable back buffer if and only if some operation opened one and none published, protected or replaced it since |
| `Segment.FailedPublishFaults` | src/memory_segment.cpp:136-154 | after a write and a finalize that cannot move the buffer, every further write faults |
| `Segment.ProtectedMoveFaults` | src/memory_segment.cpp:219-231 | so does every write to a segment whose pages disable moved but could not unprotect, although it succeeds |
| `Segment.RepublishedCannotCompose` | src/memory_segment.cpp:104-129 | right after disable, fault and finalize a segment takes no write |
| `Segment.RepublishedTakesIff` | src/memory_segment.cpp:104-237 | over all runs from there, a write is taken if and only if the segment was disabled again with pages that can be written, and that buffer was neither published nor protected since |
| `Segment.DisabledAgainComposes` | src/memory_segment.cpp:202-231 | one further disable makes it take writes again, with the same contents |
| `Segment.ComposePlace` | src/memory_segment.cpp:104-129 | where writes go, before and after the start of the process |
| `Segment.EarlyWrite` | src/memory_segment.cpp:114-118 | a write before the start is seen at once, and finalize protects it |
| `Segment.FinalizeProtectsIff` | src/memory_segment.cpp:131-167 | what a successful finalize leaves, and exactly when the pages have the protection of the segment |
| `Segment.ProtectionForgotten` | src/memory_segment.cpp:136-162 | a run in which they do not, although finalize succeeds |
| `Segment.DisableSucceedsIff` | src/memory_segment.cpp:169-237 | exactly when disable reports success |
| `Segment.PagesCoverSegment` | src/memory_segment.hpp:74-87 | the pages of a segment are the fewest that hold it |
| `Segment.ComposeOffsetIff` | src/object/base.hpp:147-160 | the place in the back buffer is right if and only if the base is page-aligned |
| `Segment.MemorySegment.constructor` | src/memory_segment.cpp:34-101 | a segment after mapping |
| `Segment.MemorySegment.Compose` | src/memory_segment.cpp:104-129 | the back buffer in memory; nothing else changes; the returned address for each outcome |
| `Segment.MemorySegment.ComposePointer` | src/object/base.hpp:147-160 | the address to write to; a failed buffer is reported as null if and only if the offset is a multiple of the page size |
| `Segment.MemorySegment.StoreComposed` | src/object/base.hpp:147-160 | a store through the composed pointer is the abstract write; exactly when it is done, refused, faults on a protected buffer, or goes to a low address, which is without a buffer in a segment that starts inside a page |
| `Segment.MemorySegment.RemapBuffer` | src/memory_segment.cpp:143-160 | the remap replaces the target pages in one step and touches no other byte |
| `Segment.MemorySegment.FinalizeSegment` | src/memory_segment.cpp:131-167 | finalize with its two failing calls and the protection that the buffer is left with |
| `Segment.MemorySegment.MoveAside` | src/memory_segment.cpp:205-237 | moving the pages aside keeps their bytes as the back buffer, which is writable if it was made so or the pages were |
| `Segment.MemorySegment.MoveToZero` | src/memory_segment.cpp:219-229 | the same to address 0, which counts as no buffer |
| `Segment.MemorySegment.MakePrivateMapping` | src/memory_segment.cpp:192-208 | the steps up to the registration, with the place to move to |
| `Segment.MemorySegment.DisableSegment` | src/memory_segment.cpp:169-237 | disable of a read-only segment |
| `Segment.MemorySegment.HandleFault` | src/loader_helper.cpp:206-250 | the copy for a fault, from the buffer or from the file |
| `Dependencies.DependencyFirst` | src/object/identity.cpp:542-568 | in the order that results, a dependency that does not depend back comes first |
| `Dependencies.AcyclicFirst` | src/object/identity.cpp:542-568 | without cycles every dependency comes first |
| `Dependencies.Identities.constructor` | src/object/identity.cpp:542-568 | all objects are mapped only |
| `Dependencies.Identities.Prepare` | src/object/identity.cpp:542-568 | the recursive walk over a possibly cyclic graph ends, runs each routine at most once and after its dependencies, and stops at a failing one |
| `Dependencies.Identities.PrepareAll` | src/loader.cpp:263-266 | all files: it succeeds if and only if every pending routine does; also when it fails, each routine ran at most once and in order; all are prepared then if and only if no earlier failure left one half prepared |
| `Dependencies.Identities.Initialize` | src/object/identity.cpp:612-627 | the same for initialization, with the flag set first, and the log in order on every exit |
| `Dependencies.Identities.InitializeAll` | src/loader.cpp:375-378 | it succeeds if and only if every pending routine does; each object is initialized at most once and after its dependencies, and all are on success |
| `VersionChain.Outcome` | src/object/identity.cpp:336-533 | loading succeeds if and only if all checks that apply pass |
| `VersionChain.Identity.HasIdentical` | src/object/identity.cpp:344-350 | the search for a version with the same hash and size |
| `VersionChain.Identity.FindBefore` | src/object/base.cpp:44-46 | the version in front of a given one |
| `VersionChain.Identity.CutAfter` | src/object/base.cpp:40-50 | taking a version out keeps the chain linked |
| `VersionChain.Identity.Unlink` | src/object/base.cpp:40-50 | unlinking removes exactly that version, wherever it is |
| `VersionChain.Identity.Discard` | src/object/identity.cpp:336-533 | deleting an object that is not in the chain changes nothing |
| `VersionChain.Identity.Adopt` | src/object/identity.cpp:336-533 | the part after the object is created: front of the chain, or rolled back |
| `VersionChain.Identity.Create` | src/object/identity.cpp:336-533 | every failing exit leaves the chain as it was, a success puts the new version in front of it |
| `VersionChain.Helper.LoadOne` | src/loader_helper.cpp:117-133 | the version queued for disabling is the one just replaced |
| `VersionChain.Helper.LoadAll` | src/loader_helper.cpp:117-133 | over any sequence of loads the chain only grows at its front, and no version queued for disabling is the current one |
| `Trampoline.EntryJumpsThroughSlot` | src/trampoline.cpp:53-109 | the code of an entry jumps through its own slot |
| `Trampoline.IndicesApart` | src/trampoline.cpp:40-50 | different indices have disjoint code and slots |
| `Trampoline.Trampoline.constructor` | src/trampoline.cpp:17-19 | no blocks and no symbols |
| `Trampoline.Trampoline.StoredIndexReady` | src/trampoline.cpp:53-109 | every stored symbol has a block, code and a slot |
| `Trampoline.Trampoline.Index` | src/trampoline.cpp:26-38 | only functions are found again |
| `Trampoline.Trampoline.FillBlock` | src/trampoline.cpp:53-109 | a new block is complete and other blocks and slots are unchanged |
| `Trampoline.Trampoline.Allocate` | src/trampoline.cpp:53-109 | the next index, or failure without a trace |
| `Trampoline.Trampoline.WriteSlot` | src/trampoline.cpp:123-144 | a slot write changes that slot only |
| `Trampoline.Trampoline.Obtain` | src/trampoline.cpp:123-144 | the index of a symbol, known or new, with all slots unchanged |
| `Trampoline.Trampoline.Set` | src/trampoline.cpp:123-144 | the trampoline leads to the definition; a function keeps its trampoline, another symbol gets a new one each time; the slots of other symbols are unchanged |
| `Trampoline.Trampoline.Update` | src/trampoline.cpp:147-165 | after an update every slot whose symbol resolves leads to its current definition, the others are unchanged |
| `GotRelax.RelaxationPreservesMeaningIff` | src/object/relocatable.cpp:450-478 | the rewritten instruction has the effect of the original one through the table if and only if it is one of the three handled forms, or the symbol's address is stored at the symbol |
| `GotRelax.DisplacementWritten` | src/object/relocatable.cpp:450-478 | a displacement that fits is read back and the opcode stays |
| `GotRelax.RelaxAndRelocate` | src/object/relocatable.cpp:450-478 | the bytes written in place |
| `Addresses.NextAddressIs` | src/loader.cpp:716-732 | the next address is the lowest page above the pointer and all live ranges below the loader, or the default for the kind of code while there is none |
| `Addresses.NextIsAboveLive` | src/loader.cpp:716-732 | the next address is above every live range that ends below the loader |
| `Addresses.NextIsAboveMappedIff` | src/loader.cpp:716-732 | after an object was mapped from its address, the next one is above it if and only if it ends below the loader |
| `Addresses.ObjectAtLoaderOverlaps` | src/loader.cpp:722-723 | a concrete object that reaches into the loader and is overlapped |
| `Addresses.ReserveIsAbove` | src/loader.cpp:716-732 | a reservation is page-aligned, above all live ranges below the loader and above all reservations |
| `Addresses.ReservedIsNext` | src/loader.cpp:729-731 | a reservation has the fewest pages for its size, and the next address follows at once |
| `Addresses.ReleaseKeepsCoveredIff` | src/loader.cpp:734-736 | giving an address back keeps the other reservations safe if and only if none ends above it and all live ranges |
| `Addresses.ForgottenReservationOverlaps` | src/loader.cpp:734-736 | a concrete case: after a reservation for trampolines, giving back address 0 makes the next object overlap it |
| `Addresses.BlockAboveSafe` | src/loader.cpp:716-732 | an object with a block of trampolines reserved above it is a safe state |
| `Addresses.RejectedUpdateForgetsBlock` | src/object/base.cpp:57 | a rejected update of that object, which gives back the base of the first version, makes the next address the start of the block |
| `Addresses.DestroyKeepsCoveredIff` | src/object/base.cpp:41-68 | destroying an object that has its pages keeps the reservations safe if and only if each is below a remaining live range, or below the pointer and the base that is given back |
| `Addresses.StepIsSafeIff` | src/loader.cpp:716-736 | every step keeps mapped objects and reservations disjoint if and only if it forgets no reservation, which taking an address and mapping never do |
| `Addresses.ObjectsStayDisjointIff` | src/loader.cpp:716-736 | over all runs, with loads given up before or after they got pages and any base given back: all states are safe if and only if no step forgets a reservation |
| `Addresses.RejectedLoadSafeIff` | src/object/base.cpp:57 | a load that takes an address and is given up keeps everything safe if and only if no other reservation ends above the base it gives back and all live ranges |
| `Addresses.RejectedFirstLoadSafe` | src/object/base.cpp:57 | it does if it gives back the address it took |
| `Addresses.AcceptedLoadSafe` | src/object/base.cpp:121-129 | so does a load that maps from the address it took |
| `Addresses.Reservations.constructor` | src/loader.cpp:716-736 | the initial state is safe |
| `Addresses.Reservations.AddObject` | src/object/base.cpp:121-129 | a mapped object becomes a live range |
| `Addresses.Reservations.HighestEnd` | src/loader.cpp:716-732 | the loop over all versions finds the highest end below the loader |
| `Addresses.Reservations.TakeAddress` | src/loader.cpp:716-732 | the reservation made in place |
| `Addresses.Reservations.RemoveObject` | src/object/base.cpp:41-68 | a live object is destroyed and its base given back |
| `Addresses.Reservations.ResetAddress` | src/loader.cpp:734-736 | the reservation given back |
| `Relocatable.LayoutSound` | src/object/relocatable.cpp:91-154 | every piece belongs to a section that gets memory, at its offset and of its size |
| `Relocatable.LayoutComplete` | src/object/relocatable.cpp:132-143 | every section that gets memory has a piece: all in a first version, else those that are not writable or have something new |
| `Relocatable.PieceInside` | src/object/relocatable.cpp:137-143 | a piece is page-aligned, inside the range of the version, and the fewest pages for the section with its extra bytes |
| `Relocatable.PieceIff` | src/object/relocatable.cpp:108-142 | exactly which sections get memory of their own |
| `Relocatable.PieceSize` | src/object/relocatable.cpp:116-142 | the fewest whole pages for a section and what is added behind it |
| `Relocatable.SymbolLeft` | src/object/relocatable.cpp:209-236 | the symbol table afterwards, for every symbol: the address of the previous version, its place in the piece of its section, or as it was |
| `Relocatable.SymbolFound` | src/object/relocatable.cpp:209-236 | every symbol of a type that gets an address, in a section with data, is in the lookup table with that address, or an earlier one of its name is |
| `Relocatable.NameFoundIff` | src/object/relocatable.cpp:209-236 | no other name is in the lookup table |
| `Relocatable.TableOrigins` | src/object/relocatable.cpp:206-232 | every entry of the table comes from the previous version or is a new symbol at its place |
| `Relocatable.PlacedInPiece` | src/object/relocatable.cpp:132-143 | a new symbol lies in the piece of its section, which always exists |
| `Relocatable.ObjectRelocatable.constructor` | src/object/relocatable.cpp:28-51 | base and offset: a first version is based at the next free address, a later one has the base of the current version and starts at the next free address |
| `Relocatable.ObjectRelocatable.AdjustOffsets` | src/object/relocatable.cpp:194-263 | the loop over the symbol table in place: values, inserted symbols and whether anything is new |
| `Relocatable.ObjectRelocatable.PlacePiece` | src/object/relocatable.cpp:137-143 | exactly one piece of whole pages at the current offset |
| `Relocatable.ObjectRelocatable.PreloadSection` | src/object/relocatable.cpp:91-154 | one section is one step of the layout, the table and the symbols |
| `Relocatable.ObjectRelocatable.Preload` | src/object/relocatable.cpp:91-185 | pieces, section offsets, lookup table and symbol values of all sections; refused if and only if there is no piece |
| `Relocatable.StartsAbove` | src/object/relocatable.cpp:34-41 | a later version starts above every earlier one that ends below the loader |
| `Relocatable.NextStartsAboveIff` | src/object/relocatable.cpp:34-41 | for two loads in a row, if and only if |
| `Relocatable.PiecesDisjoint` | src/object/relocatable.cpp:28-154 | the pieces of all versions of a chain are pairwise disjoint, as long as they end below the loader |
| `Relocatable.SymbolsStayMapped` | src/object/relocatable.cpp:194-263 | every symbol in the table of any version lies in a piece of that version or of an earlier one |
| `Relocatable.DataKeepsAddress` | src/object/relocatable.cpp:206-219 | over any chain of versions, data of unchanged type and size in a writable section keeps one address |
| `Relocatable.VersionLoaded` | src/object/relocatable.cpp:28-154 | a created and mapped version extends the chain |
| `Relocatable.RelocatableFile.constructor` | src/object/relocatable.cpp:28-51 | a file without versions is an empty chain |
| `Relocatable.RelocatableFile.Create` | src/object/relocatable.cpp:28-185 | the object of a new version, over the table of the current one |
| `Relocatable.RelocatableFile.Adopt` | src/object/identity.cpp:336-533 | a mapped object becomes the current version, and its range a live one |
| `Relocatable.RelocatableFile.TryVersion` | src/object/relocatable.cpp:28-185 | the chain and the addresses of the loader after a load, whether it is accepted or rejected |
| `Relocatable.RelocatableFile.LoadVersion` | src/object/relocatable.cpp:28-185 | a load extends the chain by one version if and only if there is something to map and mapping succeeds; otherwise the chain is unchanged; objects and reservations stay disjoint if and only if it is accepted, or no other reservation ends above the base of the chain and all live ranges, and always for a first version |
| `DataAlias.InheritDescriptors` | src/object/executable.cpp:60-73 | descriptors are inherited by segment index; a different number of segments is refused |
| `DataAlias.LoadKeepsAliased` | src/memory_segment.cpp:48-70 | loading a version keeps: segments have the same memory file if and only if they have the same index in versions of the same file, and every segment is mapped |
| `DataAlias.LoadKeepsFlagged` | src/object/dynamic.hpp:28-30 | loading a version keeps: a file with a memory file is updatable unless dlopen takes that away, and until then its writable segments that have one are shared |
| `DataAlias.TogetherIff` | src/memory_segment.cpp:48-70 | two shared segments have the same contents behind them if and only if they have the same index in versions of one file |
| `DataAlias.StoreSeenByAllVersions` | src/memory_segment.cpp:48-70 | a store through a segment is read through exactly the segments that share with it, and changes nothing else |
| `DataAlias.UpdateKeepsData` | src/memory_segment.cpp:48-97 | an update shows the live data in a writable segment, and its own image in one that it makes read-only |
| `DataAlias.FirstVersionShowsImage` | src/memory_segment.cpp:94-97 | a first version shows its image and zeros, updatable or not |
| `DataAlias.ForkKeepsDataIff` | src/comp/glibc/fork.cpp:31-67 | the child sees what the parent saw through a segment if and only if it has no descriptor, or is shared again and the newest version's segment is at least as long as what is visible and has these bytes if it is the one that is copied, or becomes private and was never changed |
| `DataAlias.ForkKeepsSharingIff` | src/comp/glibc/fork.cpp:51-67 | two segments share in the child if and only if they do in the parent and the file is still updatable |
| `DataAlias.ForkKeepsAliased` | src/comp/glibc/fork.cpp:51-67 | the child has the same memory files among its versions as the parent |
| `DataAlias.ForkKeepsFlagged` | src/comp/glibc/fork.cpp:51-67 | it keeps which segments are shared for which files |
| `DataAlias.ForkForgetsWithoutUpdates` | src/comp/glibc/fork.cpp:56-64 | a segment of a file that is not updatable any more shows its image in every child |
| `DataAlias.ShrunkAliased` | src/object/executable.cpp:60-73 | a file of two pages and its update of one page, as the loader accepts them |
| `DataAlias.ForkLosesSecondPage` | src/comp/glibc/fork.cpp:31-67 | every child of that process has lost the second page |
| `DataAlias.OpenedAliased` | src/loader.cpp:235-241 | a library opened by dlopen, with a memory file but not updatable any more |
| `DataAlias.DlopenedForkLosesData` | src/comp/glibc/fork.cpp:51-67 | every child of that process has lost what was stored in it |
| `DataAlias.FailedCloneKeepsCopy` | src/comp/glibc/fork.cpp:49-79 | a clone that fails leaves the parent with one more memory file |
| `DataAlias.CopiesAreNew` | src/comp/glibc/fork.cpp:31-45 | the copies leave the memory files as they were if and only if there is nothing to copy |
| `DataAlias.ForkSeparates` | src/comp/glibc/fork.cpp:51-70 | parent and child share no memory file |
| `DataAlias.Memory.constructor` | src/loader.hpp:39 | a process without files |
| `DataAlias.Memory.MapSegments` | src/memory_segment.cpp:48-97 | mapping a version: new memory files with their initial contents, inherited ones untouched, private pages from the image |
| `DataAlias.Memory.Load` | src/object/executable.cpp:60-73 | exactly when a version is accepted, and the state then |
| `DataAlias.Memory.Dlopen` | src/loader.cpp:235-241 | dlopen changes whether the file is updatable after it was loaded, and nothing else |
| `DataAlias.Memory.Store` | src/memory_segment.cpp:48-70 | a store keeps the sharing |
| `DataAlias.Memory.CopyRequest` | src/memory_segment.cpp:296-297 | one copy request |
| `DataAlias.Memory.CopyRequests` | src/memory_segment.cpp:291-307 | after any number of successful requests the copy loop has ended only if the memory file is as long as the segment |
| `DataAlias.Memory.Duplicate` | src/memory_segment.cpp:280-334 | the copy is complete however the kernel splits it; when it refuses, the bytes are those that the segment shows |
| `DataAlias.Memory.CopyVersion` | src/comp/glibc/fork.cpp:33-43 | each memory file is copied once, when it is first met |
| `DataAlias.Memory.CopyFiles` | src/comp/glibc/fork.cpp:31-45 | every memory file in use has one copy |
| `DataAlias.Memory.RemapVersion` | src/comp/glibc/fork.cpp:55-67 | the segments of a version after remapping: shared if writable and of an updatable file, else private from the image |
| `DataAlias.Memory.Remap` | src/comp/glibc/fork.cpp:53-67 | all segments after remapping |
| `DataAlias.Memory.Clone` | src/comp/glibc/fork.cpp:49-67 | the child remaps its segments to the copies and closes the originals |
| `DataAlias.Memory.Fork` | src/comp/glibc/fork.cpp:31-79 | the child has its own copies; the parent has its memory files as before if and only if the clone succeeds or no memory file is in use |
| `DataAlias.OpenAndStore` | src/loader.cpp:235-241 | a run of the loader that leads to the opened library |
| `Debounce.PendingIff` | src/loader_helper.cpp:28-85 | in every run a file is pending if and only if its latest notification is not served, and is due one second after it |
| `Debounce.LoadedIff` | src/loader_helper.cpp:114-133 | a load step loads exactly the files whose latest notification is at least one second old and not served |
| `Debounce.WithAllUniqueIff` | src/loader_helper.cpp:53-55 | the branch for queue overflows keeps one entry per file if and only if nothing was scheduled for another time |
| `Debounce.Worklist.constructor` | src/loader_helper.cpp:28-28 | nothing is pending |
| `Debounce.Worklist.Schedule` | src/loader_helper.cpp:64-79 | one entry per file, moved to one second from now |
| `Debounce.Worklist.Handle` | src/loader_helper.cpp:41-84 | one notification: which files are scheduled; a queue overflow, reported without a watch, schedules none |
| `Debounce.Worklist.Detect` | src/loader_helper.cpp:28-85 | all notifications of one read: exactly the files whose watch, as it was at that notification, is reported are scheduled, also when watches are removed on the way |
| `Debounce.Worklist.LoadDue` | src/loader_helper.cpp:117-133 | everything due is loaded once, earliest first, and nothing due remains |
| `Debounce.Lowest` | src/loader_helper.cpp:118-119 | the entry with the least time |
| `InitialStack.Process.PushStrings` | src/process.cpp:71-83 | strings are copied in order, without overlap |
| `InitialStack.Process.WritePointers` | src/process.cpp:99-111 | a pointer table ended by null, in the order of the strings |
| `InitialStack.Process.WriteAuxiliary` | src/process.cpp:88-97 | the auxiliary vector ended by its null entry |
| `InitialStack.Process.WriteTables` | src/process.cpp:88-116 | the words from the argument count to the end of the auxiliary vector |
| `InitialStack.Process.WriteImage` | src/process.cpp:85-116 | tables below the strings, which stay intact |
| `InitialStack.Process.Init` | src/process.cpp:57-117 | the stack has the layout of the ABI with strings and tables disjoint; the stack pointer ends 16-byte aligned if and only if the number of strings is odd |
| `InitialStack.ReadString` | src/process.cpp:28-32 | a string is read back up to its terminator |
| `InitialStack.ReadArguments` | src/loader.cpp:591-593 | the 32-bit argument count and all arguments are read back |
| `InitialStack.ReadEnvironment` | src/process.cpp:28-32 | the environment is read back without empty strings |
| `InitialStack.ReadAuxiliary` | src/process.cpp:34-40 | the auxiliary vector is found behind the environment and read back |
| `InitialStack.WriteAndRead` | src/process.cpp:28-117 | round trip: reading what was written gives the same arguments, environment and auxiliary entries |
| `InitialStack.MoveEmptyBack` | src/loader.cpp:601-612 | the in-place partition is a permutation with all non-empty strings first |
| `Tls.BlocksApart` | src/tls.cpp:18-43 | static blocks of any sequence of modules are pairwise disjoint |
| `Tls.BlockInside` | src/tls.cpp:58-72 | each lies between the reserved start and the thread pointer |
| `Tls.AlignedIff` | src/tls.cpp:21-29 | a static block is aligned if and only if the bytes before it are a multiple of its alignment |
| `Tls.NonIncreasingAligned` | src/tls.cpp:21-29 | all are aligned when alignments do not grow |
| `Tls.GrowingAlignmentMisaligns` | src/tls.cpp:21-29 | two modules whose second block is misaligned for every aligned thread pointer |
| `Tls.CopyBlock` | src/tls.cpp:116-131 | byte by byte: the image at the start, zeros behind it, and nothing else changes |
| `Tls.FillBlocks` | src/tls.cpp:58-72 | all static blocks hold image and zeros at the end |
| `Tls.TLS.constructor` | src/tls.hpp:20-30 | the empty layout |
| `Tls.TLS.AddModule` | src/tls.cpp:18-43 | static modules get the next offset, later ones none; the layout stays valid |
| `Tls.TLS.ReplaceObject` | src/tls.cpp:116-131 | a new current version changes the image for later blocks and leaves the layout |
| `Tls.TLS.Allocate` | src/tls.cpp:133-144 | an aligned thread pointer with blocks, surplus and control block inside the allocation |
| `Tls.TLS.Setup` | src/tls.cpp:45-76 | a thread's static blocks and their addresses |
| `Tls.TLS.GetAddress` | src/tls.hpp:95-139 | a lazily allocated block is aligned, inside its memory, initialized, and has its address stored below it; a second call changes nothing |
| `SymbolVersion.DefinedRoundTrip` | src/object/dynamic.hpp:76-130 | a defined version is found under its index again |
| `SymbolVersion.VersionOfNeeded` | src/object/dynamic.hpp:108-116 | the version of an index that is needed from a file |
| `SymbolVersion.VersionOfDefinition` | src/object/dynamic.hpp:118-131 | the version of an index that is defined, with the file of the last base entry |
| `SymbolVersion.IndexAnswers` | src/object/dynamic.hpp:76-106 | the index of a version is that of an entry with its name, hash and file, or the global one |
| `SymbolVersion.NeededRoundTripIff` | src/object/dynamic.hpp:76-130 | a needed version is found under its index again if and only if no definition answers for it |
| `SymbolVersion.DefinitionAnswersForNeeded` | src/object/dynamic.hpp:76-130 | a table in which one does |
| `SymbolVersion.RoundTrip` | src/object/dynamic.hpp:76-130 | with a base entry and no file that needs itself, every index that stands for a version survives the round trip |

## Left out

- Logging, configuration, command line, status output and GDB notification.
- The ABI structures of glibc and its compatibility code, except fork.
- Parsing of ELF and DWARF, hashing, and the comparison of file contents: outcomes of these are inputs.
- Containers, locks and allocators of the support library: lists and hash maps are sequences, sets and maps; memory from the allocator is an input.
- System calls: whether they succeed and which addresses or numbers they give are inputs or arbitrary choices.
- Symbol versions in `Symbols` and `LiveUpdate`: symbols are looked up by name alone.
- Relocation kinds other than the rewritten accesses through the global offset table, and the values written by relocations.
- Update hooks, serialization and custom update points.
- Redirections that are removed, or added a second time for the same address, and signals at addresses without a redirection.
- The list of threads is read while threads start: a trap and its handler are one step. What a thread does that stands on the second byte of a two-byte trap when it is written is left open.
- Redirected bytes are entered at their first byte only, no redirection leads into the bytes of another one, and the bytes written for two redirections do not overlap: these are facts about the functions of a program that the source does not check.
- `MemorySegment::enable` and `unmap`, and writable segments in the back-buffer model.
- Program threads that write to shared data while fork copies it.
- Failing creation of a memory file, and the assertion that only first versions create one.
- Growth of the vector of thread-local blocks, its freeing, and static blocks of threads made by the program.
- `preprepare`, common symbols, thread-local symbols and postponed relocations of relocatable objects, their relocation caches, and the check for missing external symbols.
- Files in archives, and what a load does: `Debounce` stops at the decision to load.
- The hash map of the auxiliary vector is a list of entries with distinct types in iteration order, so that the round trip gives them in reverse order.
- The leaf evaluation, opening book, clock and user interface of the chess example; the evaluation is an arbitrary bounded function.
- InitialStack.Process.Init: needs room for everything on the stack, which the source does not check.
- LiveUpdate.NoStaleBindings: `check_relocation_content` (src/object/dynamic.cpp:362-379), which skips relocations whose contents the program altered, is off as by default; relocatable files, which pass no symbol check (src/object/identity.cpp:407), are not loaded.
- Trampoline.Trampoline.Index: symbols are equal when all their parts are; the source takes a version without a file for equal to one with any file, and never finds a symbol without a valid version again (src/symbol.hpp:93-98).
- Linker.Linker.Load: preload and mapping of an update succeed, and the file is initialized already; their failures are part of `VersionChain.Identity.Create`.
- Segment.MemorySegment.constructor: a segment does not lie within its own length from address 0.
- Relocatable.SymbolsStayMapped: symbols lie within their sections, as in every valid file.
- DataAlias.Memory.Fork: needs the newest version's segments to be no longer than their memory files, since the copy loop does not end otherwise.
- GotRelax.RelaxationPreservesMeaningIff: only displacements that fit 32 bits; the source does not check for overflow.
