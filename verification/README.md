# CodeGraph: locks, extraction kernel and file handling

This project models the parts of CodeGraph whose correctness rests on the
interplay of several steps, and proves what they keep.

- **The cross-process lock** (`FileLock`, `Mutex` in `src/utils.ts`).
  `FileLockProtocol` is a state machine of any number of agents in any number
  of processes over the four levels of lock files, one file operation at a
  time, with crashes anywhere and PIDs reused; `FileLockProgress` says how
  attempts end, `FileLockRace` what may go wrong. `FileLock` is the object itself,
  with its recursive `tryAcquire`: what it does to the files is what one agent of
  the protocol does. `Mutex` is the event-loop lock and its queue.
- **The extraction kernel** (`codegraph-kernel/src`). `RLang` and `Lua` say, as
  functions from syntax trees, which outline of declarations and references a
  file has; `RLangFacts`, `LuaFacts`, `LuaRequire`, `LuaSites`, `LuaCalls` and
  `LuaReach` say what holds of it. `RReach`, `RContents`, `LuaTables`, `LuaDecls`
  and `LuaContents` say of the tree alone what every node yields and in which
  declarations, with `RLookups` and `LuaLookups` for what the lookups find.
  `RWalker` and `LuaWalker` are the walkers as they run, over `Emitter`, `Buffers`
  (byte tables and string arena) and `Ids`. `Outline` lays an outline out as tables
  and proves what every such table satisfies; by `Contents` and `RowPaths` the
  rows of the tables are the entries of the outline.
- **Smaller cores**: the readiness handshake (`RuntimeControl`), markdown path
  references (`Markdown`), stripping and choosing comments (`Docstring`), the
  search for indexed projects (`Directory`), the bounded reader (`FileLimits`).

`Bytes`, `Texts`, `Options`, `SyntaxTree` and `Walking` hold what they share.
`dafny verify dfyconfig.toml` checks everything.

## Where the code and its description differ

- **Two owners of one lock.** `readHolder` reads the file and probes the PID in
  two operations (src/utils.ts:568 and 585). A holder that releases and exits in
  between is judged stale even under the break lock, and the unlink at line 521
  may then remove a live lock. `MutualExclusionFails` is such a run from an empty
  directory with clean exits only; `StaleVerdictIsSafeIff` says exactly which
  verdicts on the lock are harmless. `SoundRunsAreSafe` is the safety the comments
  claim for every run without such a verdict, and `AtomicReadsAreSafe` for every
  run in which no other step falls between a read that found a file under the
  break lock and its probe. Even the run with two owners leaves no break file
  behind (`NothingIsEverLeftBehind`), and no run has two holders of the last level
  (`LastLevelIsExclusive`).
- **Barging.** A woken waiter of the mutex can find the lock retaken.
  `FirstComeFirstServedIff` says in exactly which runs the lock goes to callers in
  order of arrival.
- **Depth first, not breadth first.** `findIndexedSubprojectRoots` is described as
  a breadth-first scan; the code is a pre-order, depth-first one.
  `BreadthFirstIff` says for exactly which trees the order is the same.
- **Calls on the right of a global assignment.** lua.rs:15-17 says that a top-level
  `x = foo()` makes a calls reference where `local x = foo()` makes none. The code
  (lua.rs:360-364) skips the values of both (`AssignedCallYieldsNothing`,
  `EveryCallYieldsExactly`).
- **Percent decoding.** `decode_path` is described as `decodeURIComponent`, but
  `u8::from_str_radix` also reads a plus sign and one digit
  (`DecodesAsUriComponentIff`, `PlusEscapeIsDecoded`). This concerns the function
  in isolation: what its callers pass it has no percent sign before a query or an
  anchor, and comes out as it went in (`CandidatesAreNotDecoded`).
- **Crossing the size limit** is described as always being a change. It goes
  unnoticed when the smaller file is the text of the larger one's stamp
  (`RewriteIsUnnoticedIff`, `CrossingTheLimitMayGoUnnoticed`).

## Assumptions

Lock files are made by hard link and so are never seen empty; two live processes
never share a PID. Syntax trees are given: nodes are numbered in pre-order, and
where nesting is claimed a child lies within its parent's lines. Parameters stand
for SHA-256, regular expressions, Unicode trimming, UTF-8 validation, JSON
parsing, docstring text and UTF-16 signature slices. Times are not modelled: a
time-out is an event that may come at any moment.

## Model

| member | source | states |
|---|---|---|
| `FileLockProtocol.SoundRunsAreSafe` | src/utils.ts:497-586 | from any leftovers, any agents, crashes and PID reuse: if no stale verdict under a break lock is unsound, at most one live agent holds each level, an unlink only hits files nobody alive holds, and attempts leave no file behind |
| `FileLockProtocol.NothingIsEverLeftBehind` | src/utils.ts:497-527 | in every run, sound or not, an agent between attempts has left no file at any level, but for the lock when it owns it; so after any attempt it owns no break level |
| `FileLockProtocol.LevelsAreSafe` | src/utils.ts:497-527 | level by level: if the stale verdicts on level k and above are sound, at most one live agent holds each level from k on and takeovers there unlink only what nobody holds, whatever happens below |
| `FileLockProtocol.LastLevelIsExclusive` | src/utils.ts:508 | in every run, sound or not, at most one live agent holds the last level, which is never broken |
| `FileLockProtocol.StepKeepsInvFromIff` | src/utils.ts:513-523 | from any level k on, the invariant survives a step exactly when the step is not an unsound verdict on level k or above |
| `FileLockProtocol.StepKeepsInvIff` | src/utils.ts:513-523 | the invariant over all four levels survives a step exactly when the step is not an unsound verdict |
| `FileLockProtocol.AtomicReadsAreSafe` | src/utils.ts:565-586 | every run in which, under a break lock, the probe follows a read that found a file at once (or the agent ends there) is safe; after a read that finds no file others may move |
| `FileLockRace.UnsoundVerdictBreaksHeldLock` | src/utils.ts:516-523 | at any level, judging stale a file that a live agent holds leads to two holders |
| `FileLockRace.UnsoundVerdictBreaksFreeLock` | src/utils.ts:516-523 | at any level below which no file names the judging process: judging a lock stale after its file has gone leads to two holders, by newcomers that fill the levels below and one that takes the level |
| `FileLockRace.StaleVerdictIsSafeIff` | src/utils.ts:516-523 | on the lock, and on any level below which no file names the judging process: a stale verdict cannot be followed by two holders (through sound verdicts) exactly when the file is still there and nobody alive holds it |
| `FileLockRace.RaceRunWorks` | src/utils.ts:497-527 | the run, from an empty directory, that ends right before an unsound verdict: each holder releases and exits cleanly between another's read and probe |
| `FileLockRace.MutualExclusionFails` | src/utils.ts:467-527 | some run ends with two live holders of the same level |
| `FileLockProgress.AttemptsAreWaitFree` | src/utils.ts:497-527 | in every run, safe or not and whatever others do, an agent makes fewer than 38 moves while one attempt or release goes on |
| `FileLockProgress.UndisturbedAttempt` | src/utils.ts:497-527 | from any state whatever, an agent that nobody interrupts ends its attempt with exactly the files and outcome of crash recovery, within 9 moves a level; where the invariant holds, through sound verdicts only |
| `FileLockProtocol.RunKeepsInv` | src/utils.ts:497-603 | every run of sound steps keeps the invariant: files and live holders correspond one to one |
| `FileLock.Lock.Create` | src/utils.ts:541-563 | in every directory, whatever others do around it, the move of the protocol agent that links the level; takes the level exactly when its file is absent |
| `FileLock.Lock.ReadHolder` | src/utils.ts:565-586 | in every directory the agent's read and then its probe, with others between; free, held by a live PID, or stale |
| `FileLock.Lock.TryAcquire` | src/utils.ts:497-527 | in every directory, whatever others do between its operations, what the recursive attempt does to the files is the moves of one protocol agent, from the create at its level to holding that level or to giving up, and `held` tells which; where nobody else is about, its refusal and the resulting files are those of crash recovery |
| `FileLock.Lock.Replace` | src/utils.ts:516-523 | in every directory: under the break lock it reads again and unlinks only what that read found stale, as the agent that stands there does |
| `FileLock.OwnerIsAlone` | src/utils.ts:467-527 | in a directory whose run is sound two objects that are owners are one agent's |
| `FileLock.Lock.Acquire` | src/utils.ts:485-494 | throws exactly when the attempt is refused, which is when a live process is met first or all levels are stale, naming only a live PID |
| `FileLock.Lock.Release` | src/utils.ts:591-603 | in every directory the agent's moves of a release; unlinks the file exactly when held and still naming this process |
| `FileLock.RecoveryIsExact` | src/utils.ts:497-527 | with k the lowest absent level, an attempt succeeds exactly when all levels below k are stale and k is at most 3; then level 0 is owned, 1..k absent, the rest untouched; otherwise nothing changes |
| `Mutex.MutexObject.TryEnter` | src/utils.ts:692-699 | one round of the loop: enter when unlocked, else queue at the tail |
| `Mutex.MutexObject.Leave` | src/utils.ts:701-707 | unlock and wake exactly the head of the queue |
| `Mutex.StepKeepsInv` | src/utils.ts:692-708 | locked exactly when one task holds; queued tasks are in the queue once; an unlocked mutex with waiters has a woken one |
| `Mutex.SomeStepIsEnabled` | src/utils.ts:692-708 | until all are served some step can be taken |
| `Mutex.StepUsesWeight` | src/utils.ts:693-697 | each step lowers the weight, also when a woken task finds the lock retaken and queues again |
| `Mutex.EveryRunServesAll` | src/utils.ts:692-720 | every run of n calls has at most 3n steps, keeps mutual exclusion, and ends with all served |
| `Mutex.FirstComeFirstServedIff` | src/utils.ts:692-708 | the lock is granted in the order of arrival in exactly the runs in which no call starts while the lock is free and a woken task has yet to take it |
| `Mutex.NotFirstComeFirstServed` | src/utils.ts:692-708 | a run in which a latecomer passes a woken waiter, so that grants are out of order |
| `Buffers.NodeRoundTrip` | codegraph-kernel/src/buffers.rs:29-47 | a node row's cells decode, by the documented layout, to the row |
| `Buffers.EdgeRoundTrip` | codegraph-kernel/src/buffers.rs:49-59 | the same for edges |
| `Buffers.RefRoundTrip` | codegraph-kernel/src/buffers.rs:61-74 | the same for references |
| `Buffers.BindingRoundTrip` | codegraph-kernel/src/buffers.rs:318-332 | the same for bindings |
| `Buffers.MetaRoundTrip` | codegraph-kernel/src/buffers.rs:586-601 | the meta block decodes to what it was built from |
| `Buffers.PutReadsBack` | codegraph-kernel/src/buffers.rs:218-222 | a put into an arena of fewer than 2^32-1 bytes reads back after any later puts, and one into 2^32-1 bytes never does |
| `Buffers.LaterPutsDisturbNothing` | codegraph-kernel/src/buffers.rs:218-222 | what a reference denotes does not change as the arena grows |
| `Buffers.ListReadsBack` | codegraph-kernel/src/buffers.rs:234-240 | a NUL-joined list of NUL-free items splits back |
| `Buffers.Arena.PutList` | codegraph-kernel/src/buffers.rs:234-240 | the empty list is the absent field, any other reads back |
| `Buffers.Tables.PushNode` | codegraph-kernel/src/buffers.rs:393-415 | the decoded table is the old one and the row, the index is its number |
| `Buffers.Tables.PushContains` | codegraph-kernel/src/buffers.rs:419-431 | one more edge, a contains edge without position |
| `Buffers.Tables.PushEdge` | codegraph-kernel/src/buffers.rs:433-446 | the decoded table is the old one and the row |
| `Buffers.Tables.PushRef` | codegraph-kernel/src/buffers.rs:448-450 | the decoded table is the old one and the row |
| `Buffers.Tables.PushRefFlagged` | codegraph-kernel/src/buffers.rs:485-497 | the same, with the flags given |
| `Buffers.Tables.PushBinding` | codegraph-kernel/src/buffers.rs:452-469 | the decoded table is the old one and the row |
| `Buffers.Tables.NodeLines` | codegraph-kernel/src/buffers.rs:472-476 | reads the lines of any pushed row |
| `Buffers.Tables.SetNodeEnd` | codegraph-kernel/src/buffers.rs:479-483 | moves the end line and column of one row and changes nothing else in any row |
| `Buffers.BindingsOnly` | codegraph-kernel/src/buffers.rs:516-541 | every binding keeps all but its node index, which becomes NONE; counts in the meta match |
| `Ids.WriteDecimal` | codegraph-kernel/src/ids.rs:54-64 | the ten-byte digit loop prints every u32 and never runs out of room |
| `Ids.DecimalReadsBack` | codegraph-kernel/src/ids.rs:54-64 | printed digits read back as the number, so printing is injective |
| `Ids.HashInputIsInjective` | codegraph-kernel/src/ids.rs:45-65 | for one file and kind two names or lines never hash the same text, colons in names included |
| `Ids.HashInputReadsBack` | codegraph-kernel/src/ids.rs:45-65 | split at colons the hashed text reads back as path, kind, name and printed line, in that order, when the first three hold none |
| `Ids.HexReadsBack` | codegraph-kernel/src/ids.rs:67-75 | the lower-case digits read back to the digest's bytes, high nibble first |
| `Ids.NodeIdReadsBack` | codegraph-kernel/src/ids.rs:69-76 | a base id is the kind, a colon and the digits of the digest of that text |
| `Ids.NodeIdAllocator.Generate` | codegraph-kernel/src/ids.rs:26-42 | the id is the one the history of calls determines |
| `Ids.IdsAreExact` | codegraph-kernel/src/ids.rs:26-42 | over any history equal ids mean equal base and column, and the first column of a base has the bare id |
| `Ids.IdsAreStable` | codegraph-kernel/src/ids.rs:35-41 | later calls never change what an id would be |
| `Emitter.RowIdsAreExact` | codegraph-kernel/src/ids.rs:26-65 | in every node table two rows after the file's have one id exactly when base id and column agree |
| `Emitter.RowIdsTellRowsApart` | codegraph-kernel/src/ids.rs:26-77 | unless the digest maps two different texts of the file to one, two rows have one id exactly when they are of one kind and name and start in one place |
| `Emitter.CodesAreListed` | codegraph-kernel/src/buffers.rs:87-129 | the kind codes are places in the two wire lists |
| `Emitter.FlagsReadBack` | codegraph-kernel/src/buffers.rs:255-262 | bit 0 says whether exportedness is known, bit 1 what it is |
| `Emitter.BaseNameMeans` | codegraph-kernel/src/buffers.rs:675 | the file row is named after what follows the last slash or backslash |
| `Outline.AfterIsLayout` | codegraph-kernel/src/rlang.rs:125-168 | appending row by row with a scope stack yields the pre-order tables |
| `Outline.InTurn` | codegraph-kernel/src/rlang.rs:225-239 | walking two forests is walking one and then the other |
| `Outline.OneSitePerRow` | codegraph-kernel/src/rlang.rs:125-168 | one declaration site per node row and one reference site per reference row |
| `Outline.TableIsContainsTree` | codegraph-kernel/src/walker.rs:71-79 | every table of a well-formed outline: each row but the file's hangs under one earlier row, lies within its lines, and is named by the path of names down to it or by its override |
| `RowPaths.NodeRowsAreEntries` | codegraph-kernel/src/rlang.rs:125-168 | down the contains edges to a row come exactly the declarations around it in the outline: rows and declarations are the same, each in its place |
| `RowPaths.RefRowsAreEntries` | codegraph-kernel/src/rlang.rs:107-118 | every reference of the outline is a reference row made from the row of the declaration around it, and every reference row is one |
| `RowPaths.RowIsQualified` | codegraph-kernel/src/walker.rs:71-79 | a row's qualified name is its own, or the names of the declarations down to it with `::` between them |
| `Walking.CalleeTextIff` | codegraph-kernel/src/lua.rs:648-667 | a call is named after the text of its `function` field, or else of its first named child, or what a parenthesized conversion holds, unless that is empty |
| `Emitter.Emitter.CreateNode` | codegraph-kernel/src/lua.rs:111-162 | a nameless node is not made; any other adds one row and one contains edge from the scope on top, and all rows still say what they said |
| `Emitter.Emitter.PushRefAt` | codegraph-kernel/src/rlang.rs:107-118 | one more reference row; all rows still say what they said |
| `Emitter.Emitter.ParseCollapseWarning` | codegraph-kernel/src/buffers.rs:548-581 | a warning exactly when the tree has errors and there is no symbol |
| `Emitter.Emitter.constructor` | codegraph-kernel/src/buffers.rs:663-700 | the file's row, stack and id |
| `Emitter.Emitter.Finish` | codegraph-kernel/src/buffers.rs:705-718 | the finished bytes decode to the rows, and the meta counts match them |
| `Emitter.EmitImport` | codegraph-kernel/src/rlang.rs:269-275 | an import node, and an imports reference from the scope around it |
| `Emitter.EmitCall` | codegraph-kernel/src/lua.rs:648-668 | one calls reference from the scope on top, or none without a callee |
| `RWalker.Walker.Visit` | codegraph-kernel/src/rlang.rs:225-239 | appends exactly the rows of the outline and restores the stack |
| `RWalker.Walker.HookCall` | codegraph-kernel/src/rlang.rs:251-334 | consumes a call exactly when the outline says so, with its rows; else changes nothing |
| `RWalker.Walker.HookBinaryOperator` | codegraph-kernel/src/rlang.rs:336-401 | the same for assignments |
| `RWalker.Walker.ExtractClassMembers` | codegraph-kernel/src/rlang.rs:409-470 | the loop with its positional counter yields the members of the outline |
| `RWalker.Walker.EmitMethodArg` | codegraph-kernel/src/rlang.rs:475-494 | one method with its body, or nothing |
| `RWalker.Extract` | codegraph-kernel/src/rlang.rs:74-99 | the bytes of a whole extraction decode to exactly the outline's rows in order, and form a contains tree |
| `RLangFacts.OutputIsLinear` | codegraph-kernel/src/rlang.rs:225-494 | declarations, references and visits each come in pre-order and at most once per syntax node, so the output is linear in the tree |
| `RLangFacts.ReachedIsVisited` | codegraph-kernel/src/rlang.rs:225-239 | every node below the root through nodes that no hook consumes is visited |
| `RLangFacts.VisitNests` | codegraph-kernel/src/rlang.rs:225-494 | every declaration has a name and lies within what it was found in |
| `RLangFacts.ExtractionIsContainsTree` | codegraph-kernel/src/rlang.rs:125-168 | the node table of every R file is a contains tree |
| `RReach.HookTakesIff` | codegraph-kernel/src/rlang.rs:242-401 | the hook takes a node exactly when it is an import call, a class or generic call that tells a name, an assigned function, or a value assigned at top level |
| `RReach.OutlineHoldsExactly` | codegraph-kernel/src/rlang.rs:225-522 | said of the tree: an outline holds exactly what the nodes the walk comes to yield, each in the declarations it is met in |
| `RContents.CallsAreExact` | codegraph-kernel/src/rlang.rs:233-235 | the calls references are those, named after their callees, of the calls met that are neither imports nor make a class or generic with a name |
| `RContents.CallYieldsExactly` | codegraph-kernel/src/rlang.rs:502-522 | a call met yields one calls reference, in the declarations it is met in, exactly when it is such a call with a callee to name; else none |
| `RContents.ImportsAreExact` | codegraph-kernel/src/rlang.rs:260-278 | the import nodes and references are those of the import calls met whose first argument tells a module |
| `RContents.ClassesAreExact` | codegraph-kernel/src/rlang.rs:284-295 | the classes are the class calls met whose first argument tells a name |
| `RContents.FunctionsAreExact` | codegraph-kernel/src/rlang.rs:297-367 | the functions are those assigned leftwards to a name in any scope, and the generics, with the parameters of the function assigned or given first |
| `RContents.ValuesAreExact` | codegraph-kernel/src/rlang.rs:369-398 | the variables and constants are the targets of values assigned at top level, but for classes and generics assigned leftwards |
| `RContents.MembersAreExact` | codegraph-kernel/src/rlang.rs:409-494 | within a class: its parents, by the second unnamed argument or by `inherit` and `contains`, and its methods, by named arguments or entries of a `list`; and nothing else |
| `RContents.NodeRowsAreExact` | codegraph-kernel/src/rlang.rs:74-99 | the node rows of a file are exactly what the nodes met yield, under the declarations they are met in |
| `RContents.RefRowsAreExact` | codegraph-kernel/src/rlang.rs:107-118 | and the reference rows, from the rows of those declarations |
| `RLookups.TellsIff` | codegraph-kernel/src/rlang.rs:185-217 | the name told is the text of the first argument, named or not, if that is an identifier or a string that is not empty |
| `RLookups.ImplementationIff` | codegraph-kernel/src/rlang.rs:305-319 | a generic's function is the first function among its arguments, at any position |
| `RLookups.CallsIff` | codegraph-kernel/src/rlang.rs:176-183 | what is called by name: an identifier, or the right-hand side of a namespace operator |
| `RLookups.ClassOrGenericIff` | codegraph-kernel/src/rlang.rs:372-376 | the target is suppressed exactly when the value calls a class or generic function |
| `LuaWalker.FindDescendant` | codegraph-kernel/src/lua.rs:167-183 | the queue loop ends and finds what the search by levels finds |
| `LuaRequire.FoundIffPresent` | codegraph-kernel/src/lua.rs:166-183 | nothing is found exactly when no descendant is of the kind |
| `LuaRequire.FoundIsShallowest` | codegraph-kernel/src/lua.rs:166-183 | what is found is the leftmost on the first level that has one |
| `LuaRequire.RequireModuleIff` | codegraph-kernel/src/lua.rs:186-223 | a call requires the module `mod` exactly when it is a call of `require` and `mod` is the non-empty text that its arguments name: the first string content below them in breadth-first order if there is one, else the first string unless nothing is left of it, else the last segment of the first dotted or else method index |
| `LuaRequire.QuotedReadsBack` | codegraph-kernel/src/lua.rs:198-208 | taking the quotes off a quoted text gives the text |
| `LuaRequire.BracketedReadsBackIff` | codegraph-kernel/src/lua.rs:198-208 | taking the brackets off a long string gives the text exactly when that neither starts nor ends with a quote |
| `LuaWalker.Walker.Visit` | codegraph-kernel/src/lua.rs:308-375 | appends exactly the rows of the outline and restores the stack |
| `LuaWalker.Walker.EmitInitializers` | codegraph-kernel/src/lua.rs:321-342 | requires among the initializers, in order |
| `LuaWalker.Walker.ExtractFunction` | codegraph-kernel/src/lua.rs:379-441 | a function or method with its body walked by `visit_body` |
| `LuaWalker.Walker.ExtractTargets` | codegraph-kernel/src/lua.rs:481-519 | targets pair with values by position |
| `LuaWalker.Walker.ExtractTableFunctions` | codegraph-kernel/src/lua.rs:604-624 | the functions of nested table constructors under their dotted receiver |
| `LuaWalker.Walker.VisitBody` | codegraph-kernel/src/lua.rs:672-700 | the hook-free walk yields the outline's rows and restores the stack |
| `LuaWalker.Extract` | codegraph-kernel/src/lua.rs:68-100 | the bytes of a whole extraction decode to exactly the outline's rows in order, and form a contains tree |
| `LuaCalls.EveryCallIsAccountedFor` | codegraph-kernel/src/lua.rs:308-375 | every call yields at most one of an import and a calls reference, none unless visited, and is visited at most once; a resolvable require yields the import at top level or as an initializer, and the reference in a body; other named calls the reference |
| `LuaReach.EveryCallYieldsExactly` | codegraph-kernel/src/lua.rs:308-375 | said of the tree alone, for every call in it: an import exactly when it resolves and stands at top level or as an initializer there; a calls reference exactly when it has a callee and stands in a walked body, or at top level without resolving |
| `LuaReach.MetIff` | codegraph-kernel/src/lua.rs:308-375 | each walk comes to a node exactly when it stands at top level, as an initializer there, or in the body of a named function or of a function assigned there |
| `LuaReach.AssignedCallYieldsNothing` | codegraph-kernel/src/lua.rs:360-364 | a call that is a value of a global assignment at top level yields neither an import nor a calls reference |
| `LuaCalls.TopLevelCall` | codegraph-kernel/src/lua.rs:308-375 | a call at top level yields exactly its import if it resolves to a module, else exactly its calls reference if it has a callee |
| `LuaCalls.BodyCall` | codegraph-kernel/src/lua.rs:672-700 | in the visit of the root, a call in a body that stands at top level (of a function, of a value assigned, or in a table assigned) yields no import, and exactly one calls reference if it has a callee, a resolvable require included |
| `LuaCalls.TopLevelMeetsAll` | codegraph-kernel/src/lua.rs:308-375 | the walk of the top level comes to every node below it except through functions, variables and resolved requires |
| `LuaCalls.TopLevelKeeps` | codegraph-kernel/src/lua.rs:308-375 | whatever the visit of a node at top level comes to, in whatever way, the visit of the root comes to |
| `LuaCalls.BodyMeetsAll` | codegraph-kernel/src/lua.rs:672-700 | the walk of a body comes to every node in it, named nested functions included |
| `LuaCalls.InitializerRequireIsImported` | codegraph-kernel/src/lua.rs:321-342 | in the visit of the root, a resolvable require standing as a direct initializer of a declaration at top level yields exactly one import and no calls reference |
| `LuaFacts.VisitFine` | codegraph-kernel/src/lua.rs:308-375 | imports and calls references agree one to one and in order with the visits that must have made them |
| `LuaSites.OutputIsLinear` | codegraph-kernel/src/lua.rs:308-700 | declarations, references and visits each number at most the nodes of the tree |
| `LuaSites.OneSitePerNode` | codegraph-kernel/src/lua.rs:308-700 | no node is visited twice, or is the site of two declarations or of two references |
| `LuaFacts.ExtractionIsContainsTree` | codegraph-kernel/src/lua.rs:111-162 | the node table of every Lua file is a contains tree, receivers naming methods |
| `LuaContents.OutlineHoldsExactly` | codegraph-kernel/src/lua.rs:308-700 | said of the tree: an outline holds exactly what the nodes that the two walks come to yield, each in the declarations it is met in |
| `LuaContents.FunctionsAreExact` | codegraph-kernel/src/lua.rs:379-441 | the functions and methods are those declared, and those assigned at top level, by themselves or in tables |
| `LuaContents.DeclarationYieldsExactly` | codegraph-kernel/src/lua.rs:379-441 | a function declaration met makes, if it has a name, one declaration at its place and no other |
| `LuaLookups.IndexNamedIsMethod` | codegraph-kernel/src/lua.rs:242-266 | a function named by an index expression is a method called by the field or method text and qualified by the text of the table, `::` and that |
| `LuaLookups.OtherwiseNamedIsFunction` | codegraph-kernel/src/lua.rs:393-404 | a function with any other name is a function called by its text |
| `LuaContents.AssignedYieldsExactly` | codegraph-kernel/src/lua.rs:481-502 | a target with a function at its place makes that function and nothing else there, a method if the target has a receiver |
| `LuaContents.LocalYieldsExactly` | codegraph-kernel/src/lua.rs:503-519 | a target of a top-level local without receiver, and without a function at its place, makes one variable |
| `LuaContents.VariablesAreExact` | codegraph-kernel/src/lua.rs:447-519 | the variables are just those; a global assignment makes none |
| `LuaTables.TableFound` | codegraph-kernel/src/lua.rs:604-624 | all that a table constructor yields comes from a function that keys lead to through nested tables, as a method of the receiver and the keys before the last, with dots between |
| `LuaTables.TableMethodIsFound` | codegraph-kernel/src/lua.rs:604-624 | and every such function is found |
| `LuaContents.ImportsAreExact` | codegraph-kernel/src/lua.rs:227-240 | the imports are those of requires met at top level, by themselves or as values of a local |
| `LuaContents.CallsAreExact` | codegraph-kernel/src/lua.rs:648-668 | the calls references are those of the calls met, but for requires that resolve at top level |
| `LuaContents.AliasesAreExact` | codegraph-kernel/src/lua.rs:629-644 | the type aliases are the named type definitions of Luau at top level |
| `LuaContents.NodeRowsAreExact` | codegraph-kernel/src/lua.rs:68-100 | the node rows of a file are exactly what the nodes met yield, under the declarations they are met in |
| `LuaContents.RefRowsAreExact` | codegraph-kernel/src/lua.rs:68-100 | and the reference rows, from the rows of those declarations |
| `LuaLookups.MemberTargetIff` | codegraph-kernel/src/lua.rs:532-547 | a target that is a field, method or key of a table has the table's text as receiver and both, with a dot between, as full name |
| `LuaLookups.FieldNameIff` | codegraph-kernel/src/lua.rs:607-617 | a table's field is called by its identifier, unless in brackets, or by the content of its string |
| `LuaLookups.SignatureMeans` | codegraph-kernel/src/lua.rs:277-280 | the signature is the text of the parameters, in Luau unless a return type follows |
| `LuaLookups.SignatureWithReturnMeans` | codegraph-kernel/src/lua.rs:281-294 | in Luau with a colon and what follows the parameters, unless that is the body |
| `RuntimeControl.Client.OnData` | src/runtime-control.ts:113-173 | the loop over buffered lines is the recursive reading of the stream, with the limit checked first |
| `RuntimeControl.Client.OnLine` | src/runtime-control.ts:119-171 | one line moves the phase machine, writes its requests, or decides |
| `RuntimeControl.Client.Finish` | src/runtime-control.ts:102-108 | the first outcome stays |
| `RuntimeControl.Client.On` | src/runtime-control.ts:109-113 | an arrival, an error, a close or the time-out does to the exchange what a step of a run does |
| `RuntimeControl.ChunksMatterOnlyByTheLimit` | src/runtime-control.ts:113-118 | however a stream is cut, the result is that of its lines, except exactly when a chunk arrives, the lines before it leaving the exchange open, that is over the limit together with the unfinished line; then it fails |
| `RuntimeControl.ChunkBoundariesDoNotMatter` | src/runtime-control.ts:113-118 | within 1 MiB the outcome and what is written depend on the stream alone |
| `RuntimeControl.AllCutsAgreeIff` | src/runtime-control.ts:113-118 | for every daemon and stream: all ways to cut it give the result of its lines exactly when it is within the limit |
| `RuntimeControl.ReadyIffVerified` | src/runtime-control.ts:124-172 | success exactly when the hello, then the first answer to initialize, then the first answer to status or refresh are accepted; the requests were then written in that order |
| `RuntimeControl.ReadyIffAnswersSay` | src/runtime-control.ts:124-172 | success, by the fields of the messages: the hello has the protocol, PID and version, and the watcher and refresh protocol asked for; the first answer to initialize no error and the version; the first to refresh or status after it no error and the acknowledgement or the report |
| `RuntimeControl.WrongHello` | src/runtime-control.ts:124-135 | which wrong field of the hello gives which failure, the first one first, with nothing written |
| `RuntimeControl.WrongBuild` | src/runtime-control.ts:140-143 | an error or a wrong version in the answer to initialize is a build mismatch |
| `RuntimeControl.WrongLast` | src/runtime-control.ts:153-172 | a wrong last answer fails the reconciliation or the status |
| `RuntimeControl.InvalidLine` | src/runtime-control.ts:120-123 | a line that is no JSON object is an invalid response |
| `RuntimeControl.RunsAreSafe` | src/runtime-control.ts:97-174 | over all events: the outcome is decided once, nothing is written after, and success means the stream was verified |
| `Markdown.PosixNormalize` | codegraph-kernel/src/markdown.rs:70-94 | the loop computes the normal form |
| `Markdown.NormalizedIsCanonical` | codegraph-kernel/src/markdown.rs:70-94 | no empty or `.` segment, `..` only in front and never in absolute paths; idempotent |
| `Markdown.DirectoryMayBeNormalizedFirst` | codegraph-kernel/src/markdown.rs:123-137 | normalize(a/b) equals normalize(normalize(a)/b) exactly when a is not empty |
| `Markdown.NormalizingKeepsMeaning` | codegraph-kernel/src/markdown.rs:70-94 | a normalized path leads, from every directory, where the path does |
| `Markdown.SameNormalFormIffSameMeaning` | codegraph-kernel/src/markdown.rs:70-94 | two paths have one normal form exactly when they are of one sort and lead to the same place from every directory |
| `Markdown.DecodePath` | codegraph-kernel/src/markdown.rs:43-67 | the loop decodes all escapes or gives the text back |
| `Markdown.DecodesAsUriComponentIff` | codegraph-kernel/src/markdown.rs:42-67 | decoding, on its own, is that of decodeURIComponent except exactly when all escapes can be read, one only as a plus and a digit, and their bytes are UTF-8 |
| `Markdown.PlusEscapeIsDecoded` | codegraph-kernel/src/markdown.rs:56-59 | `%+5` is decoded to one byte |
| `Markdown.CandidatesAreNotDecoded` | codegraph-kernel/src/markdown.rs:28-35 | a reference without a percent sign before its query and anchor, as the candidate pattern lets through, is taken as it stands |
| `Markdown.TakenIffInside` | codegraph-kernel/src/markdown.rs:102-150 | a reference is taken exactly when it is scheme-less, to a markdown file, and does not climb above its start; what is taken has no `..` segment and still ends as a markdown file |
| `Markdown.TargetMeans` | codegraph-kernel/src/markdown.rs:122-140 | a reference that starts with `./` or `../` leads where its segments lead from the directory of the file, any other where they lead from the root |
| `Markdown.DirectoryMeans` | codegraph-kernel/src/markdown.rs:122-127 | the directory of a file leads where all its segments but the last lead |
| `Docstring.JsMultilineStrip` | codegraph-kernel/src/docstring.rs:80-104 | the cursor loop equals a global replace of /^pat/gm by nothing, section 22.2.6.11 of ECMA-262 |
| `Docstring.StrippedIsReplaced` | codegraph-kernel/src/docstring.rs:80-104 | from every cursor position what is still written is what the remaining matches leave |
| `Docstring.CollectComments` | codegraph-kernel/src/docstring.rs:182-194 | the longest run of comments before the declaration, in source order |
| `Docstring.CommentsInOrder` | codegraph-kernel/src/docstring.rs:182-194 | the comments are all there are among those siblings, at increasing places |
| `Docstring.FirstChosen` | codegraph-kernel/src/docstring.rs:196-227 | a comment is kept exactly when it does not trail code and is joined to the declaration |
| `Docstring.NoBlankLineInside` | codegraph-kernel/src/docstring.rs:212-226 | from a kept comment to the declaration every row is part of a comment |
| `Directory.Scan.Walk` | src/directory.ts:457-469 | the bounded walk appends the listing up to the maximum |
| `Directory.FindIndexedSubprojectRoots` | src/directory.ts:448-472 | the first `max` of the pre-order listing; fewer mean it is complete |
| `Directory.ListedIffLeadsToRoot` | src/directory.ts:457-469 | the listing holds exactly the paths through eligible, unindexed directories within the depth to an indexed one |
| `Directory.FoundRootsAreApart` | src/directory.ts:440-447 | no root that is found lies beneath another |
| `Directory.BreadthFirstIff` | src/directory.ts:440-447 | the scan lists shallower roots first exactly when, at every directory it walks, no way to a root through an entry is longer than one through a later entry |
| `Directory.DeeperRootMayComeFirst` | src/directory.ts:440-447 | under any limits that let them be seen, a root two levels down comes before a later one a single level down, and is all that `max` 1 finds |
| `Directory.ScanMayStartDeep` | src/directory.ts:416-420 | the same under the skip list of the source and depth 4 |
| `Directory.FindNearestCodeGraphRoot` | src/directory.ts:394-412 | the closest initialized directory at or above a path, none exactly when there is none |
| `FileLimits.ReadBoundedSource` | src/file-limits.ts:101-128 | whatever happens to the file between calls: at most the limit and one byte are held, bytes returned are within the limit and were in the file, null means over it; of an unchanged file exactly its content or null |
| `FileLimits.ReadChunks` | src/file-limits.ts:110-118 | the loop ends, short reads included, and reads the prefix of an unchanged file |
| `FileLimits.RewriteIsUnnoticedIff` | src/file-limits.ts:14-32 | when two contents hash alike: equal, both over the limit and of one size, or one the stamp of the other |
| `FileLimits.CrossingTheLimitMayGoUnnoticed` | src/file-limits.ts:14-22 | a file over the limit, of any size whose digits fit, and the text of its own stamp hash alike |

## Left out

- StaleVerdictIsSafeIff: leaves open a verdict on a break level whose file has gone while a file below it names the judging process itself; who may still come by then depends on where every other agent stands.
- RecoveryIsExact: states what happens in a directory nobody else touches; for every other the contracts of `FileLock.Lock` say which moves of the protocol are made.
- RWalker.Extract: rows are numbered by u32, so the tree must have fewer than 2^32-2 nodes; strings are claimed while the arena is under 2^32-1 bytes.
- LuaWalker.Extract: the same.
- EveryCallIsAccountedFor: how the walk came to a call is read off the visits it records, which stand for no row; `EveryCallYieldsExactly` says the same from the tree.
- The fallback for file systems without hard links and the grace period of empty lock files: they need wall-clock assumptions.
- Unreadable lock files (answered `held`), foreign writers and `codegraph unlock`.
- Calling a mutex's release function twice; `isLocked` and `withLock` beyond acquire and release.
- Markdown string references, function-ref candidates and the depth guard inside the walkers; the text of docstrings and of the parse warning.
- The bool flags of a node other than isExported, and the languages other than R, Lua and Luau.
- The kernel's tree-sitter trees: pre-order numbers stand for node identity, and the byte and UTF-16 columns are given with the spans.
- The checks around the handshake: lock records before and after it, and `startRuntimeWatcher`, which retry over calls into other components.
- The candidate pattern of markdown references and their UTF-16 offsets.
- The comment patterns themselves, wrapper climbing, and the directive filter of `preceding_docstring_with`.
- In the bounded reader, room in read buffers that short reads leave unused, and the copy made by the final concatenation, are not counted as held.
- Unsafe roots, symbolic links and what makes a directory initialized are given as flags of the directory tree.
