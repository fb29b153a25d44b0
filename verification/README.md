# Verified model of clangd's core and its neighbours

This project models, in Dafny, the parts of clang-tools-extra that are algorithms
and protocols rather than uses of clang's AST, and proves what they are for:

| area | source | files |
|---|---|---|
| request queue of one AST worker, versions of diagnostics | clangd/TUScheduler.cpp, clangd/ClangdServer.cpp | WorkerProtocol, WorkerTheorems, TUScheduler, ServerProtocol, ServerTheorems, ServerReads, ServerOrigins, DocumentVersions |
| fuzzy matching of identifiers | clangd/FuzzyMatch.cpp | FuzzyScoring, FuzzyOptimal, FuzzyTable, FuzzyMatch, FuzzyMeaning |
| removing overlapping fixes | clang-tidy/ClangTidyDiagnosticConsumer.cpp | FixIntervals, FixSweep, FixEvents, FixApply, FixOrder |
| ranking completions | clangd/CodeComplete.cpp | Heap, SortKey, CodeComplete |
| JSON text | clangd/JSONExpr.cpp | JsonText, JsonParse, JsonGrammar, JsonStandard, JsonDocuments, JsonRoundTrip, JsonLayout, JsonReparse, JsonNumbers, JsonUnicode, JSONExpr |
| message framing | clangd/JSONRPCDispatcher.cpp | UnsignedIntegers, Framing, JSONRPCDispatcher |
| drafts and positions | clangd/DraftStore.cpp, clangd/SourceCode.cpp | SourceCode, DraftStore |
| helper placement in clang-move | clang-move/HelperDeclRefGraph.cpp, clang-move/ClangMove.cpp | HelperDeclRefGraph, ClangMove |
| fuzzy symbol search | include-fixer/FuzzySymbolIndex.cpp | SymbolTokens, SymbolSegments, QueryPattern, FuzzySymbolIndex |

Options, Bytes, Sequences, Lines and Decimals are shared by several areas. Where the source
updates an object, a buffer or a container in place, there is a class or a method
with a loop whose contract ties the new state to a function of the old one; the
properties are then proved about those functions.

`dafny verify dfyconfig.toml` checks everything.

## What is proved

**The queue.** Clients and the worker thread interleave freely and the timer is
nondeterministic. In every run the reads that have been answered are exactly the
ones a queue that runs everything in order would have answered, each with the inputs
of the latest update submitted before it (`ReadsSeeLatestUpdate`, `AsyncRefinesSync`).
No Yes update is skipped and no wanted diagnostics are lost (`DiagnosticsNeverLost`);
what may be skipped is skipped (`ScheduleExactly`), so of updates typed one after another
only the last is built (`TypingKeepsLast`).
After `stop` the worker always has a step to take and takes finitely many
(`StopDrains`). Over all runs of a server that adds, removes and re-adds files, old and
new workers running at once, published versions never go back, and strictly increase
until the 64-bit counter wraps (`PublishedVersionsIncrease`); the last version's
diagnostics are the last published (`LatestDiagnosticsWin`), and nothing is published that
no added document asked for (`PublicationsAreWanted`). Over the same runs every
read is answered once, with the document as last added before it, or with an error when
the file is not tracked or has no AST (`EveryReadIsAnswered`).

**Fuzzy matching.** The specification is the maximum over all legal sequences of
Miss and Match. The dynamic program, with its finite sentinel, its 15-bit score fields
and its one-bit traceback, finds it: no match is reported exactly when no legal
alignment exists, the cheap rejection included (`MatchIsOptimal`), and following the
`Prev` bits gives a best alignment and its letter scores (`TraceBackIsBest`). Every cell
is the maximum for its state (`CellIsMaximum`), and unreachable states never look
reachable (`RealExactly`). On bytes, what is allowed and what it scores is exactly
`RulesExactly`; so a pattern matches if and only if its letters are found in order from a
strong start on (`MatchesExactly`), and scores highest if and only if it lies on the
beginning of the word (`PerfectExactly`).

**Overlapping fixes.** An error keeps its fix exactly when whatever overlaps one of its
intervals lies strictly inside it or is the same stretch and belongs to a smaller error
(`RemoveIncompatibleErrors`). The sweep does not look at insertions, which have no
interval, so that kept edits apply in any order with the same result is not always
true: two insertions at one offset (`InsertionsAtOneOffset`) and an insertion inside a
stretch that another edit replaces (`InsertionInReplacement`) are kept and give
different texts. Exactly these are the ways to fail: kept edits, insertions among them,
give the same text in every order, for all texts of a length, if and only if no
insertion that is not empty falls inside another edit's stretch and the texts inserted
at one offset commute (`KeptFixesApplyInAnyOrder`). Next to a replacement an insertion
does no harm (`InsertionAtStart`, `InsertionAtEnd`), as checks rely on that remove a
name and insert another in its place (`RenamedEitherWay`).

**Ranking.** Results of Sema and symbols of the index are merged without losing any
or offering anything else (`EverySymbolOffered`, `OfferedExactly`); after any pushes the heap holds the best N, `items` sorts them
(`MergeResults`), and the byte order of `sortText` is the ranking order for all floats
but NaN (`SortTextOrder`).

**JSON.** The parser accepts a text with a value exactly when it is the text of a syntax
tree with that value (`AcceptedExactly`), and the texts with a value are those of RFC 8259,
but that its numbers are what `strtod` takes, which is more than the standard allows
(`AcceptedIsStandard`, `StandardIsAccepted`, `NumberTextIsRead`). Whitespace and strings are
those of the standard, on bytes (`SkippedIsWhitespace`, `StringsAreStandard`). The indented
text is the compact one with whitespace put in place of none as its brackets, commas and
colons say (`LayoutExactly`). Printing compactly or with any indentation and parsing gives the value back
(`PrintThenParse`; for integers of up to six digits from the C standard's contract alone,
`IntegralRoundTrip`). The value of any accepted text reparses (`AcceptedReparses`). A
`\u` sequence appends well-formed UTF-8 for the scalar values of its UTF-16 units
(`EscapeMeaning`). Surrogate pairs are joined with `|` where the standard adds: the
result is right exactly when bit 0x40 of the leading unit's offset is clear
(`CombineExactly`, `ScalarsAgreeExactly`; `CombineWrong` has U+20000 read as U+10000).

**Framing.** From written messages, whatever other headers and comments stand around
them, exactly those that are not empty and at most 1 GB are read, in order, and the
others are skipped whole (`MessageIsRead`, `FramesAreRead`); a message cut short gives
nothing (`FramesCutShort`); JSON values sent by one end
are the values the other end parses (`ValuesArrive`). The length is read with radix 0,
so the text shows its own radix (`ParsesExactly`). A length that was printed is read
again (`ReadsDigits`), but a text of decimal digits in general is read as its decimal
value if and only if that is less than 2 to the 64, or less than 8 when there is a zero
before another digit (`DecimalExactly`); "010" is read as 8 (`TenReadAsEight`).

**Drafts.** Offsets and strictly valid positions correspond one to one
(`StrictlyValidExactly`); an edit is accepted exactly when its range is a stretch of the
text (`EditExactly`), one without a range replaces everything (`FullTextReplaces`); updates are all or nothing, and any accepted list of changes
can be undone (`UndoAllRestores`).

**clang-move.** The visit finds exactly the reachable declarations on any graph
(`GetReachableNodes`); new.cc is closed under references to helpers (`NewCCIsClosed`),
and old.cc has the helpers that what remains of old.h and the remaining helpers refer to
(`OldCCIsClosed`). What else remains in old.cc is not looked at: a helper that it refers
to stays exactly when what remains of old.h uses that helper (`OtherKeepsHelperExactly`),
so a helper that only a function outside old.h uses is removed (`HelperOfOtherLost`). A helper that is itself named for moving is removed
from old.cc in any case, but arrives in new.cc exactly when it takes part in some
reference; otherwise it is lost (`NamedHelperArrivesExactly`, `NamedHelperLost`).

**Symbol search.** A query's regular expression matches the tokens of a symbol exactly
when the query's words are cut into beginnings of consecutive tokens, each word
beginning a new one (`QueryMatchesExactly`); tokens are the words that the name is put
together from, in lower case (`TokensAreTheWords`).

## Model

| member | source | states |
|---|---|---|
| WorkerTheorems.DeadPrefixExact | clangd/TUScheduler.cpp:344-389 | a request may be dropped when it is a No update, or an Auto update with a later one that wants diagnostics, right before another update; the skip loop removes every head that may be dropped and stops at the first request that may not |
| WorkerTheorems.HeadSkippedExactly | clangd/TUScheduler.cpp:363-389 | the branches skip the head exactly when it may be dropped |
| WorkerTheorems.ScheduleExactly | clangd/TUScheduler.cpp:344-349 | scheduling takes off the queue exactly the longest beginning of requests that may be dropped, records them as skipped and changes nothing else; the head it leaves may not be dropped |
| WorkerTheorems.TypingKeepsLast | clangd/TUScheduler.cpp:350-352 | of Auto updates waiting one after another only the last is left |
| WorkerTheorems.RunKeepsInv | clangd/TUScheduler.cpp:213-394 | every run keeps the queue the undecided suffix of what was submitted, every skip justified, and the memory and callbacks those of the requests that ran |
| WorkerTheorems.SkippingInvisible | clangd/TUScheduler.cpp:344-389 | running only what justified skipping leaves answers every read as running everything does |
| WorkerTheorems.ReferenceKeepsPromise | clangd/TUScheduler.h:73-78 | a queue that runs everything shows each read the inputs and AST of the latest update submitted before it |
| WorkerTheorems.ReadsSeeLatestUpdate | clangd/TUScheduler.cpp:213-389 | at every moment of every interleaving the reads answered so far are the promised ones, once each and in order; with an empty queue, all of them |
| WorkerTheorems.SyncRunsAll | clangd/TUScheduler.cpp:277-283 | the synchronous mode runs every request as the reference does |
| WorkerTheorems.AsyncRefinesSync | clangd/TUScheduler.cpp:277-389 | an idle asynchronous worker has answered every read, and would answer the next, as the synchronous mode fed the same requests |
| WorkerTheorems.DiagnosticsNeverLost | clangd/TUScheduler.cpp:213-233 | a Yes update that left the queue was run; once idle, every Yes or Auto update is matched by one that ran, itself or later, and whose diagnostics were reported if there are any |
| WorkerTheorems.ReportsAreWanted | clangd/TUScheduler.cpp:228-229 | whatever is reported is the result of a submitted update that ran and did not ask for No |
| WorkerTheorems.QueueDiscipline | clangd/TUScheduler.cpp:325-349 | scheduling leaves a head that may not be dropped and never empties the queue, the request in flight is the head and is the one popped, and an empty queue means everything submitted was run or skipped |
| WorkerTheorems.WakeTakesExactly | clangd/TUScheduler.cpp:344-360 | a waiting worker takes a request at once exactly when a read or a Yes update is queued, or it was told to stop, and otherwise when the head's time is up |
| WorkerTheorems.StoppedMakesProgress | clangd/TUScheduler.cpp:268-307 | after stop the worker has a step to take until it has returned, and each brings the end closer |
| WorkerTheorems.StoppedHaltsOnlyAtExit | clangd/TUScheduler.cpp:302-307 | after stop no step is possible exactly when run has returned |
| WorkerTheorems.StopDrains | clangd/TUScheduler.cpp:268-342 | a run continued after stop has a bounded number of steps, and halts with every request decided |
| TUScheduler.DrainIsARun | clangd/TUScheduler.cpp:302-307 | what run does after stop is one of the interleavings, so every theorem about runs holds of it, and it ends having returned |
| TUScheduler.ASTWorker.constructor | clangd/TUScheduler.cpp:197-203 | a new worker is in the initial state |
| TUScheduler.ASTWorker.RunAction | clangd/TUScheduler.cpp:215-251 | the closures of update and runWithAST: rebuild and report unless No, or show the inputs and the AST or an error |
| TUScheduler.ASTWorker.StartTask | clangd/TUScheduler.cpp:277-293 | one Submit step: run at once in the synchronous mode, else append |
| TUScheduler.ASTWorker.Stop | clangd/TUScheduler.cpp:268-275 | one Stop step |
| TUScheduler.ASTWorker.ShouldSkipHeadLocked | clangd/TUScheduler.cpp:363-389 | true exactly when the head may be dropped: it is a No update, or an Auto update followed somewhere by one that wants diagnostics, and the next request is an update |
| TUScheduler.ASTWorker.ScheduleLocked | clangd/TUScheduler.cpp:344-360 | removes exactly the requests at the head that may be dropped, so that the head left may not be; the deadline is zero when something must not wait |
| TUScheduler.ASTWorker.TakeOrWait | clangd/TUScheduler.cpp:298-326 | one Wake step: take the head, wait on, or return, for either outcome of the timer |
| TUScheduler.ASTWorker.RunHead | clangd/TUScheduler.cpp:329-334 | one Execute step, the request staying in the queue |
| TUScheduler.ASTWorker.PopFront | clangd/TUScheduler.cpp:336-339 | one PopFront step |
| TUScheduler.ASTWorker.Run | clangd/TUScheduler.cpp:295-342 | entered before or after stop and with calls of clients coming in between, the thread goes through a run of the protocol and returns after stop, with an empty queue, having received exactly the requests sent |
| ServerTheorems.RunKeepsWorkers | clangd/TUScheduler.cpp:450-474 | in every run Files lists exactly the workers that were not stopped, the newest of each file, and each worker is in a state its own protocol can reach |
| ServerTheorems.ClientNeverBlocked | clangd/TUScheduler.cpp:286-292 | no client call ever reaches a stopped worker: the assertion cannot fail |
| ServerTheorems.RunPublishesMonotone | clangd/ClangdServer.cpp:480-496 | published versions of a file never go back, even when counters wrap |
| ServerTheorems.RunKeepsServerInv | clangd/ClangdServer.cpp:119-139 | until a counter wraps: versions are ordered over all workers of a file, undecided requests are unpublished, and what was reported was published or superseded |
| ServerTheorems.CounterIsVersion | clangd/ClangdServer.cpp:124-136 | in every run the counter of a file holds the version that follows from the calls so far |
| ServerTheorems.VersionIsCalls | clangd/ClangdServer.cpp:124-136 | that version is the number of addDocument and removeDocument calls for the file, in 64 bits |
| ServerOrigins.RunKeepsOrigins | clangd/ClangdServer.cpp:119-139 | in every run each update that any worker of a file has got was added to that file, with these inputs and wishes, by the call whose number is its version |
| ServerOrigins.PublicationsAreWanted | clangd/ClangdServer.cpp:119-133 | whatever is published are the diagnostics of a document that was added and did not ask for No, under the number of the call that added it |
| ServerTheorems.PublishedVersionsIncrease | clangd/ClangdServer.cpp:119-139 | over every run, with old and new workers of a file at once, published versions never go back, and strictly increase until the 64-bit counter wraps |
| ServerTheorems.LatestDiagnosticsWin | clangd/ClangdServer.cpp:480-496 | when all workers are idle and the last call for a file was an addDocument that wants diagnostics, its diagnostics are the last ones published |
| ServerReads.WorkerKeepsPromise | clangd/TUScheduler.cpp:236-255 | a worker gives no answer that it does not owe, and has given all when its queue is empty |
| ServerReads.RunStaysBalanced | clangd/TUScheduler.cpp:450-485 | over every run, with files removed and added again, what was promised is what workers owe and what was refused at once, and likewise for the answers given |
| ServerReads.EveryReadIsAnswered | clangd/TUScheduler.h:73-78 | in every run of the server no read gets an answer but the one promised when it was made, none gets two, and once all workers are idle each has got it |
| DocumentVersions.ClangdServer.NextVersion | clangd/ClangdServer.cpp:124-136 | increments the 64-bit counter of one file and no other |
| DocumentVersions.ClangdServer.ConsumeDiagnostics | clangd/ClangdServer.cpp:480-496 | drops a version older than the last reported one, else records and publishes it |
| FuzzyScoring.TypeMeaning | clangd/FuzzyMatch.cpp:119-142 | the packed table gives every byte the type its comments say |
| FuzzyScoring.RoleMeaning | clangd/FuzzyMatch.cpp:148-175 | the packed table makes a head of a segment at a start, after a separator, and where the case changes, as the comments say |
| FuzzyMatch.RotateSlidesWindow | clangd/FuzzyMatch.cpp:185-199 | rotating a type into the six bits makes the window of the previous three types that of the next three |
| FuzzyMatch.CalculateRoles | clangd/FuzzyMatch.cpp:180-200 | fills in the role of every character and returns the set of types |
| FuzzyOptimal.ScoresFit | clangd/FuzzyMatch.h:80-87 | every stored score fits the signed 15-bit field, a reachable state's score is at least -4 per character and an unreachable one is awful |
| FuzzyTable.RealExactly | clangd/FuzzyMatch.cpp:71-76 | a cell is not awful exactly when some legal sequence ends in its state |
| FuzzyTable.CellIsMaximum | clangd/FuzzyMatch.cpp:229-270 | for every pattern position, word position and last action, no legal sequence that ends there scores more than the cell, and unless the cell is awful one scores just that |
| FuzzyOptimal.CellIsUpperBound | clangd/FuzzyMatch.cpp:238-270 | no legal sequence that ends in a state scores more than its cell |
| FuzzyOptimal.TraceAttainsCell | clangd/FuzzyMatch.cpp:341-358 | from a real cell the Prev bits spell a legal sequence that scores exactly the cell |
| FuzzyOptimal.TraceGainsAreLetterScores | clangd/FuzzyMatch.cpp:341-358 | the differences along the path are the scores of the single letters |
| FuzzyOptimal.GreedyIsAhead | clangd/FuzzyMatch.cpp:214-220 | the subsequence scan is never behind any legal alignment |
| FuzzyOptimal.DecideIsOptimal | clangd/FuzzyMatch.cpp:94-105 | for all rules with bounded scores: no match exactly when no legal alignment exists, else the clamped score of a best one |
| FuzzyOptimal.PickedSpellsPattern | clangd/FuzzyMatch.cpp:272-274 | the characters matched by a legal sequence spell the pattern matched so far |
| FuzzyOptimal.TableSolves | clangd/FuzzyMatch.cpp:238-270 | the optimal table satisfies the assignments of buildGraph, truncation to 15 bits included |
| FuzzyMatch.RulesAreBounded | clangd/FuzzyMatch.cpp:272-317 | the penalties and bonuses are within the bounds that keep sentinels apart, and the rules allow no match that the subsequence scan would not see |
| FuzzyMeaning.RolesExactly | clangd/FuzzyMatch.cpp:144-175 | on bytes: a segment starts where a letter or digit begins the text or follows neither, and at a capital next to a small letter; other letters and digits are inside |
| FuzzyMeaning.TypesExactly | clangd/FuzzyMatch.cpp:180-200 | the set of types tells whether the text has a capital and whether it has a small letter |
| FuzzyMeaning.RulesExactly | clangd/FuzzyMatch.cpp:272-317 | for texts of any bytes and length, cut to 63 and 127: a match is allowed exactly where the letters agree up to ASCII case and, for the first pattern character, not inside a segment unless at a capital of a word that has small letters; what every match earns and every skip costs, by starts and insides of segments, case, position and last action |
| FuzzyMeaning.MatchesExactly | clangd/FuzzyMatch.cpp:94-105 | a pattern matches a word exactly when its characters are found in it in order, up to ASCII case, the first at such a place |
| FuzzyMeaning.CapitalsMatchAtTheFront | unittests/clangd/FuzzyMatchTests.cpp:138 | in a word of capitals a pattern must begin with the first letter, so b does not match NDEBUG |
| FuzzyMeaning.CapitalMatchesInside | clangd/FuzzyMatch.cpp:281-284 | one letter matches any capital of a word that has small letters, as b does in ABCDef |
| FuzzyMeaning.PerfectExactly | clangd/FuzzyMatch.cpp:234-237 | the score is the highest, 3 for each pattern character, exactly when the pattern lies on the beginning of the word: each character the same up to case, in the same case or both at starts of segments, and none starting a segment inside one of the word |
| FuzzyMeaning.PrefixIsPerfect | clangd/FuzzyMatch.cpp:299-305 | a beginning of a word of at most 63 bytes in the same case, the whole word among them, has the highest score |
| FuzzyMatch.MatchIsOptimal | clangd/FuzzyMatch.cpp:78-105 | for words and patterns of any bytes and length: None exactly when no legal alignment of the truncated texts exists, 1 exactly for the empty pattern, else the best score clamped; which alignments are legal and what they score is RulesExactly |
| FuzzyMatch.MatchSpellsPattern | clangd/FuzzyMatch.cpp:272-285 | a legal alignment picks characters that are the pattern up to case |
| FuzzyMatch.TraceBackIsBest | clangd/FuzzyMatch.cpp:341-358 | the reported path is a best complete alignment and the letter scores add up along it |
| FuzzyMatch.FuzzyMatcher.constructor | clangd/FuzzyMatch.cpp:78-92 | any pattern, the empty one included, is truncated and analysed and the boundary of the table is filled: words can be matched |
| FuzzyMatch.FuzzyMatcher.FillFirstRow | clangd/FuzzyMatch.cpp:239-243 | the first row of the table |
| FuzzyMatch.FuzzyMatcher.FillRow | clangd/FuzzyMatch.cpp:244-269 | one pattern character: the row is that of the solution, the rows before it unchanged |
| FuzzyMatch.FuzzyMatcher.BuildGraph | clangd/FuzzyMatch.cpp:238-270 | the array holds the optimal table for every pattern position, word position and last action |
| FuzzyMatch.FuzzyMatcher.IsSubsequence | clangd/FuzzyMatch.cpp:214-220 | true exactly when the greedy scan finds the whole pattern |
| FuzzyMatch.FuzzyMatcher.Init | clangd/FuzzyMatch.cpp:202-227 | truncates and analyses the word, or rejects it |
| FuzzyMatch.FuzzyMatcher.MatchWord | clangd/FuzzyMatch.cpp:94-105 | the verdict of the specification for the pattern and this word, that MatchesExactly, MatchIsOptimal and PerfectExactly are about |
| FuzzyMatch.FuzzyMatcher.TraceBack | clangd/FuzzyMatch.cpp:341-358 | walks back through the array along the Prev bits |
| FuzzyMatch.FuzzyMatcher.DumpLast | clangd/FuzzyMatch.cpp:341-358 | after a match, the path and letter scores of the optimal table |
| FixIntervals.LessIsBefore | clang-tidy/ClangTidyDiagnosticConsumer.cpp:669-717 | for offsets and sizes below 2 to the 31, the five-component tuple of 32-bit values orders events as its comments say |
| FixIntervals.StraddlesExactly | clang-tidy/ClangTidyDiagnosticConsumer.cpp:674-698 | an interval is open at an endpoint of another exactly when they overlap and it is not strictly inside |
| FixIntervals.SizeAddsUp | clang-tidy/ClangTidyDiagnosticConsumer.cpp:721-731 | sizes add up when fixes are put together |
| FixIntervals.KeptErrorsDisjoint | clang-tidy/ClangTidyDiagnosticConsumer.cpp:775-783 | the intervals of two errors that keep their fixes do not overlap |
| FixSweep.OpenAtEvent | clang-tidy/ClangTidyDiagnosticConsumer.cpp:754-773 | at an event of the sorted list an interval is open exactly when its begin is before and its end after it |
| FixSweep.CountStep | clang-tidy/ClangTidyDiagnosticConsumer.cpp:763-770 | the counter is the number of open intervals, and differs from zero at the check exactly when another interval is open |
| FixSweep.CountAtEnds | clang-tidy/ClangTidyDiagnosticConsumer.cpp:772 | the counter starts and ends at zero |
| FixSweep.Sweep | clang-tidy/ClangTidyDiagnosticConsumer.cpp:755-773 | one file's sweep clears exactly the marked errors; the counter is never negative and ends at zero |
| FixSweep.MarkedMeansClash | clang-tidy/ClangTidyDiagnosticConsumer.cpp:767-768 | an error is marked exactly when one of its intervals straddles another |
| FixEvents.ComputeSizes | clang-tidy/ClangTidyDiagnosticConsumer.cpp:721-731 | the size of an error is the sum of its replacements' lengths |
| FixEvents.BuildEvents | clang-tidy/ClangTidyDiagnosticConsumer.cpp:733-752 | each file's list has the two events of every non-empty replacement in it |
| FixEvents.FileEndpoints | clang-tidy/ClangTidyDiagnosticConsumer.cpp:733-752 | the events of a file are the endpoints of exactly the intervals in it, once each |
| FixEvents.SortEventsOk | clang-tidy/ClangTidyDiagnosticConsumer.cpp:759 | sorting by operator< puts the same events into the sweep order |
| FixEvents.SweepFile | clang-tidy/ClangTidyDiagnosticConsumer.cpp:755-773 | one file's round clears exactly the errors with a clash in that file |
| FixEvents.ClashesMeansNotKept | clang-tidy/ClangTidyDiagnosticConsumer.cpp:754-773 | an error clashes in some file exactly when it is not Kept |
| FixEvents.ComputeApply | clang-tidy/ClangTidyDiagnosticConsumer.cpp:720-773 | Apply is true exactly for the Kept errors |
| FixEvents.RemoveIncompatibleErrors | clang-tidy/ClangTidyDiagnosticConsumer.cpp:651-784 | exactly the errors that are not Kept lose all of their fix and get the note on overlaps after their notes; the others are unchanged |
| FixApply.ApplyIsRender | clang-tidy/ClangTidyDiagnosticConsumer.cpp:655-661 | edits that do not get in each other's way, insertions next to replacements included, applied one after another give the text with each position's piece in place |
| FixOrder.TwoInsertions | clang-tidy/ClangTidyDiagnosticConsumer.cpp:744-746 | two insertions at one offset can be made in either order exactly when their texts commute |
| FixOrder.InsertionAtStart | clang-tidy/modernize/ReplaceRandomShuffleCheck.cpp:96-97 | at the beginning of a stretch an insertion gives the same text before and after the replacement |
| FixOrder.InsertionAtEnd | clang-tidy/ClangTidyDiagnosticConsumer.cpp:91-98 | so does an insertion at its end |
| FixOrder.RenamedEitherWay | clang-tidy/modernize/ReplaceRandomShuffleCheck.cpp:96-97 | removing a name and inserting another where it began renames it in either order |
| FixOrder.EnclosedOrderMatters | clang-tidy/ClangTidyDiagnosticConsumer.cpp:744-746 | an insertion strictly inside a stretch that is replaced gives another text before than after the replacement |
| FixOrder.AnyOrderExactly | clang-tidy/ClangTidyDiagnosticConsumer.cpp:655-661 | edits whose replacements do not overlap give the same text in every order exactly when no insertion falls strictly inside another's stretch and insertions at one offset commute |
| FixOrder.KeptFixesApplyInAnyOrder | clang-tidy/ClangTidyDiagnosticConsumer.cpp:775-783 | the same condition, on offsets and texts, is exactly when the edits of kept errors in a file can be applied in any order |
| FixOrder.InsertionsAtOneOffset | clang-tidy/ClangTidyDiagnosticConsumer.cpp:744-746 | two insertions at one offset are both kept and their order matters |
| FixOrder.InsertionInReplacement | clang-tidy/ClangTidyDiagnosticConsumer.cpp:744-746 | a replacement and an insertion inside it are both kept and their order matters |
| SortKey.EncodeFloatOrder | clangd/CodeComplete.cpp:193-207 | a < b exactly when encodeFloat(a) < encodeFloat(b), for all floats but NaN, with -0 equal to +0 |
| SortKey.HexOrder | clangd/CodeComplete.cpp:215-216 | fixed-width lower-case hexadecimal sorts like the numbers |
| SortKey.SortTextOrder | clangd/CodeComplete.cpp:209-220 | the byte order of sortText is the order of greater: score descending, then name ascending |
| Heap.PushHeap | clangd/CodeComplete.cpp:542-546 | std::push_heap: the last element is moved to its place, a heap of the same elements |
| Heap.PopHeap | clangd/CodeComplete.cpp:540 | std::pop_heap: the front goes to the back, the others are a heap |
| Heap.SortHeap | clangd/CodeComplete.cpp:555 | std::sort_heap: the same elements in order |
| CodeComplete.BetterIsStrictWeak | clangd/CodeComplete.cpp:561-565 | greater is a strict weak order, as the heap functions demand |
| CodeComplete.TopN.constructor | clangd/CodeComplete.cpp:531 | nothing kept and nothing dropped |
| CodeComplete.TopN.Push | clangd/CodeComplete.cpp:533-551 | the heap holds the N best of everything pushed, or all of it; true exactly when more than N were pushed |
| CodeComplete.TopN.Items | clangd/CodeComplete.cpp:553-558 | the kept candidates from best to worst |
| CodeComplete.EverySymbolOffered | clangd/CodeComplete.cpp:943-962 | a symbol of the index is merged into a result of Sema exactly when one has its ID, and otherwise offered alone |
| CodeComplete.ScoredExactly | clangd/CodeComplete.cpp:966-990 | for all filters and scores: a candidate is scored as often as its source is there, exactly when its name is the one for that source (the symbol's if there is one, else Sema's), passes the filter and has this score |
| CodeComplete.OfferedExactly | clangd/CodeComplete.cpp:936-990 | how often a candidate is offered: once for each time Sema gave its result, with exactly the symbol that the index has for it, or once if it is a symbol of the index that no result of Sema is |
| CodeComplete.EveryResultOffered | clangd/CodeComplete.cpp:954-956 | a result of Sema that the index does not have, such as a local variable, is offered if its name passes the filter |
| CodeComplete.MergeResults | clangd/CodeComplete.cpp:928-990 | the items and what is left out of them are together exactly what is to be offered, as often; the items are in order, nothing left out is better than one of them, and something is left out only when the limit is reached; the list is incomplete exactly when something was left out or the index had more |
| CodeComplete.SortTextsFollowItems | clangd/CodeComplete.cpp:555-565 | a client that sorts items by sortText leaves them in their order |
| JsonGrammar.PiecesAreRead | clangd/JSONExpr.cpp:241-283 | the text of any string pieces, raw bytes, one-letter escapes and \u units, is read as their value, a surrogate pair as one character |
| JsonGrammar.AcceptedPieces | clangd/JSONExpr.cpp:241-283 | an accepted string is the text of such pieces up to its quote |
| JsonGrammar.NodeIsRead | clangd/JSONExpr.cpp:135-239 | the text of any syntax tree, whatever whitespace stands in it, is read as the tree's value and nothing after it is consumed |
| JsonGrammar.AcceptedNode | clangd/JSONExpr.cpp:135-239 | an accepted value is the text of a syntax tree |
| JsonGrammar.AcceptedExactly | clangd/JSONExpr.cpp:383-390 | a text is accepted with a value exactly when it is the text of a syntax tree with that value, with whitespace around it; which texts those are is AcceptedIsStandard |
| JsonDocuments.NumberCharactersAre | clangd/JSONExpr.cpp:124-128 | the characters of numbers are 0123456789eE+-. and no others |
| JsonDocuments.NumberReadExactly | clangd/JSONExpr.cpp:231-239 | a token ends at the first byte that is none of these; it is the number that strtod makes of it, or an error when there is none |
| JsonDocuments.NumberTextIsRead | clangd/JSONExpr.cpp:231-239 | any number of RFC 8259, section 6, of which strtod makes d is read as d and the rest is left |
| JsonDocuments.AcceptedIsStandard | clangd/JSONExpr.cpp:135-239 | a document is accepted exactly when it is a text of RFC 8259, sections 2 to 7 on bytes, but that runs of number characters of which strtod makes a value are its numbers |
| JsonDocuments.StandardIsAccepted | clangd/JSONExpr.cpp:135-239 | every text of the standard of whose numbers strtod makes values is accepted |
| JsonDocuments.WordsAreRead | clangd/JSONExpr.cpp:140-152 | null, true and false are read as these values |
| JsonStandard.SkippedIsWhitespace | clangd/JSONExpr.cpp:111-114 | what is skipped is the longest beginning made of the whitespace of RFC 8259, section 2 |
| JsonStandard.StringsAreStandard | clangd/JSONExpr.cpp:241-283 | a string is accepted, and what follows is left, exactly when characters as in RFC 8259, section 7, on bytes, come before the quotation mark |
| JsonStandard.LetterIsStandard | clangd/JSONExpr.cpp:253-280 | each one-letter escape gives the byte of the standard |
| JsonStandard.UnitIsStandard | clangd/JSONExpr.cpp:319-332 | four hexadecimal digits of either case are the number they write |
| JsonRoundTrip.PiecesAreString | clangd/JSONExpr.cpp:398-426 | quote writes a string of any bytes as pieces with that value |
| JsonRoundTrip.NodeIsPrinted | clangd/JSONExpr.cpp:436-494 | what is printed, compact or indented, is the text of a syntax tree with the printed value |
| JsonRoundTrip.InsertLast | clangd/JSONExpr.cpp:203 | inserting properties in key order appends them |
| JsonRoundTrip.PrintThenParse | clangd/JSONExpr.cpp:383-390 | for every value and style, parsing the printed text succeeds with that value |
| JsonLayout.LayoutExactly | clangd/JSONExpr.cpp:436-494 | the compact text has no whitespace outside of strings, and the indented one is the compact one with new lines after opening and before closing brackets and after commas, n spaces for each bracket open there, and a space after each colon; empty brackets stay together |
| JsonLayout.EscapeExactly | clangd/JSONExpr.cpp:398-426 | how quote writes each byte: quotation mark and backslash after a backslash, tab, newline and carriage return as letters, other control characters as four digits, the rest as it is |
| JsonNumbers.IntegralRoundTrip | clangd/JSONExpr.cpp:447-449 | the same for integers of up to six digits, from the contract of %g and strtod alone |
| JsonReparse.InsertFinds | clangd/JSONExpr.cpp:203 | assigning a key of the object changes that key and no other |
| JsonReparse.InsertKeepsSorted | clangd/JSONExpr.cpp:203 | objects stay sorted by key |
| JsonReparse.ParsedIsSorted | clangd/JSONExpr.cpp:135-229 | every accepted text has a value whose objects are sorted at every depth |
| JsonReparse.AcceptedReparses | clangd/JSONExpr.cpp:383-390 | the value of any accepted text, if its numbers print back, prints to a text with the same value |
| JsonUnicode.EncodeAllDecodes | clangd/JSONExpr.cpp:285-312 | encodeUtf8 of scalar values is well-formed UTF-8 (RFC 3629, section 4) that decodes to them |
| JsonUnicode.CombineExactly | clangd/JSONExpr.cpp:363 | the joined value is the pair's exactly when bit 0x40 of First - 0xD800 is clear, else 0x10000 too small |
| JsonUnicode.ScalarsAgreeExactly | clangd/JSONExpr.cpp:334-365 | the scalars of the units are the standard's exactly when every pair's lead has that bit clear |
| JsonUnicode.EscapeMeaning | clangd/JSONExpr.cpp:314-366 | an accepted sequence spells UTF-16 units and appends their scalars, U+FFFD for a lone surrogate, as well-formed UTF-8 |
| JSONExpr.Parser.constructor | clangd/JSONExpr.cpp:93-94 | the cursor is at the start |
| JSONExpr.Parser.Next | clangd/JSONExpr.cpp:122 | returns the byte at the cursor and passes it, or zero at the end |
| JSONExpr.Parser.SkipWhitespace | clangd/JSONExpr.cpp:111-114 | the cursor is at the first byte that is not whitespace |
| JSONExpr.Parser.Fail | clangd/JSONExpr.cpp:368-380 | the error has the line, column and offset of the cursor |
| Lines.LineStartIsAfterNewline | clangd/JSONExpr.cpp:369-376 | the line of an error begins right after the last newline before it |
| JSONExpr.ErrorAdvances | clangd/JSONExpr.cpp:369-378 | lines of errors count from 1, columns from 0; each byte is a column, and a newline begins the next line |
| JSONExpr.Parser.ParseNumber | clangd/JSONExpr.cpp:231-239 | reads the run of number characters and what strtod makes of it, as NumberReadExactly says |
| JSONExpr.Parser.ParseUnicode | clangd/JSONExpr.cpp:314-366 | the loop over surrogates does what the specification does, from any cursor |
| JSONExpr.Parser.ParseString | clangd/JSONExpr.cpp:241-283 | the same for strings |
| JSONExpr.Parser.ParseExpr | clangd/JSONExpr.cpp:135-229 | the same for values: result, cursor and error; each call ends, with the text left as measure |
| JSONExpr.Parser.ParseElements | clangd/JSONExpr.cpp:169-183 | the array loop |
| JSONExpr.Parser.ParseProperties | clangd/JSONExpr.cpp:193-215 | the object loop |
| JSONExpr.Parser.AssertEnd | clangd/JSONExpr.cpp:98-103 | only whitespace may follow |
| JSONExpr.Parse | clangd/JSONExpr.cpp:383-390 | the value, or the message and position of the error; which texts have a value is AcceptedIsStandard |
| JSONExpr.HexBytes | clangd/JSONExpr.cpp:322-328 | four hexadecimal digits and their number, or a byte that is none |
| JSONExpr.Printer.Indenter | clangd/JSONExpr.cpp:537-553 | newlines with the current indentation, spaces after colons, and the level in and out |
| JSONExpr.Printer.WriteQuoted | clangd/JSONExpr.cpp:398-426 | appends the quoted string |
| JSONExpr.Printer.Print | clangd/JSONExpr.cpp:436-494 | appends the text of the value and leaves the indentation level as it was |
| JSONExpr.Format | clangd/JSONExpr.cpp:527-554 | the text of a value, compact or indented |
| Decimals.DecimalRoundTrip | clangd/JSONExpr.cpp:447-449 | decimal notation of an integer has that value |
| Framing.PassesIgnored | clangd/JSONRPCDispatcher.cpp:206-228 | comments and other headers are passed over |
| Framing.TrimmedExactly | clangd/JSONRPCDispatcher.cpp:224-226 | trimming takes off exactly the blanks, tabs, newlines, vertical tabs, form feeds and carriage returns at both ends |
| UnsignedIntegers.OverflowIsNoticed | clangd/JSONRPCDispatcher.cpp:224 | one more digit in 64 bits: dividing back notices every overflow and nothing else |
| UnsignedIntegers.ParsesExactly | clangd/JSONRPCDispatcher.cpp:224 | with radix 0 a text is a number exactly when what follows its prefix 0x, 0b, 0o, 0 or none is digits of that radix, at least one, with that value, which fits in 64 bits |
| UnsignedIntegers.DecimalExactly | clangd/JSONRPCDispatcher.cpp:224 | decimal digits are read as their decimal value exactly when it fits in 64 bits or, with a leading zero, is less than 8 |
| UnsignedIntegers.ReadsDigits | clangd/JSONRPCDispatcher.cpp:55-70 | a length that was printed is read as itself |
| UnsignedIntegers.TenReadAsEight | clangd/JSONRPCDispatcher.cpp:224 | "010" is read as 8 |
| Framing.ReadsDecimalLength | clangd/JSONRPCDispatcher.cpp:218-225 | a Content-Length line with any decimal digits, other than a leading zero before a larger number, sets the length to their value |
| Framing.ReadsLength | clangd/JSONRPCDispatcher.cpp:218-225 | a written Content-Length line sets the length, whatever it was before |
| Framing.MessageIsRead | clangd/JSONRPCDispatcher.cpp:183-263 | a message with any other headers and comments around its length is read whole, or skipped whole when empty or too large, and nothing after it is consumed |
| Framing.FramesAreRead | clangd/JSONRPCDispatcher.cpp:297-322 | from the concatenated frames of any bodies the loop reads exactly the non-empty ones of at most 1 GB, in order |
| Framing.MessageCutShort | clangd/JSONRPCDispatcher.cpp:245-262 | a stream that ends anywhere inside of a message gives no message and is at its end |
| Framing.FramesCutShort | clangd/JSONRPCDispatcher.cpp:297-322 | and then the loop has read the messages before it |
| Framing.FrameIs | clangd/JSONRPCDispatcher.cpp:64-68 | a frame is Content-Length: , the decimal length, two line ends and the text |
| JSONRPCDispatcher.JSONOutput.WriteMessage | clangd/JSONRPCDispatcher.cpp:55-70 | appends one frame |
| JSONRPCDispatcher.InputStream.ReadStandardMessage | clangd/JSONRPCDispatcher.cpp:183-263 | the message and the stream that the specification says, from any stream |
| JSONRPCDispatcher.InputStream.RunLoop | clangd/JSONRPCDispatcher.cpp:297-322 | the messages until the input ends; the loop ends |
| JSONRPCDispatcher.Transmit | clangd/JSONRPCDispatcher.cpp:55-70 | what one end writes the other reads |
| JSONRPCDispatcher.ValuesArrive | clangd/JSONRPCDispatcher.cpp:297-322 | JSON values printed and sent by one end are those that the other reads and parses |
| SourceCode.ComputeOffset | clangd/SourceCode.cpp:19-49 | the loop over lines computes the offset of a position, or the error |
| SourceCode.PositionAdvances | clangd/SourceCode.cpp:51-62 | positions begin at 0:0, a byte is a column and a newline begins the next line; offsets beyond the text have the position of its end |
| SourceCode.PositionThenOffset | clangd/SourceCode.cpp:19-62 | every offset is found again from its position |
| SourceCode.OffsetThenPosition | clangd/SourceCode.cpp:19-62 | every strictly valid position is found again from its offset |
| SourceCode.StrictlyValidExactly | clangd/SourceCode.cpp:19-62 | a position is strictly valid exactly when it is that of an offset |
| SourceCode.BeyondMeansLineEnd | clangd/SourceCode.cpp:37-48 | where columns beyond the line are allowed they mean its end |
| DraftStore.EditMeaning | clangd/DraftStore.cpp:61-96 | an edit between two offsets is accepted exactly when they are in order and the length agrees, and replaces exactly the text between them |
| DraftStore.EditExactly | clangd/DraftStore.cpp:61-96 | an edit with any range is accepted exactly when that is the stretch between two offsets, in order, of the length given, and then its text takes the place of the stretch |
| DraftStore.FullTextReplaces | clangd/DraftStore.cpp:57-60 | a change without a range puts its text in place of all contents, whatever they were and whatever accepted changes came before; the ones after it apply to that text |
| DraftStore.UndoRestores | clangd/DraftStore.cpp:61-96 | an accepted edit is taken back by the edit from its start to the end of the inserted text |
| DraftStore.ApplyInTwoParts | clangd/DraftStore.cpp:55-97 | changes apply one to the result of another, the first error being the outcome |
| DraftStore.UndoAllRestores | clangd/DraftStore.cpp:43-101 | any accepted list of changes is taken back by one more list |
| DraftStore.DraftStore.GetDraft | clangd/DraftStore.cpp:17-25 | the stored contents, if any |
| DraftStore.DraftStore.AddDraft | clangd/DraftStore.cpp:37-41 | replaces one draft and no other |
| DraftStore.DraftStore.RemoveDraft | clangd/DraftStore.cpp:103-107 | forgets one draft and no other |
| DraftStore.DraftStore.UpdateDraft | clangd/DraftStore.cpp:43-101 | all changes or none: on an error no draft changes, else exactly this one has the result; when the last change has no range, that is its text |
| HelperDeclRefGraph.HelperDeclRefGraph.GetOrInsertNode | clang-move/HelperDeclRefGraph.cpp:57-65 | the node of a declaration, added without references if there is none |
| HelperDeclRefGraph.HelperDeclRefGraph.AddEdge | clang-move/HelperDeclRefGraph.cpp:39-53 | adds one reference, and none from a declaration to itself |
| HelperDeclRefGraph.GraphExactly | clang-move/HelperDeclRefGraph.cpp:39-65 | whatever references are recorded, the edges are exactly those between different declarations, and the nodes their ends |
| HelperDeclRefGraph.HelperDeclRefGraph.VisitNode | clang-move/HelperDeclRefGraph.cpp:78-85 | depth-first: what is new is reachable and refers to connected nodes only; the visit ends on cycles |
| HelperDeclRefGraph.HelperDeclRefGraph.GetReachableNodes | clang-move/HelperDeclRefGraph.cpp:72-89 | exactly the declarations that a path of references leads to |
| ClangMove.ClangMoveTool.GetUsedDecls | clang-move/ClangMove.cpp:458-475 | exactly what one of the declarations reaches |
| ClangMove.ClangMoveTool.MoveDeclsToNewFiles | clang-move/ClangMove.cpp:802-828 | new.cc gets the moved declarations of old.cc in order, without the unused helpers |
| ClangMove.ClangMoveTool.RemoveDeclsInOldFiles | clang-move/ClangMove.cpp:724-749 | with an old header, the helpers that nothing left in it uses are removed as well |
| ClangMove.ClangMoveTool.OnEndOfTranslationUnit | clang-move/ClangMove.cpp:937-938 | new.h gets the moved declarations of old.h; new.cc those that are not in old.h, of the helpers only the used ones; nothing but helpers is removed beyond what was to be; which helpers are in new.cc and which stay in old.cc; new.cc has every helper that something moved refers to, and old.cc every one that what remains of old.h or a remaining helper refers to, unless that helper was itself to be removed |
| ClangMove.NewCCIsClosed | clang-move/ClangMove.cpp:813-829 | a helper that a moved declaration or a helper in new.cc refers to is in new.cc |
| ClangMove.OldCCIsClosed | clang-move/ClangMove.cpp:731-748 | a helper that a remaining declaration of old.h or a remaining helper refers to stays, unless it was named for moving |
| ClangMove.OtherKeepsHelperExactly | clang-move/ClangMove.cpp:731-748 | a helper that some other declaration of old.cc refers to stays exactly when what remains of old.h uses that helper |
| ClangMove.HelperOfOtherLost | clang-move/ClangMove.cpp:731-748 | a helper that only a function outside old.h uses is removed |
| ClangMove.DroppedExactly | clang-move/ClangMove.cpp:724-829 | a helper that was not named is dropped from both files exactly when there is an old header and neither side uses it |
| ClangMove.NamedHelperArrivesExactly | clang-move/ClangMove.cpp:819-829 | a helper named for moving leaves old.cc, and is in new.cc exactly when it is in the graph |
| ClangMove.NamedHelperLost | clang-move/ClangMove.cpp:819-829 | a static function that nothing refers to, moved by name, ends up in neither file |
| FuzzySymbolIndex.Tokenize | include-fixer/FuzzySymbolIndex.cpp:67-116 | the state machine yields the words of the text |
| FuzzySymbolIndex.TokenizeStep | include-fixer/FuzzySymbolIndex.cpp:80-113 | one character keeps the pending word and the words so far right |
| FuzzySymbolIndex.TokensAreTheLetters | include-fixer/FuzzySymbolIndex.cpp:67-116 | tokens are not empty, in lower case, and together the letters and digits of the text |
| SymbolSegments.TokensAreTheWords | include-fixer/FuzzySymbolIndex.cpp:67-116 | every name is put together from separators and words (small letters, capitals, a capital with small letters, or digits) that do not go on into each other, and its tokens are those words in lower case |
| SymbolSegments.PiecesAreTokens | include-fixer/FuzzySymbolIndex.cpp:67-116 | and however a name is put together so, those words are its tokens: FOOBar is foo and bar |
| FuzzySymbolIndex.QueryRegexp | include-fixer/FuzzySymbolIndex.cpp:118-131 | the text built is that of the query's expression: letters joined by ([[:alnum:]]* )? and words by [[:alnum:]]* and a space |
| FuzzySymbolIndex.QueryIsText | include-fixer/FuzzySymbolIndex.cpp:118-131 | the expression whose matches QueryMatchesExactly describes has that text |
| QueryPattern.MatchContinues | include-fixer/FuzzySymbolIndex.cpp:118-131 | matching the rest of the expression is matching the rest of the words step by step |
| QueryPattern.QueryMatchesExactly | include-fixer/FuzzySymbolIndex.cpp:30-38 | the anchored expression matches the joined tokens exactly when the query's words are cut into beginnings of consecutive tokens from the first on, each word beginning a new one |
| FuzzySymbolIndex.MemSymbolIndex.constructor | include-fixer/FuzzySymbolIndex.cpp:21-28 | every symbol is kept with its joined tokens |
| FuzzySymbolIndex.MemSymbolIndex.Search | include-fixer/FuzzySymbolIndex.cpp:30-38 | exactly the symbols that the query fits, in their order |
| FuzzySymbolIndex.HitsExactly | include-fixer/FuzzySymbolIndex.cpp:30-38 | a symbol is found as often as it is listed exactly when the query fits its tokens |

## Left out

- Everything that needs clang's AST, Sema, Lexer or SourceManager: code completion itself, cross references, formatting, checks, change-namespace.
- Rebuilding: `CppFile::rebuild` is an arbitrary function of the inputs; preambles and their staleness (clangd/TUScheduler.cpp:219-224, 257-266) do not affect the queue.
- Clocks and condition variables: a wake-up may happen at any time and a finite deadline may or may not have passed. The semaphore `Barrier`, tracing, contexts and logging are not modelled.
- TUScheduler::Files: a map from files to the indices of worker values in the server model; the object form is given for one worker, and ClangdServer's two version maps are an object of their own. The synchronous mode is modelled for a single worker only.
- ServerTheorems.PublishedVersionsIncrease: strict increase is stated until a file's 64-bit counter wraps, which the source comments on as not happening; that versions never go back is stated without that condition.
- Request actions other than updates and reads of the AST (preamble actions), and `blockUntilIdle` on several workers.
- FuzzyMatch: characters are bytes from 0 to 255. The packed lookup indexes its table by a plain `char`, which on platforms with a signed `char` is negative for non-ASCII bytes (clangd/FuzzyMatch.cpp:178-192).
- FuzzyMatch.FuzzyMatcher.MatchWord: the score is the integer before it is multiplied by `ScoreScale`; the sets of character types are sets rather than bit masks, and the text that `dumpLast` prints is not modelled.
- FixEvents.SortEventsOk: `std::sort` is an insertion sort by the same comparison. A fix's replacements over all files are one list. Offsets and sizes are below 2 to the 31 and the non-empty replacements of one error do not overlap, as `tooling::Replacements` guarantees.
- Applying fixes is modelled as replacing each stretch at its offset, shifted by the edits already made that end there or before; the conflict handling of `tooling::Replacements` and reformatting are not part of this model.
- Heap.PopHeap: the heap functions of the C++ library are own sifts that keep their contracts; which of two equally good candidates comes first is not determined by them.
- CodeComplete.MergeResults: the fuzzy filter and the multiplication of scores are one parameter; scores are the bits of IEEE 754 single precision numbers that are not NaN, and the counters for tracing are left out.
- JsonRoundTrip.PrintThenParse: numbers are reals, and `%g` and `strtod` are parameters of which the round trip needs that a number prints back; that holds for integers of up to six digits (JsonNumbers.IntegralRoundTrip). -0, infinities and NaN do not occur.
- The indentation level is an unbounded number, and the conversion functions of Expr to and from protocol types are left out.
- Framing.FramesAreRead: `getAsUnsignedInteger` is part of LLVM, and is modelled from what it promises; what a failed conversion leaves in its result is a parameter on which nothing depends. Interrupted system calls, the delimited input style for tests, the mirror of the input and the locks are left out, and so is the exit of the server loop by the `exit` request.
- Positions count bytes, as the source does although the protocol counts UTF-16 units (clangd/SourceCode.cpp:47, 57). Line and column numbers do not overflow: texts are shorter than 2 to the 31.
- The mutex of DraftStore; error messages are constructors without their texts.
- Declarations stand for their canonical declarations, and the outermost enclosing declaration, the test for the header and what the matchers find are inputs. Printing the moved code and moving whole files (clang-move/ClangMove.cpp:926-936) are left out.
- ClangMove.NamedHelperArrivesExactly: that a helper can also be one of the named declarations follows from the matchers (clang-move/ClangMove.cpp:574-593, 634-637), which are not modelled.
- FuzzySymbolIndex.MemSymbolIndex.Search: `llvm::Regex` is a parameter that finds an anchored expression where it matches a beginning of the text; loading symbols from YAML is left out. Bytes above 127 are not letters, as in the C locale.
- URI percent-encoding, glob lists, option merging, protocol structures, clang-query, clang-doc, modularize and the scripts would only add easy members.
