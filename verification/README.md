# A verified model of the utility core

A Dafny model of the parts of this C++ SDK's `util` library, of two of its examples and of one build script that
are hardest to get right, with proofs of what they are for. Each source file with loops or changing state is modelled
by methods and classes that are proved against an independent specification; expression-like code is modelled by
functions.

| files | what they model |
|---|---|
| `Calendar.dfy`, `Systime.dfy` | `GmTimeR`, `TimeGM` and the field check of the date parser, against a calendar counted year by year and month by month |
| `PackedCounters.dfy`, `SafePtr.dfy`, `SafePtrEffects.dfy`, `SafePtrCascade.dfy`, `SafePtrClear.dfy`, `SafePtrRevived.dfy`, `SafePtrCleanup.dfy` | reference-counted objects with three kinds of handle in two packed words: the words, the heap as a state machine over calls in progress, what each step does, what a cascade of destructions spares, when `Clear` is sound, and what is left when owners go |
| `FtsWalk.dfy`, `Fts.dfy`, `DirIterator.dfy` | the file tree walk: the recursive traversal, the linked nodes and their memory, the iterator with a level bound |
| `GitDepth.dfy` | the longest-path walk over the commit graph with an explicit stack and a cache |
| `Keyset.dfy`, `Pagination.dfy`, `Ttl.dfy`, `TtlWorkers.dfy` | keyset paging over a table, and expiration queues with any number of writers and workers at once |
| `Utf8.dfy`, `Wide.dfy`, `CaseConversion.dfy` | UTF-8 and UTF-16 conversions and the case conversion loop |
| `City.dfy`, `CityValues.dfy`, `CityWords.dfy`, `IntHash.dfy`, `IntHashValues.dfy` | streaming and one-shot CityHash64, the integer hashes and the range hash, with values worked out step by step |
| `ResolvePath.dfy` | in-place path normalisation |
| `SaveLoad.dfy`, `SaveLoadStreams.dfy` | the binary save and load format, as functions on byte strings and as stream operations |
| `Arithmetic.dfy`, `Wrappers.dfy` | shared helpers |

`dafny verify dfyconfig.toml` checks the project.

Conventions. Integers are unbounded, so widths are explicit: words of the packed counters are numbers below 2^32 whose
masks are quotients and remainders, `%` of C on negative numbers is written out, conversions to `int` wrap, and the
hashes work modulo 2^32 and 2^64. Clocks, randomness, the network and the file system are parameters: the random
expiration queue and the hash of a url are arguments, a directory is a finite tree, a case map is any function of code
points. Exceptions are values of result datatypes. `StrictOrder` preconditions in `Ttl` are met always, as
`Ttl.EntryOrder` shows.

Where the code and its comments or intent differ, the model follows the code:

- `IsOk` of the date parser accepts day 0, so accepted fields can name a time before the epoch
  (`DateTimeFields.DayZeroIsAccepted`); `AcceptedCivil` says exactly when that happens.
- The page loop says it shows the first ten pages; its test `page <= MaxPages` lets through eleven (`Pagination.ElevenPages`);
  `Pagination.Run` says when no more than ten are printed.
- The expiration loop starts its cursor at (0, 0), so an entry with timestamp 0 and document 0 is never found
  (`Ttl.ZeroDocumentSurvives`); `Ttl.Database.DeleteExpiredEverywhere` and `TtlWorkers.ExactlyTheExpiredGo` say exactly
  what is left.
- The UTF-8 decoder used for conversions accepts encoded surrogates, so a round trip through UTF-16 is exact only for
  well-formed strings (`Wide.Utf8RoundTrip`, `Wide.EncodedSurrogate`).
- `Clear` destroys the contents of an object without marking it as being destroyed. If the cascade takes the last `TObj`
  or the last `TMObj` of the object itself, the object is invalidated while its destructor runs, and members that still
  show their targets are released twice. The counting results are false of such runs
  (`SafePtrClear.ClearingSelfOwned`) and hold in exactly the others (`SafePtrClear.SoundIffClearsAreSafe`).
- Nor is an invalidated object invalid for good when such a `Clear` follows: a second release can borrow through to the
  flag, and a `TPtr` on the object finds it valid (`SafePtrRevived.InvalidObjectRevived`). It is invalid for good when
  every later `Clear` is safe (`SafePtrClear.InvalidForGood`). An unsafe `Clear` need not reach the flag, as
  `SafePtrClear.ClearingSelfOwned` shows; which release does is said by `SafePtrClear.FlagLostIffBorrowed`.
- `FTS_AGAIN` on a root named `.` or `..` finds `FTS_DOT` where `yfts_open` had put `FTS_D`, so the directory is not
  entered again (`FtsWalk.AgainRepeats`).

## Model

| member | source | states |
|---|---|---|
| `Systime.CycleYearStart` | util/datetime/systime.cpp:99-101 | `years * 365 + LeapYearCount(years)` is the number of days from the start of year 1 to the start of year `years + 1`. |
| `Systime.FindYearWithin4Centuries` | util/datetime/systime.cpp:105-119 | For every day of a 400-year cycle, the year guessed by division and corrected by at most one is the year the day lies in, and the counter is left at the day of that year. |
| `Systime.DayOfYearToMonth` | util/datetime/systime.cpp:121-134 | The multiply-and-shift formula gives the month in which the day of the year lies, and the day within that month, in every year. |
| `Systime.LookupTable.constructor` | util/datetime/systime.cpp:136-153 | The loop fills the 128-year table with the days from 1970-01-01 to the end of each year. |
| `Systime.LookupTable.FindYear` | util/datetime/systime.cpp:155-172 | One table look-up and at most one correction find the year of every day in the table range, and the day within it. |
| `Systime.MissesByAtMostOne` | util/datetime/systime.cpp:155-172 | Dividing by 366 misses the right table entry by at most one over the whole range. |
| `Systime.MakeNonNegative` | util/datetime/systime.cpp:226-232 | A negative time is moved by exactly the number of 400-year cycles that makes it non-negative, and the base year is moved with it. |
| `Systime.TablePath` | util/datetime/systime.cpp:216-224 | The table path splits every time in its range into the right year, day of the year, time of day, weekday and leap-year flag. |
| `Systime.FourCenturyPath` | util/datetime/systime.cpp:226-261 | The cycle path does the same for every time, negative ones included, with the 32-bit and 64-bit intermediate values of the source. |
| `Systime.BothPathsAgree` | util/datetime/systime.cpp:216-261 | On the table range both paths of `GmTimeR` give the same answer. |
| `Systime.GmTimeR` | util/datetime/systime.cpp:209-277 | The fields written are the UTC date and time of the given second in the proleptic Gregorian calendar, and the call fails exactly when the year does not fit `tm_year`. |
| `Systime.GmTimeUnique` | util/datetime/systime.cpp:209-277 | No other field values are a UTC date and time of that second, so `GmTimeR` is determined by the calendar alone. |
| `Systime.LeapDaysSince1970` | util/datetime/systime.cpp:184-207 | The leap-day term of `TimeGM` counts the leap days between 1970 and any later year. |
| `Systime.TimeGM` | util/datetime/systime.cpp:184-207 | The result is the civil time of the fields, with fields out of range carried over, or -1 for a year before 1970 or a month out of range. |
| `Systime.TimeGMInvertsGmTimeR` | util/datetime/systime.cpp:184-277 | `TimeGM` of what `GmTimeR` wrote gives the time back, for every time from 1970 on whose day number fits an int. |
| `Systime.GmTimeRInvertsTimeGM` | util/datetime/systime.cpp:184-277 | `GmTimeR` of what `TimeGM` returned gives normalised fields back and fills in the right weekday and day of the year. |
| `DateTimeFields.OkIff` | util/datetime/parser.h:33-81 | Against the calendar: fields are accepted if and only if the year is 1970 or later, the month exists, the day is not beyond its month, hour, minute, second and microsecond are at most 23, 59, 60 and 999999, and on the first of January 1970 the civil time is not before the zone offset. |
| `DateTimeFields.CivilIsOk` | util/datetime/parser.h:33-81 | A valid date and time of day from 1970 on with a zone offset within a day is accepted if and only if it names no time before the epoch. |
| `DateTimeFields.ToTimeT` | util/datetime/parser.h:91-108 | Rejected fields give the default value; accepted ones give their civil time less the zone offset, or the default when the civil time is -1. So every valid date and time of day from 1970 on with an offset within a day gives exactly its time, or the default value when that lies before the epoch. |
| `DateTimeFields.AcceptedCivil` | util/datetime/parser.h:33-108 | With a zone offset within a day, accepted fields name a time at or after the epoch if and only if they are not those of the zeroth of January 1970 at a time of day that, with the offset, falls before it. |
| `DateTimeFields.DayZeroIsAccepted` | util/datetime/parser.h:33-81 | A concrete accepted value with day 0 that names a time before the epoch. |
| `PackedCounters.AddRefines` | util/ysafeptr.h:53-58 | Adding a handle below the limit of its field changes that one count by one and no other count or flag: no carry. |
| `PackedCounters.DecRefines` | util/ysafeptr.h:62-69 | Lowering a positive count changes that one count by one and nothing else: no borrow. |
| `PackedCounters.ReleaseRefines` | util/ysafeptr.h:70-83 | What a release does to the packed words, said on the counts and flags: delete when all are zero, invalidate when the last handle of an owning kind goes and no invalidation is in progress, otherwise nothing. |
| `PackedCounters.FinishRefines` | util/ysafeptr.cpp:23-26 | What the end of an invalidation does, said on the counts and flags. |
| `PackedCounters.ObjectBase.AddRef` | util/ysafeptr.h:160-192 | One more handle of a kind below the limit of its field: that count grows by one, the other counts and the flags stay. |
| `PackedCounters.ObjectBase.DecRef` | util/ysafeptr.h:160-192 | One handle less of a kind that has one: that count falls by one, the other counts and the flags stay. |
| `PackedCounters.ObjectBase.ReleaseHandle` | util/ysafeptr.h:70-83 | On the counts and flags: the object is to be deleted exactly when no handle is left, and to be invalidated exactly when the last handle of an owning kind went, others are left and no invalidation is in progress; then it is marked and holds one reference more. |
| `PackedCounters.ObjectBase.ReleaseRefComplete` | util/ysafeptr.cpp:34-40 | With the last TPtr gone, the object is to be deleted exactly when all three counts are zero. |
| `PackedCounters.ObjectBase.ReleaseObjComplete` | util/ysafeptr.cpp:10-22 | Deleted when all three counts are zero; otherwise left alone when it is being invalidated already, and else marked as invalid and being invalidated with one reference more and all other counts unchanged. |
| `PackedCounters.ObjectBase.ContentsDestroyed` | util/ysafeptr.cpp:23-26 | The invalidation is over: one reference less, the object stays invalid, and it is to be deleted exactly when all three counts are zero. |
| `SafePtr.PerformKeeps` | util/ysafeptr.h:265-352 | Every operation of a program, construction, assignment, destruction and `Extract` of a pointer and the start of a `Clear`, keeps the heap invariant: packed counts equal handles, pointers lead to objects that are not deleted, destructions nest properly, members that a destructor has released lie in objects on the call stack. |
| `SafePtrEffects.NewPtrEffect` | util/ysafeptr.h:299-311 | A new pointer variable has its target, no other one changes, nothing is destroyed and no flag changes. |
| `SafePtrEffects.AssignEffect` | util/ysafeptr.h:289-294 | An assignment: the variable has the new target, no other one changes, and a destruction of the old target starts if and only if the variable was its last handle of all (it is deleted) or its last of an owning kind with no invalidation in progress (it is invalidated). |
| `SafePtrEffects.SelfAssignment` | util/ysafeptr.h:289-294 | Assigning a pointer its own target changes nothing at all. |
| `SafePtrEffects.EndPtrEffect` | util/ysafeptr.h:312-314 | The end of a pointer variable: it is gone, no other one changes, and its target is let go under the same conditions. |
| `SafePtrEffects.ExtractEffect` | util/ysafeptr.h:319-324 | `Extract` makes the variable null and destroys nothing, whatever the target was. |
| `SafePtrEffects.NewObjectEffect` | util/ysafeptr.h:103-110 | A new object has no handles and no flags; nothing else changes. |
| `SafePtrEffects.ClearEffect` | util/ysafeptr.h:150-154 | `Clear` starts the destruction of the contents of its object; before that no pointer variable and no flag changes. |
| `SafePtrEffects.DropEffect` | util/ysafeptr.h:312-314 | When a destructor releases a member, that member is gone, no other variable changes, and its target is let go in a call inside the one in progress. |
| `SafePtrEffects.ReturnEffect` | util/ysafeptr.cpp:10-40 | When a destructor returns, a `Clear` is over; an object that has been invalidated is deleted next if and only if no handle is left on it; an object that is being deleted is gone. |
| `SafePtr.DestroyKeeps` | util/ysafeptr.h:209-217 | So does every step of a destruction, one member at a time, unless it starts a second destruction of an object that is being destroyed. |
| `SafePtr.StepKeeps` | util/ysafeptr.cpp:10-40 | The same for every step of any kind. |
| `SafePtr.DeletedOnce` | util/ysafeptr.cpp:10-40 | In every run, with unsafe `Clear` calls too, a deleted object never comes back, so no object is deleted twice. |
| `SafePtr.DeletedOnlyUnheld` | util/ysafeptr.cpp:10-40 | An object is deleted only when no handle of any kind is left on it and no other call is destroying it. |
| `SafePtr.SourceAssertionsHold` | util/ysafeptr.cpp:10-40 | The assertions in the release routines hold in every state with the invariant. |
| `SafePtr.InvalidStays` | util/ysafeptr.cpp:10-40 | No step from a state with the invariant clears the flag of an object that has been invalidated. |
| `SafePtrCascade.OverlapIsClear` | util/ysafeptr.cpp:10-27 | The only way to a second destruction of an object in progress is an invalidation of the object that is being cleared. |
| `SafePtrCascade.CascadeStepLighter` | util/ysafeptr.cpp:10-40 | Each step of a cascade of destructions lowers a weight, on cyclic heaps too. |
| `SafePtrCascade.CascadeProgress` | util/ysafeptr.cpp:10-40 | A cascade never gets stuck before it is done. |
| `SafePtrCascade.KeptStep` | util/ysafeptr.cpp:10-40 | A set of objects that keeps, for each member, a handle of every owning kind the member has, from outside or from the set, stays such a set at every step of a cascade. |
| `SafePtrCascade.SurvivesIffKept` | util/ysafeptr.cpp:10-40 | In every order of destruction the contents of an object survive a cascade if and only if the object belongs to such a set on the heap the cascade starts from. |
| `SafePtrClear.ClearingSelfOwned` | util/ysafeptr.h:150-154 | A concrete run in which the counting is false of the code: an object whose one member is a `TObj` on itself is cleared, the member is released twice, ObjData becomes 0xbfffffff and the mask assertion fails. |
| `SafePtrClear.AgainBreaks` | util/ysafeptr.h:209-217 | A member that is released a second time always makes a count wrong or touches a deleted object. |
| `SafePtrClear.ClearIsSoundIffSafe` | util/ysafeptr.h:150-154 | For every heap and object: all cascades of `Clear` keep the counts exact and touch no deleted object if and only if, before the call, the object belongs to a set that keeps a handle of each owning kind without the members of the object. |
| `SafePtrClear.SoundIffClearsAreSafe` | util/ysafeptr.h:265-352 | Every run from the empty heap that has come to its end: counts are exact, pointers lead to objects that exist and no deleted object is touched at every point of it, if and only if every `Clear` in it is safe in that sense. |
| `SafePtrClear.SafeRunIsGood` | util/ysafeptr.h:265-352 | Every run in which every `Clear` is safe keeps the invariant throughout, which the results on deletion, on the assertions and on the flag ask for. |
| `SafePtrClear.HandlesAreCounted` | util/ysafeptr.h:265-352 | In every such run, at every point, RefData counts the TPtr handles plus one for a `Clear` or invalidation in progress, bits 0-19 and 20-29 of ObjData count the TObj and TMObj handles, and no pointer leads to a deleted object. |
| `SafePtrClear.InvalidForGood` | util/ysafeptr.cpp:10-40 | In every run in which every `Clear` is safe, from the empty heap or any quiet heap with the invariant, an object that is invalid or deleted at one point is so at every later point. |
| `SafePtrClear.FlagLostIffBorrowed` | util/ysafeptr.h:77-83 | For all values of the words: a release takes the flag off an invalid object if and only if it is a `TObj` or `TMObj` release and all bits from the field of its kind up to the flag are zero, so that the subtraction borrows through to bit 31. |
| `SafePtrRevived.InvalidObjectRevived` | util/ysafeptr.h:150-154 | A concrete run in which an invalid object becomes valid again: object 0 has a `TObj` on itself and one on object 1, a `TPtr` outside holds object 1, and object 0 is cleared. Object 1 is invalidated; the second release of the member leaves 0x7fffffff, with the `TPtr` still on it. |
| `SafePtrCleanup.DropRunIsShort` | util/ysafeptr.cpp:10-40 | Dropping every `TObj` outside of objects, a cascade has no more steps than the heap weighs, cycles or not. |
| `SafePtrCleanup.Cleanup` | util/ysafeptr.cpp:10-40 | When every object is owned by a `TObj` and ownership by `TObj` has no cycle, that deletes every object or leaves it invalid with its contents destroyed, whatever `TPtr` and `TMObj` handles there are. |
| `SafePtrCleanup.CleanupIsForGood` | util/ysafeptr.cpp:10-40 | And in whatever run follows, as long as every `Clear` in it is safe, the object is deleted or still invalid. |
| `SafePtrCleanup.CleanupIffNothingKept` | util/ysafeptr.cpp:10-40 | For every heap of valid objects, with handles of all three kinds: everything is deleted or invalid at the end if and only if no nonempty set of objects keeps its handles. |
| `SafePtrCleanup.KeptIffCycle` | util/ysafeptr.cpp:10-40 | What that condition comes to without `TMObj` handles, when every object is owned: there is such a set if and only if ownership has a cycle. |
| `FtsWalk.AdvanceVisits` | util/folder/fts.cpp:461-657 | One read returns the first of the visits to come and leaves the others, from every state of the walk: whatever `FTS_SKIP` and `FTS_AGAIN` wait on the current node and on the directories above it, and with the skips at the level bound. |
| `FtsWalk.ReadsAreFuture` | util/folder/fts.cpp:461-657 | So the next n reads return the first n of the visits to come, in order. |
| `FtsWalk.SkipLeavesOut` | util/folder/fts.cpp:461-676 | `FTS_SKIP` on a directory that has just been returned in pre-order takes exactly the visits below it out of those to come; on any other node of the path it changes nothing. |
| `FtsWalk.AgainRepeats` | util/folder/fts.cpp:461-676 | With `FTS_AGAIN` on the current node the visits to come are the node and all that lies below it again, and then what was to come, if and only if the node is not a directory whose last component is `.` or `..`; such a directory is returned once more as `FTS_DOT` and not entered. |
| `FtsWalk.AgainAboveRepeats` | util/folder/fts.cpp:461-676 | With `FTS_AGAIN` on a directory above the current node the visits to come are the same up to the post-order visit of that directory; there it is visited again, and then the walk goes on as before. |
| `FtsWalk.LastComponentIs` | util/folder/fts.cpp:391-402 | What decides on `.` and `..` is what follows the last slash of the name, for every path before it. |
| `FtsWalk.DotIsNotRepeated` | util/folder/fts.cpp:478-487 | A concrete walk over the root `.` that, told to visit it again, returns it and is finished. |
| `FtsWalk.BoundedIsPruned` | util/folder/iterator.h:80-96 | The traversal that does not enter directories at the bound is the full traversal without the visits below the bound. |
| `Fts.FtsStream.AllocateList` | util/folder/fts.cpp:242-379 | A node for each entry is allocated and linked behind the one before it, with its level and parent. |
| `Fts.FtsStream.Open` | util/folder/fts.cpp:242-379 | Opening fails exactly for an empty root list or a root with an empty name, and then leaves no node of those allocated before the empty name; otherwise the walk stands before its first root. |
| `Fts.FtsStream.FreeList` | util/folder/fts.cpp:1268-1278 | Following the links from the head frees exactly the nodes of the list. |
| `Fts.FtsStream.Set` | util/folder/fts.cpp:666-676 | An instruction on a node of the current path is recorded there and the nodes still stand for the walk. |
| `Fts.FtsStream.Build` | util/folder/fts.cpp:779-1096 | Reading a directory allocates its entries as a linked list one level down, or marks an empty directory as done. |
| `Fts.FtsStream.Enter` | util/folder/fts.cpp:461-657 | Entering a directory moves the walk to its first entry. |
| `Fts.FtsStream.MoveOn` | util/folder/fts.cpp:461-657 | Leaving a node frees it and moves to its next sibling or up to its directory; the last root ends the walk. |
| `Fts.FtsStream.Read` | util/folder/fts.cpp:461-657 | Every node that is read or freed is allocated at that moment, the allocated nodes stay exactly the current path, its later siblings and the root parent, and the walk advances by one visit. |
| `Fts.FtsStream.Close` | util/folder/fts.cpp:405-450 | Closing at any moment of a walk frees every remaining node exactly once and leaves none. |
| `DirIterator.TDirIterator.Next` | util/folder/iterator.h:80-96 | Each call returns the next visit to come and leaves the rest to come. |
| `DirIterator.Collect` | util/folder/iterator.h:80-96 | Iterating to the end gives the recursive traversal of the roots: every directory before and after its entries, everything else once, cut off at the level bound. |
| `DirIterator.CollectUpTo` | util/folder/iterator.h:80-96 | `MaxLevel` k leaves out exactly the visits at levels beyond k. |
| `GitDepth.GetGitDepth` | scripts/generate_vcs_info.py:133-151 | For every acyclic commit graph, the answer is the length of the longest parent path from HEAD to a parentless commit, there is an answer if and only if HEAD and every commit reachable from it is in the graph, otherwise one that is missing raises KeyError, and no commit is expanded twice. |
| `GitDepth.DepthFromParents` | scripts/generate_vcs_info.py:141-148 | A commit is one deeper than its deepest parent. |
| `GitDepth.KnownStep` | scripts/generate_vcs_info.py:137-142 | Although the cache holds running maxima, every value the loop reads from it is a final depth. |
| `GitDepth.ParentNotUnderWay` | scripts/generate_vcs_info.py:137-150 | In an acyclic graph a parent of the commit on top is never a commit whose parents are still pending. |
| `Ttl.BatchIsNext` | examples/ttl/ttl.cpp:145-198 | The union of two separately limited queries is exactly the next hundred expired entries after the cursor, in (timestamp, doc_id) order. |
| `Ttl.AddKeeps` | examples/ttl/ttl.cpp:72-109 | The document is stored, no other document changes, the given queue gains the entry of the document and no queue gains any other, and every document still has an entry with its current timestamp in some queue. |
| `Ttl.DeleteKeeps` | examples/ttl/ttl.cpp:201-229 | Deleting by entry keeps it too, whichever entry it is. |
| `Ttl.StepSafe` | examples/ttl/ttl.cpp:267-292 | Under any interleaving of writers and workers, a document goes only when a worker deletes the entry with its current timestamp, which has expired for that worker; other documents are unchanged. |
| `Ttl.FreshDocumentSurvives` | examples/ttl/ttl.cpp:267-292 | In any run, a document that is not written again outlives all workers with an earlier timestamp. |
| `Ttl.Database.AddDocument` | examples/ttl/ttl.cpp:72-109 | The document is stored and the given queue gains its entry; no other document, entry or queue changes, and every document still has an entry. |
| `Ttl.Database.DeleteDocumentWithTimestamp` | examples/ttl/ttl.cpp:201-229 | The document that goes is exactly the one of the entry if it still carries the timestamp of the entry, no other document changes, the entry goes from its queue, and every document left still has an entry. |
| `Ttl.Database.DeleteExpired` | examples/ttl/ttl.cpp:267-292 | A worker that runs alone: the batch loop deletes every expired entry of the queue but (0, 0), and the documents that still carry the timestamps of those entries, and terminates. Its transactions are steps of one worker of the system, from its start until it is done. |
| `Ttl.Database.DeleteExpiredEverywhere` | examples/ttl/ttl.cpp:314-316 | A sweep that runs alone: after the loop over all queues, the documents left are exactly the newer ones and a document 0 with timestamp 0. |
| `TtlWorkers.StepKeepsGood` | examples/ttl/ttl.cpp:267-292 | Every step of any worker or writer keeps, for every worker: apart from entries that writers add, nothing expired is behind its cursor, nothing but its batch is up to the end of the batch, and nothing is left when it is done. |
| `TtlWorkers.NothingExpiredIsLeft` | examples/ttl/ttl.cpp:267-316 | Under every interleaving of any number of workers and writers: once every queue has a worker that is done and was to delete up to a timestamp, every document left that no writer of the run stored is newer, or is document 0 with timestamp 0. |
| `TtlWorkers.ExactlyTheExpiredGo` | examples/ttl/ttl.cpp:267-316 | Without writers and with workers up to that timestamp, exactly those documents and exactly those entries are left, unchanged, whatever the interleaving. |
| `TtlWorkers.WorkerIsShort` | examples/ttl/ttl.cpp:267-292 | In every run a worker takes at most two transactions for each entry that its queue held at first or that is added and that is expired for it, and one more, whatever the others do. |
| `TtlWorkers.WorkerGoesOn` | examples/ttl/ttl.cpp:267-292 | A worker that is not done can always take its next transaction. |
| `Ttl.AddThenExpire` | examples/ttl/ttl.cpp:72-292 | A worker that runs alone on the queue that a document was added to, up to its timestamp, removes the document if and only if it is not document 0 with timestamp 0; newer documents stay. |
| `Ttl.ZeroEntryIsNeverRead` | examples/ttl/ttl.cpp:267-275 | The entry with timestamp 0 and document 0 is in no batch, whatever the queue, the timestamp of the worker and its cursor. |
| `Ttl.ZeroDocumentSurvives` | examples/ttl/ttl.cpp:267-292 | So that document outlives the expiration of all queues: the input at which leaving nothing expired fails. |
| `Keyset.TwoPartQueryIsPage` | examples/pagination/pagination.cpp:78-97 | Limiting two parts that follow each other before the union loses nothing: the query gives the first rows of both together. |
| `Keyset.AfterRow` | examples/pagination/pagination.cpp:135-139 | Moving the cursor to a row of the page leaves exactly the rows that follow it. |
| `Pagination.CityOrder` | examples/pagination/pagination.cpp:78-97 | The order of cities without recursion: a is before b if and only if up to some place they are the same and there a ends or has the smaller character. |
| `Pagination.PartsAreAfter` | examples/pagination/pagination.cpp:78-88 | The rest of the last city and the later cities are together the rows after the cursor, one after the other. |
| `Pagination.SelectPage` | examples/pagination/pagination.cpp:78-97 | For every table, limit and cursor, the page is the next `limit` rows in (city, number) order. |
| `Pagination.SelectPaging` | examples/pagination/pagination.cpp:124-141 | It prints the page, answers whether there was one, and leaves the cursor such that the rows after it are those not printed. |
| `Pagination.Run` | examples/pagination/pagination.cpp:153-166 | The page loop prints a sorted prefix of the rows above ("", 0) without gap or repetition, of eleven pages; it prints no more than ten pages if and only if the limit is 0 or the table without that row has no more rows than that. |
| `Pagination.ElevenPages` | examples/pagination/pagination.cpp:153-166 | For every limit above 0, a table of which eleven full pages are printed. |
| `Utf8.TwoDigits` | util/charset/utf8.h:376-402 | The code point 64 x + y is written as the bytes 0xC0 + x and 0x80 + y. |
| `Utf8.ThreeDigits` | util/charset/utf8.h:376-402 | The same for three digits to the base 64. |
| `Utf8.FourDigits` | util/charset/utf8.h:376-402 | The same for four. |
| `Utf8.EncodingsDiffer` | util/charset/utf8.h:376-402 | Of two different code points neither encoding begins with the other, and at the first difference the smaller code point has the smaller byte. |
| `Utf8.ReadFails` | util/charset/utf8.h:190-241 | The end of the input is reported if and only if the input is shorter than the first byte announces, and a code point that is read has the length announced. |
| `Utf8.SafeReadChar` | util/charset/utf8.h:190-241 | The reader that checks byte by byte gives, on every non-empty input, the code point, length or error of the reader that checks all bytes first. |
| `Utf8.ReadEncoded` | util/charset/utf8.h:247-402 | Reading what was written gives the code point back, whatever follows. |
| `Utf8.EncodeRead` | util/charset/utf8.h:247-316 | Whatever is read is the shortest encoding of a code point in range. |
| `Utf8.StrictIsGrammar` | util/charset/utf8.h:148-184 | The strict reader accepts exactly the characters of the UTF-8 grammar of section 4 of RFC 3629. |
| `Wide.PairRoundTrip` | util/charset/wide.h:239-251 | The surrogate pair written for a code point above U+FFFF reads back as that code point. |
| `Wide.ReadPairRange` | util/charset/wide.h:50-59 | Every surrogate pair reads as a code point above U+FFFF that is written as the same pair. |
| `Wide.EncodingKeepsOrder` | util/charset/utf8.h:376-402 | The bytes of two encoded strings are in the lexicographic order of their code points (section 1 of RFC 3629). |
| `Wide.SymbolDigits` | util/charset/wide.h:239-251 | The code point 0x10000 + 1024 h + l is written as the units 0xD800 + h and 0xDC00 + l and read back from them; up to U+FFFF a code point is written as itself. |
| `Wide.DecodeBroken` | util/charset/wide.h:300-318 | At the first byte where no code point can be read, the robust decoder writes one U+FFFD for that byte and goes on with the next; the other one stops there with what it has read. |
| `Wide.UTF8ToWide` | util/charset/wide.h:300-318 | The loop writes the UTF-16 form of the code points decoded and consumes what decoding consumes. |
| `Wide.WideToUTF8` | util/charset/wide.h:436-447 | The loop writes the UTF-8 form of the symbols of the text, in at most four bytes per unit. |
| `Wide.RobustConsumesAll` | util/charset/wide.h:300-318 | The robust decoder consumes every byte of every input and writes at most one unit per byte. |
| `Wide.WideRoundTrip` | util/charset/wide.h:300-447 | For every UTF-16 string the UTF-8 form is well formed and converts back to the string with each unpaired surrogate replaced by U+FFFD. |
| `Wide.Utf8RoundTrip` | util/charset/wide.h:300-447 | For every byte string that decodes without error, converting to UTF-16 and back gives the string if and only if it is well formed, that is, holds no encoded surrogate. |
| `Wide.EncodedSurrogate` | util/charset/utf8.h:163-172 | The bytes ED A0 80 decode without error, are not well formed and come back from UTF-16 as EF BF BD. |
| `CaseConversion.SafeWriteChar` | util/charset/utf8.h:324-364 | Succeeds exactly when the encoding fits after the position, and then changes those bytes of the buffer only. |
| `CaseConversion.FindChange` | util/charset/utf8.cpp:28-45 | The first loop stops at the first code point that changes, at the first byte that does not decode, or at the end. |
| `CaseConversion.WriteChanged` | util/charset/utf8.cpp:47-83 | The second loop, with its buffer that doubles when full, writes the encoding of the converted code points, or reports the first byte that does not decode. |
| `CaseConversion.ConvertCase` | util/charset/utf8.cpp:21-83 | For every map of code points and every byte string, the outcome is the one read off the decoded string: error position, unchanged, or the encoding of the mapped code points. |
| `CaseConversion.ConvertedIs` | util/charset/utf8.cpp:21-83 | For every string of code points the outcome is that nothing changes if the map fixes all of them, and else the encoding of the mapped ones; a broken byte behind such a string is reported at its position. |
| `CaseConversion.ConversionSettles` | util/charset/utf8.cpp:21-83 | A second conversion by a map that is settled after one step changes nothing, and the new string is well formed. |
| `City.CityHash64` | util/digest/city.cpp:158-196 | The do-while loop computes the fold of the rounds over all 64-byte blocks but a last one, from the state that the head and the tail give. |
| `CityValues.HashOf65` | util/digest/city.cpp:107-196 | The hash of the bytes 0 to 64, one block, is 0x510f4ef776c6476d. |
| `CityValues.HashOf129` | util/digest/city.cpp:107-196 | The hash of the bytes 0 to 128, two blocks, is 0x3a49051ab10a968c. |
| `CityWords.RotateBack` | util/digest/city.cpp:58-68 | A rotation by k and then by 64 - k gives every word back, for every k. |
| `CityWords.ShiftMixTwice` | util/digest/city.cpp:70-72 | `ShiftMix` is its own inverse, so it keeps different words different. |
| `CityWords.LoadIsLittleEndian` | util/digest/city.cpp:45 | A load gives the word whose bytes, the least significant first, are the eight bytes there. |
| `CityWords.LoadOctets` | util/digest/city.cpp:45 | Every word is what its bytes load as. |
| `City.RoundsPrefix` | util/digest/city.cpp:312-371 | The rounds over the first n blocks do not depend on what follows them. |
| `City.TStreamingCityHash64.constructor` | util/digest/city.cpp:312-324 | The first state is the one of the one-shot hash of a message with that length, head and tail. |
| `City.TStreamingCityHash64.Process` | util/digest/city.cpp:326-366 | After each chunk, of any size, the state is the fold over the full blocks fed so far and the buffer holds the rest, until all blocks wanted have been taken. |
| `City.TStreamingCityHash64.Hash` | util/digest/city.cpp:368-371 | The result is the final mix of the fold over as many blocks as have been fed and are wanted. |
| `City.StreamedIsOneShot` | util/digest/city.cpp:158-371 | Once all but the last 64 bytes at most have been fed, the streamed value is the one-shot value. |
| `City.HashChunks` | util/digest/city_streaming.h:4-21 | For every message longer than 64 bytes and every way of cutting it, empty chunks included, the streamed hash is the hash of the whole message. |
| `ResolvePath.SplitInto` | util/folder/dirut.cpp:80-87 | The table holds the components of the path in order. |
| `ResolvePath.Compact` | util/folder/dirut.cpp:89-121 | The in-place loop terminates and leaves the first component and the directory that the others lead to, followed by an empty component when the path ended in `.`, `..` or a slash. |
| `ResolvePath.Write` | util/folder/dirut.cpp:123-129 | The components are joined by single slashes, and no write goes past the end of the buffer. |
| `ResolvePath.Resolve` | util/folder/dirut.cpp:76-130 | The whole of it, for every path string, in a buffer of `strlen(path) + 3` bytes. |
| `ResolvePath.ResolvedFits` | util/folder/dirut.cpp:76-130 | The result is never longer than the path. |
| `ResolvePath.NormalKeepsMeaning` | util/folder/dirut.cpp:89-121 | Normalising keeps the place that following the components leads to, and whether a slash is kept. |
| `ResolvePath.ResolvedIsIdempotent` | util/folder/dirut.cpp:76-130 | Resolving twice is resolving once; the result has no inner `.`, `..` or empty component and leads where the path led. |
| `ResolvePath.UnchangedIffNormal` | util/folder/dirut.cpp:76-130 | A path comes back unchanged if and only if it was normal already. |
| `ResolvePath.ResolvedIsRooted` | util/folder/dirut.cpp:76-130 | A rooted path stays rooted. |
| `SaveLoad.FixedByte` | util/ysaveload.h:277-296 | Byte i of a fixed-width integer n is n / 256^i % 256. |
| `SaveLoad.SizeForm` | util/ysaveload.h:277-285 | A size below 0xffffffff takes its four bytes, any other one four bytes 0xff and its eight bytes, the least significant first. |
| `SaveLoad.PairBytes` | util/ysaveload.h:277-680 | The bytes of a pair of a 16-bit number and an optional vector: the first before the second, the byte 1 for an optional that is there, four bytes of size, the elements in order. |
| `SaveLoad.OtherBytes` | util/ysaveload.h:428-712 | The bytes of an optional that is not there, of a variant, whose index comes first, and of a tuple, whose last component comes first. |
| `SaveLoad.SizeRoundTrip` | util/ysaveload.h:277-296 | Every 64-bit size is loaded back, with the escape for sizes from 0xffffffff on. |
| `SaveLoad.RoundTrip` | util/ysaveload.h:277-712 | For every type built from fixed-width integers, vectors, pairs, tuples, optionals, variants, sets and maps, and every object of it, loading the saved bytes followed by anything gives the value back and leaves exactly what follows. |
| `SaveLoad.PartsRoundTrip` | util/ysaveload.h:428-448 | Tuples, which are saved from the last component to the first, are loaded in that order too. |
| `SaveLoad.LoadExtends` | util/ysaveload.h:277-712 | More input changes neither a value that was loaded nor a bad tag that was found, only what is left. |
| `SaveLoad.NoPrefixLoads` | util/ysaveload.h:277-712 | No proper prefix of the saved bytes loads: each one reports the end of the input. |
| `SaveLoad.SaveIsInjective` | util/ysaveload.h:277-712 | Two objects saved to the same bytes mean the same. |
| `SaveLoad.AllEntriesInserted` | util/ysaveload.h:545-575 | When no key occurs twice, as in any map, inserting one by one gives all the entries and no others. |
| `SaveLoad.FirstEntryStays` | util/ysaveload.h:462-475 | When a key occurs more than once, the value of its first entry stays. |
| `SaveLoad.BadTags` | util/ysaveload.h:696-703 | An index beyond the alternatives of a variant is reported. |
| `SaveLoadStreams.SaveObject` | util/ysaveload.h:277-712 | Saving to a stream appends the bytes of the format. |
| `SaveLoadStreams.LoadObject` | util/ysaveload.h:277-712 | Loading from a stream has the outcome of the format on the contents of the stream, and leaves what the format leaves. |
| `SaveLoadStreams.LoadSet` | util/ysaveload.h:553-562 | The loop that inserts elements as they are loaded gives the set of the elements. |
| `SaveLoadStreams.LoadMap` | util/ysaveload.h:545-575 | The loop that inserts entries as they are loaded gives the map of the format; an entry whose key is there already is not replaced. |
| `SaveLoadStreams.SaveThenLoad` | util/ysaveload.h:277-712 | A value saved to a stream and loaded from it comes back, whatever was written after it. |
| `IntHash.XorShrInjective` | util/digest/numeric.h:39-61 | `key ^= key >> k` maps different keys to different keys, for every k above 0. |
| `IntHash.AddNotShlInjective` | util/digest/numeric.h:39-61 | `key += ~(key << k)` does so on words of every width. |
| `IntHash.AddShlInjective` | util/digest/numeric.h:39-61 | `key += key << k` does so on words of every width. |
| `IntHash.MixInjective` | util/digest/numeric.h:39-61 | Any chain of such steps keeps different words different and stays inside the word. |
| `IntHash.Hash32Injective` | util/digest/numeric.h:39-48 | Two 32-bit keys have the same hash if and only if they are equal, and a hash is a 32-bit word. |
| `IntHash.Hash64Injective` | util/digest/numeric.h:50-61 | Two 64-bit keys have the same hash if and only if they are equal, and a hash is a 64-bit word. |
| `IntHashValues.ShrIsDivision` | util/digest/numeric.h:39-61 | A shift down by k is a division by 2^k. |
| `IntHashValues.XorOfBytes` | util/digest/numeric.h:39-61 | The exclusive or of the model is the one of the bits. |
| `IntHashValues.Hash32OfOne` | util/digest/numeric.h:39-48 | The 32-bit hash of 1 is 0x62baf5a0. |
| `IntHashValues.Hash64OfZero` | util/digest/numeric.h:50-61 | The 64-bit hash of 0 is 0x6a396cd39c352659. |
| `IntHash.CombineInjective` | util/digest/numeric.h:90-93 | `CombineHashes` determines either argument from the other and the result. |
| `IntHash.HashRange` | util/digest/sequence.h:17-24 | The loop folds the element hashes in order. |
| `IntHashValues.RangeOfTwo` | util/digest/sequence.h:17-24 | The hash of a range with the element hashes 1 and 2 is 0x4ca28cedc4b42701. |
| `IntHash.OneChangeShows` | util/digest/sequence.h:17-24 | Two ranges of equal length that differ in at most one element hash have equal hashes if and only if all their element hashes are equal. |

## Left out

- Systime.GmTimeR: times within 400 years of the least 64-bit value, where adding whole cycles overflows a signed integer in the source; the constant fields `tm_isdst`, `tm_gmtoff` and `tm_zone`.
- Systime.TimeGM: fields so large that the sum of days overflows `int` in the source.
- Systime.TimeGMInvertsGmTimeR: times whose day number does not fit `int`, for the same reason.
- DateTimeFields.ToTimeT: years from 2^31 on and zone offsets whose seconds overflow `int`; `ToInstant` and the generated date grammars.
- GitDepth.GetGitDepth: cyclic graphs, which a commit history cannot be and on which the source may not terminate or may answer too early; reading the log of git into the graph.
- SafePtr.StepKeeps: objects and pointer variables are parts of a state value rather than instances of classes, because a release runs as nested calls whose steps interleave; only the counter words are updated in place, in `PackedCounters.ObjectBase`. A member of a reconstructed object is null, which the state shows as no member.
- SafePtr.DestroyStep: destructors with bodies of their own that act on pointers; a destruction only releases the pointers that are members. An element of a container has left its container before it is released, so it is not released a second time.
- SafePtrClear.InvalidForGood: one direction only; whether a run with an unsafe `Clear` keeps every flag depends on the counts that all later releases find, and no condition on the heap before the call is given for it.
- PackedCounters.AddRefines: counts at the limit of their field, where the source carries into the next field.
- SafePtr.DestroyKeeps: a step that starts a second destruction of one object, which breaks the invariant; `SafePtrClear.SoundIffClearsAreSafe` says when there is one.
- SafePtr.PerformKeeps: handles beyond the limit of their field; default constructors that set pointers of their own, `CopyValidFlag`, and the debug check of the calling thread.
- Fts.FtsStream.Read: links to follow (`FTS_FOLLOW`, `FTS_LOGICAL`), changes of directory, devices (`FTS_XDEV`), the path buffer, `errno`, the comparison sort, `FTS_SEEDOT`, `FTS_NOSTAT`, and levels beyond a `short`; the walk is the physical one over a tree that does not change and has no errors.
- Fts.FtsStream.Free: nodes are entries of a map field under an identity instead of blocks of memory, so that a use after a free would be a missing key.
- DirIterator.TDirIterator.Next: the exception for a read error.
- `yfts_children`: not modelled.
- Ttl.FreshDocumentSurvives: retries and failed transactions; every transaction is one atomic step that succeeds.
- Wide.UTF8ToWide: the vector instructions for ASCII runs; only the scalar loop is modelled.
- Utf8.SafeReadChar: pointers into a buffer are the bytes from the cursor to the end.
- CaseConversion.ConvertCase: the Unicode case tables; the map is an arbitrary function of code points.
- City.CityHash64: messages of 64 bytes or fewer, which have formulas without a loop; seeds, CityHash128, Murmur and FNV, which would only add easy members.
- IntHash.Hash32Injective: the 8-bit and 16-bit overloads, which cut a wider word and so need not keep keys apart; hashes of floating point values.
- ResolvePath.Resolve: the empty folder, the replacement of backslashes, embedded NUL characters, `~` and home directories, and the join of a relative path to the home directory.
- SaveLoad.RoundTrip: multimaps, `TBuffer`, `std::array`, user-defined `SaveLoad` methods and pools; failure to allocate memory for a size that was read.
- SaveLoadStreams.LoadObject: what is left in the stream after an exception.
- Table creation, driver and session handling, and printing in the examples.
