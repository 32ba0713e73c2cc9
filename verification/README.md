# pydblog in Dafny

pydblog reads a SQL Server table into a stream of frames with the DBLog algorithm: one call of
`dblog()` reads one page of the table and the window of the change log that brackets it, drops the
page rows the window supersedes, and hands back one frame and the state to carry on from. Writers
commit, the capture job advances and the cleanup job discards old changes between any two of its
reads; nothing is locked and no snapshot is taken.

This project models that call, the source it reads and the consumer that writes its frames, and
proves what the stream is for: that applying it reconstructs the table, exactly, at a known log
position. `dafny verify dfyconfig.toml` checks all of it.

## How it is put together

| module | what it models |
|---|---|
| `Outcomes`, `Order` | exceptions as values; lexicographic order |
| `Lsn` | 10-byte LSNs, `increment_lsn`, the hex form a state is persisted in |
| `Catalog`, `Schema` | column and table specs, their equality, the Arrow schema, `validate`, `conform` |
| `Rows`, `Source` | rows, the replica they fold into, key ranges; the log, capture, cleanup, the clock |
| `Dblog` | one call, read by read: `_seed` to `_merge_chunk`, and `dblog` itself |
| `Call` | what one call delivers, whatever happens between its reads |
| `Run`, `Reconstruction` | calls threaded through saved states, lost results, the invariant, the main results |
| `Types` | what the values of a SQL Server type are, and that the Arrow type it is read as holds them |
| `Answers` | exactly when a call answers, what it raises otherwise, what every row and state it returns says |
| `Guarantees` | caught up, no gap, only forward, one schema, termination, persistence |
| `Paging` | walking a quiescent table |
| `Query` | the keyset query builder (imperative, as in the source) and what its queries mean |
| `Futures` | what can come of any source: its table emptied, a row committed just past its end |
| `Limits` | exactly where the correctness claim ends, with the runs that break it |

The log is a sequence of changes in strictly increasing `(start_lsn, seqval)`; the table at a position
is the fold of the changes up to it. A call is given one `Source` for each of its reads, in order, and
each may be any evolution of the one before. A page is not a snapshot: every key of the table is read
at an instant of its own, anywhere between the two watermarks. The replica is a map folded over rows:
inserts, updates and dump rows put, deletes remove. A run may lose results: any number of rows of a
frame may be written and its state never saved, any number of times.

In `Dblog` and the modules above it an LSN is the number it encodes. `Lsn` proves that this is
faithful: byte order is numeric order, the two forms round-trip, and `increment_lsn` adds one.

## What the results assume

- `await_watermark(mark)` returns only once every change committed by `mark` is captured
  (`src/pydblog/connectors/base.py:31-40`). `get_max_lsn` may otherwise lag by any amount.
- Leading key values are integers and unique in the table at every position. `_key_after` refuses a
  repetition inside a page; `Paging.PagingIsExactIffLeadsAreUnique` shows what one across pages does.
- A run opens at most one past the committed end. `_seed` sees to that as long as the retention floor it
  reads is no higher than the committed end, which the model takes of every source (`Source.Valid`);
  `state_at_lsn` does not, see `Limits.OpeningMustNotLieAhead`.
- Cleanup does not pass a run's position between the retention check and the log read of one call, or
  else the server refuses a window that opens below its floor. Without either,
  `Guarantees.UnguardedWindowIsCompleteIffNothingWasCleaned` says exactly when the window is whole.
- Changes carry full row images and positions above zero.
- A run that dumps the table opens into an empty target. `Reconstruction.ReconstructedIffNothingStaleIsLeft`
  and `Limits.EmptyTargetIsNeededAnywhere` say what happens otherwise.

## Where the code and its documentation disagree

The model follows the code.

- `README.md:65-71` and `src/pydblog/dblog.py:579-582` call a frame written without its state safe, since
  it is read again. That is proved for every call but the one that opens the run: with no older state to
  go back to, the next call opens a new run at the present, past changes the lost window was there to
  cover. `Limits.LostOpeningIsHarmlessIffNothingIsLeft` says when that does no harm, and
  `Limits.LostOpeningIsNotAtLeastOnce` is a run whose finished target keeps a deleted row. The
  usage example, which answers an expired or changed run by `state = None`, has the same need of an
  emptied target.
- `src/pydblog/dblog.py:160-162` calls a position the source has not reached fine. For a tail it is. For
  a run that is still to walk the table it loses rows: `Limits.OpeningMustNotLieAhead`.
- `src/pydblog/dblog.py:230-234` says a re-inspection stops a run when frames would no longer stack. It
  also stops one when a column changes between two types that read back as one Arrow type, and exactly
  then (`Guarantees.NeedlessStopIffRetyped`, `Limits.RetypingWithinOneArrowTypeStopsARun`). The direction that matters, that a run which goes
  on has one schema, is `Guarantees.OneSchemaPerRun`.
- `src/pydblog/dblog.py:602-604` says rows sharing a leading key would be dropped and are refused. Those
  that share it across a page boundary are dropped and not refused:
  `Paging.RepeatedLeadAcrossPagesIsDropped`.

## Model

| member | source | states |
|---|---|---|
| Reconstruction.EveryRunReconstructs | src/pydblog/dblog.py:533-646 | The correctness claim: for every run from `state=None` into an empty target, with anything happening between any two reads, any page sizes and any later results lost, after each kept call every key the walk passed or a window carried reads as in the table at `last_lsn - 1`, every other is absent or right early, and once `dump_done` the target is the table |
| Reconstruction.EveryRunHolds | src/pydblog/dblog.py:616-646 | The invariant behind it holds after every call of every run: kept, lost half-written, or raising |
| Reconstruction.StepKeeps | src/pydblog/dblog.py:616-646 | One call, whichever way it ends, takes the invariant from one state of the world to the next |
| Run.EnvironmentKeeps | src/pydblog/connectors/mssql/connector.py:189-191 | Commits, captures, cleanups, clock ticks and schema changes between calls cannot break the invariant |
| Run.DroppedHolds | src/pydblog/dblog.py:579-582 | A result of which some rows were written and the state lost leaves the invariant of the older state standing, re-delivery and rows ahead of it included |
| Run.KeptHolds | src/pydblog/dblog.py:626-646 | A result kept whole moves the invariant to the new state |
| Run.FrameHasEffect | src/pydblog/dblog.py:640-646 | What a whole frame does to one key: right if the window carries it, the table's image if the chunk does, otherwise unchanged |
| Reconstruction.ReconstructedSoFar | src/pydblog/dblog.py:616-646 | Mid-dump: keys below `chunk_key` and keys any window carried are right; the others are absent, or right early if a lost frame brought them |
| Reconstruction.ReconstructedIffNothingStaleIsLeft | src/pydblog/dblog.py:616-646 | Into a target that held something: the finished dump is the table if and only if every key held at the opening is in the table or was carried by a window since |
| Reconstruction.TailIsRightIffTargetWas | src/pydblog/dblog.py:140-145 | A run of the log alone ends on the table if and only if the target was right, at the opening, about every key no window has carried |
| Reconstruction.WindowsPartitionTheLog | src/pydblog/dblog.py:490-530 | Over any run the log rows of the kept frames are exactly the log from the opening to `last_lsn`, each change once and in order |
| Reconstruction.GreatestRowPerKeyIsTheTable | src/pydblog/connectors/mssql/connector.py:446-450 | Keeping per key the appended row with the greatest `(start_lsn, seqval)`, in any order and with repetitions, gives the table; ties between dump rows included |
| Reconstruction.EveryRunReconstructsOrderFree | src/pydblog/connectors/mssql/connector.py:446-450 | The same over every run whose first and last results were kept, of the rows written since that first result, whatever the target it would be applied to held before; rows an earlier, lost opening wrote must not be among them |
| Reconstruction.OpeningIsFixed | src/pydblog/state.py:32-45 | Once a state is saved a run keeps its opening, whatever is lost or raised later |
| Source.InterleavingsEvolve | src/pydblog/connectors/mssql/connector.py:186-191 | Any interleaving of commits, captures, cleanups, ticks and alterations keeps the log ordered and only extends it past what was committed |
| Source.WindowsConcatenate | src/pydblog/dblog.py:508-513 | Windows that abut concatenate to the window over both: no change twice, none between |
| Call.BatchDelivers | src/pydblog/dblog.py:626-646 | One batch delivers the log between the old position and the new, in order, then dump rows that are true at the window's opening, and misses no key of the stretch it walked |
| Call.BatchIsShaped | src/pydblog/dblog.py:621-646 | What a batch returns for given reads: window first, then the chunk rows no window key supersedes, dated by the low watermark, the key one past the page, done when it came short, nothing empty handed out |
| Call.WindowIsTheLogBetween | src/pydblog/dblog.py:512-530 | However `get_max_lsn` moves, the window is exactly the log between the two positions and nothing captured by then is left behind |
| Call.BarrierCloses | src/pydblog/dblog.py:628-634 | After the barrier the window closes past everything that had been committed at the high watermark |
| Call.SurvivorIsStable | src/pydblog/dblog.py:630-645 | A chunk row the window does not carry had its value at every position from before the low watermark through the window's close, each row read at an instant of its own |
| Call.UnreadIsPastThePage | src/pydblog/dblog.py:462-466 | A key of the table in the page's range that neither page nor window carries sorts after a full page |
| Call.WalkAdvances | src/pydblog/dblog.py:441-487 | The walk goes past every row of its page, never back, and never reopens once done |
| Dblog.SupersedeRefinesAntiJoin | src/pydblog/dblog.py:313-362 | The key-only fast path returns what the full anti-join would: the order-preserving subsequence of chunk rows whose whole key the window lacks |
| Dblog.MergedHalvesCommute | src/pydblog/dblog.py:394-399 | A merged frame is the window then the stamped chunk, their keys are disjoint, and applying them in either order is the same |
| Answers.CallAnswersIff | src/pydblog/dblog.py:612-646 | A call, opening or resuming, dumping or tailing, answers exactly when its inputs let it: a page size, the right table, an inspectable catalogue with the run's columns if the spec is due, a floor at or below the position, captured positions below the last, a guarded log above its floor, and for a dump a page with distinct whole-number leading keys and a barrier passed |
| Answers.BatchAnswersIff | src/pydblog/dblog.py:624-646 | The same of one batch, whatever state it starts from |
| Answers.WindowAnswersIff | src/pydblog/dblog.py:512-530 | A window is read exactly when something is captured and, if the position is not past it, the log is retained, the schema declared and a next position left; the position becomes one past what was captured or stays |
| Answers.WindowRefusals | src/pydblog/dblog.py:512-530 | What reading a window raises, and in which order |
| Answers.PageAnswersIff | src/pydblog/dblog.py:402-487 | A page is read exactly when the table has keys, columns and a schema and, if any row came, leading keys are distinct whole numbers |
| Answers.PageRefusals | src/pydblog/dblog.py:402-487 | What reading a page raises, and in which order |
| Answers.BatchRefusals | src/pydblog/dblog.py:630-636 | A batch raises what its page does, then a stalled capture's timeout, then what its window does |
| Answers.RefusalsMeanWhatTheySay | src/pydblog/dblog.py:604-622 | The errors a caller acts on are raised exactly for a page size below one, a state of another table, a due spec whose keys or columns moved, and a position below the floor |
| Answers.InspectAnswersIff | src/pydblog/connectors/mssql/connector.py:330-386 | `inspect` gives a spec with a change log exactly when the table has a key, its reads agree on every captured column, and its keys are captured and computed on neither side |
| Answers.InspectReturnsTheCatalogue | src/pydblog/connectors/mssql/connector.py:352-386 | The spec is the catalogue's, under the name asked for, each captured column carrying the formula the source computes it by, and no key computed |
| Answers.SpecIsAsOldAsItSays | src/pydblog/dblog.py:246-287 | A returned spec was inspected in this call exactly if the call opened a run or the spec was due, and the state's time says when |
| Answers.AnswerReachesWhatWasCaptured | src/pydblog/dblog.py:513-530 | An answered call leaves the position one past what was captured, or where it was if that was further |
| Answers.EveryRowIsAccountedFor | src/pydblog/connectors/mssql/connector.py:446-468 | Every row of a frame is a change of its window or a row of its page, all-zero positions, dated by the low watermark, masked to the spec's width |
| Answers.StatesAreOfTheirTable | src/pydblog/dblog.py:191-196 | Over any run a saved state is of the table asked for |
| Answers.JoinedNamesTellTablesApart | src/pydblog/dblog.py:191-192 | Without dots in identifiers, the joined name the check compares tells every two tables apart |
| Answers.StateAtLsnAnswersIff | src/pydblog/dblog.py:157-176 | `state_at_lsn` answers exactly for an inspectable table and a retained position, with just that state, and raises for the position exactly when it has aged out |
| Guarantees.NoFrameMeansCaughtUp | src/pydblog/dblog.py:607-611 | A None frame means the walk is done, nothing captured lies in the window, and the target is the table; any other frame has rows |
| Guarantees.NoSilentGap | src/pydblog/dblog.py:290-310 | On a server that guards its floor, any answer to an opening or a resumed call has read every change from its position to the one it returns, from at or above the floor it checked |
| Guarantees.AgedOutIsRefused | src/pydblog/dblog.py:304-310 | A position below the floor raises, whatever else the call was given |
| Guarantees.OpensAboveTheFloor | src/pydblog/dblog.py:92-105 | A seeded position and a resumed one are at or above the floor read for them; a resumed one is the state's |
| Guarantees.StateAtLsnOpensAboveTheFloor | src/pydblog/dblog.py:157-176 | `state_at_lsn` hands back the position it was given with a spec that has a schema, or raises, as it does at every position below the floor |
| Guarantees.UnguardedWindowIsCompleteIffNothingWasCleaned | src/pydblog/dblog.py:520-530 | With no guard at the server, a window is complete if and only if nothing of it had been cleaned away by the log read |
| Guarantees.CallOnlyAdvances | src/pydblog/dblog.py:619-646 | One call never moves a position or the chunk key back, reopens the walk, or changes table, keys or captured columns |
| Guarantees.RunsOnlyAdvance | src/pydblog/dblog.py:619-646 | The same between any two states of any run, and `chunk_key` is frozen once `dump_done` |
| Guarantees.TailNeverReadsTheTable | src/pydblog/dblog.py:624-626 | Once `dump_done`, no page, watermark or barrier can change what a call answers |
| Guarantees.RefreshStopsExactlyOnDrift | src/pydblog/dblog.py:246-287 | A re-inspection stops a run exactly when its keys moved, or the schema of its frames did, or a captured column changed type name, precision or scale; otherwise it goes on under the new spec |
| Guarantees.NeedlessStopIffRetyped | src/pydblog/dblog.py:230-234 | With keys and the schema of frames unchanged, a re-inspection still stops a run exactly when a captured column changed type name, precision or scale |
| Limits.RetypingWithinOneArrowTypeStopsARun | src/pydblog/dblog.py:267-273 | A varchar column altered to nvarchar: `inspect` accepts the table before and after, both declare the same frames, and `_refresh_spec` and the call it is in raise |
| Guarantees.OneSchemaPerRun | src/pydblog/dblog.py:593-596 | Every frame of a run has the event schema, and its dump rows the mask width, that the first state it saved declares: the opening frame, lost frames, window and chunk and merged frames, across any number of re-inspections and raising calls |
| Guarantees.AnsweredFrameIsDeclared | src/pydblog/dblog.py:626-646 | The frame of any one call, opening or resumed, kept or lost, is in the schema of the spec it returns and, resumed, of the spec it was given |
| Guarantees.SeededSpecDeclaresASchema | src/pydblog/connectors/mssql/connector.py:381-386 | The spec a run opens with declares a schema |
| Guarantees.FullPageRaisesKey | src/pydblog/dblog.py:402-438 | A full page raises `chunk_key` by at least its size |
| Guarantees.BackfillEnds | src/pydblog/dblog.py:469-487 | Pages of at least n rows that leave the dump unfinished number at most (hi - lo + 1) / n, whatever writers do |
| Guarantees.RunBackfillEnds | src/pydblog/dblog.py:469-487 | A run that has kept k calls, the opening one counted, and not finished the dump has k <= (hi - lo + 1) / n, whatever writers did and however many other calls raised or lost their results: the dump ends within (hi - lo + 1) / n + 1 kept calls |
| Guarantees.PersistedRoundTrip | src/pydblog/state.py:56-63 | A state written with its LSN as hex and restored is the state |
| Guarantees.SavedPositionsFitTheWidth | src/pydblog/connectors/mssql/connector.py:854-860 | At every point of a run, while the database has LSNs of the fixed width, the position saved is one, and the state that carries it comes back from its written form as itself |
| Limits.EmptyTargetIsNeeded | src/pydblog/dblog.py:552-557 | Every run opened with no state into a target reconstructs the table if and only if that target was empty |
| Limits.EmptyTargetIsNeededAnywhere | src/pydblog/dblog.py:552-557 | The same on any source from where it stands, whatever its table holds, while LSNs are left |
| Limits.LostOpeningIsHarmlessIffNothingIsLeft | src/pydblog/dblog.py:579-582 | After any opening call whose state was lost, every run opened next reconstructs the table if and only if the rows it wrote leave the target empty |
| Limits.LostOpeningIsNotAtLeastOnce | src/pydblog/dblog.py:579-582 | A run in which such rows are stale for good, with no error raised |
| Limits.OpeningMustNotLieAhead | src/pydblog/dblog.py:160-169 | For every source, table and state `state_at_lsn` built on an integer leading key, the walk from it is right in every run if and only if its position is at most one past the committed end |
| Paging.PagingIsExactIffLeadsAreUnique | src/pydblog/dblog.py:441-487 | On a quiescent table, at any page sizes, the pages concatenate to the key-sorted table with each row once and the walk ends, if and only if no leading key repeats |
| Paging.WalkDeliversAll | src/pydblog/dblog.py:454-460 | After any number of pages of any sizes, read by a reader that leaves exactly what it does not read, what was delivered and what remains make up what there was |
| Paging.PagesOfAreLossless | src/pydblog/dblog.py:441-487 | With leading keys unique, `_next_chunk` is such a reader |
| Paging.DoneWhenShort | src/pydblog/dblog.py:473-487 | The dump is over exactly when fewer rows remained than this call asked for; otherwise the page is the first rows that remained |
| Paging.RepeatedLeadAcrossPagesIsDropped | src/pydblog/dblog.py:420-438 | Keys (1,1) and (1,2) at one row a page: the second is never read and nothing is raised |
| Paging.SnapshotPageIsLegal | src/pydblog/connectors/mssql/connector.py:679-730 | A page read at one instant, first rows in key order from the bound on, is one of the pages the protocol results allow |
| Lsn.ByteOrderIsNumericOrder | src/pydblog/connectors/mssql/connector.py:25-27 | Comparing equally long big-endian strings as bytes is comparing them as numbers |
| Lsn.BytesOfNumber | src/pydblog/connectors/mssql/connector.py:857-858 | Bytes to number and back is the identity |
| Lsn.NumberOfBytes | src/pydblog/connectors/mssql/connector.py:857-858 | Number to bytes and back is the identity, for numbers that fit |
| Lsn.IncrementIsImmediateSuccessor | src/pydblog/connectors/mssql/connector.py:834-860 | `increment_lsn` is schoolbook addition across any carry chain, has no LSN between it and its argument, and fails only on a wrong width and at the maximum |
| Lsn.WindowsAbut | src/pydblog/dblog.py:507-521 | Byte-compared windows [a, h] and [inc(h), h'] cover [a, h'] with nothing twice and nothing between |
| Lsn.HexRoundTrip | src/pydblog/state.py:56-63 | Any byte string written as hex reads back as itself |
| Lsn.FromHexReadsEverything | src/pydblog/state.py:60-63 | A string read as bytes is their hex but for blanks and case: nothing in it was passed over |
| Lsn.FromHexAcceptsPairsOfDigits | src/pydblog/state.py:60-63 | Without blanks a string is read exactly when it is pairs of hex digits of either case |
| Lsn.FromHexSkipsBlanks | src/pydblog/state.py:60-63 | White space is skipped ahead of a byte and refused inside one |
| Catalog.MarkingIsInvisibleToEquality | src/pydblog/connectors/mssql/connector.py:304-328 | Marking changes nothing of a column but its formula, and so not what it compares equal to; it marks exactly the columns the source computes, with the source's formula |
| Catalog.EqualityIgnoresCaseAndFormula | src/pydblog/connectors/types.py:41-52 | Columns compare equal exactly when all but the case of their type name and their formula is the same |
| Catalog.LookupFindsTheLast | src/pydblog/connectors/mssql/schema.py:136-139 | Of columns that share a name the last one counts |
| Types.WholeNumbersFitExactly | src/pydblog/connectors/mssql/schema.py:33-38 | A whole-number column is read as the Arrow type that carries exactly the values it stores, and no other column is |
| Types.DecimalsKeepTheirDigits | src/pydblog/connectors/mssql/schema.py:93-94 | Exactly the decimal and money types read as decimals, of the column's own precision and scale |
| Types.TimesKeepTheirDigits | src/pydblog/connectors/mssql/schema.py:65-105 | Exactly the instants and times of day read as such, in the coarsest unit that keeps what can be kept of their digits, in UTC exactly for datetimeoffset |
| Types.FamiliesReadAsThemselves | src/pydblog/connectors/mssql/schema.py:32-58 | Exactly the text types read as text, the binary ones as bytes, date as a date and each float at its own width |
| Types.EventSchemaIsTheLogsThenTheTables | src/pydblog/connectors/mssql/schema.py:24-30 | An event schema is the log's five columns with their types and then the captured columns in order, each under its own type |
| Schema.IntegersAreTheWholeNumberTypes | src/pydblog/connectors/mssql/schema.py:75-110 | The types a leading key can have, bit excluded |
| Schema.MaskWidth | src/pydblog/connectors/mssql/connector.py:35-37 | One bit per captured column and no byte without one |
| Schema.ValidateAcceptsExactlyTheReconcilable | src/pydblog/connectors/mssql/schema.py:120-189 | `validate` accepts exactly the specs both reads give one schema: every captured column typed alike on both sides, keys captured and stored, no name of the log's own |
| Schema.ValidateNamesTheFirstOffender | src/pydblog/connectors/mssql/schema.py:138-189 | What `validate` raises names the first offender of the first rule that has one: unreconciled column, bad key, clashing name |
| Schema.EqualColumnsDeclareOneSchema | src/pydblog/connectors/types.py:41-52 | Column lists that compare equal declare equal Arrow fields |
| Schema.ValidatedSchemaHasDistinctNames | src/pydblog/connectors/mssql/schema.py:180-210 | A validated spec's event schema names no column twice |
| Schema.ConformCarriesDataByName | src/pydblog/connectors/mssql/schema.py:213-250 | `conform` succeeds exactly on the declared columns, each once and castable, and then has their order and types with each column's own data under its own name |
| Schema.ConformRefusals | src/pydblog/connectors/mssql/schema.py:229-261 | What `conform` raises: a repeated column, then a missing or unexpected one, then the first in declared order that does not cast |
| Schema.ConformKeepsRows | src/pydblog/connectors/mssql/schema.py:221-222 | The row count is unchanged |
| Schema.ConformIsIdempotent | src/pydblog/connectors/mssql/schema.py:213-250 | Conforming what already conforms changes nothing |
| Query.BuildReadTableQuery | src/pydblog/connectors/mssql/connector.py:595-677 | For every combination of bounds, limit and style the values bind by position, in text order, to the plan that was asked for, the same for TOP and FETCH; each request that is refused, in which order and with which error |
| Query.RequestHasOneAnswer | src/pydblog/connectors/mssql/connector.py:604-612 | A built query has one answer: the first `limit` rows by full key, all for 0, whose leading key is in [start, end) |
| Query.OnlyComputedColumnsReadNull | src/pydblog/connectors/mssql/connector.py:580-593 | A computed column reads back null, every other what is stored under its name |
| Query.UncappedReadsSplit | src/pydblog/connectors/mssql/connector.py:604-608 | Uncapped reads split at any bound concatenate to the unsplit read, composite keys included |

## Left out

- SQL Server, cursors, `connect`, `close`, the catalogue queries of `inspect` and `build_connector`: I/O and foreign calls, kept only as the hypotheses above.
- The polling loop of `await_watermark` and `_capture_passed`: whether the scan-session test is sound depends on server views whose meaning the repository does not define; the contract in `base.py` stands in.
- Uncommitted reads and transactions inside the server: a page row is the row as committed at its own instant.
- Partial images of large columns and the rows of an update's old image, which the log read does not ask for.
- A primary key changed by an update, which the log records as a delete and an insert: covered as those two changes.
- DDL between two inspections that makes a read raise: a raise is a call that fails, which every run result covers, but which one is not modelled.
- polars joins and pyarrow casts as libraries: frames are sequences of keyed rows, a cast is an uninterpreted partial function.
- `conform` against a schema that repeats a name, where pyarrow's own selection fails.
- The range check of `pa.decimal128` on precision, and `str.lower` beyond ASCII in type names.
- Key columns other than integers: a key is a sequence of integers; only the leading one has to be one in the source.
- Guarantees.OneSchemaPerRun: says nothing of the update masks of log rows, which are the server's; dump rows' widths are proved.
- `_validate_identifier` and `_quote_identifier`: names are opaque, so a query is kept as clauses and not as text.
- `read_pk_range` and `map_lsn_to_timestamp`: unused by the algorithm.
- Wall-clock detail: times are integers, and a naive `last_inspect` read as UTC is not modelled; neither is the JSON form of the state's other fields.
- Logging, `_drift` and the wording of errors: an error is a constructor.
- Termination of the tail: it is not meant to end under continuous writes.
