# Verified model of fie-importer

fie-importer selects rows of fies2a capture files, moves them through concurrent
pipelines into ClickHouse tables or into one merged file, and checks the result
afterwards. This project models that logic in Dafny and proves what it promises.
DuckDB and ClickHouse appear as sequences of rows and as operations that may
fail; SQL statements appear as the relational expressions they denote.

`dafny verify dfyconfig.toml` checks the whole project.

## Modules

| file | what it models |
|---|---|
| `Common.dfy` | shared data types, sequence laws, sorting |
| `FieRow.dfy` | a fies2a row and the table row made from it |
| `FieSource.dfy` | row selection: kept files, pushed-down conditions, counts, window, reads |
| `Transfer.dfy` | the producer, channel, consumer and errgroup of `upload-fies` and `upload-pds` |
| `UploadFies.dfy` | `upload-fies` from the directory to the table |
| `FieMerge.dfy` | `merge-fies`: layout check, merged rows, agreement with `upload-fies` |
| `FieVerify.dfy` | the verification of a merged file |
| `MergeFies.dfy` | `merge-fies` from the directory to the merged and verified file |
| `BatchWriter.dfy`, `Ingest.dfy` | the v1 ingester with n workers |
| `Tables.dfy` | ownership of a table by interleaved runs |
| `Operations.dfy` | the recorded command line and a POSIX word splitter |
| `Fdhs.dfy` | `compute-fdhs`: the join, its row check, the run |
| `CoverPds.dfy` | the cover selection script |
| `Pds.dfy`, `UploadPds.dfy` | the PD reader, its IDs, the dry run and the upload |
| `AgentHistory.dfy` | the connection history of agents and its address lookup |
| `MergeProgress.dfy`, `Progress.dfy` | the progress of a merge and the redrawn terminal lines |

Code that updates state step by step is a class or a method with a loop
(`FieSource.Source`, `BatchWriter.ClickHouseBatchWriter`, `Fdhs.Database`,
`Pds.Reader`, `UploadPds.PdStats`, `AgentHistory.AgentConnectionStream`,
`Progress.Display`), proved against functions and predicates about which the
lemmas speak. Concurrent code is a step relation over an explicit state; theorems
about it range over every interleaving, failure and cancellation.

Times are integer nanoseconds since the Unix epoch. DuckDB's `hash`, ClickHouse's
`cityHash64`, schedules, and the success of each server operation are parameters.

## What is false of the code

Where a promise does not hold for all inputs, the exact condition is proved.

- A row whose `capture_second` lies at or beyond its file's interval is lost by a
  filter that starts at the interval's end: the fast selection equals the naive
  one under every filter if and only if no file has such a row
  (`FieSource.FastIsNaiveExactly`); without a time window it always does
  (`FieSource.FastIsNaiveWhenUntimed`). `merge-fies` merges such a row, and then its own
  verification refuses the file: on aligned inputs that do not overlap, merging with
  verification ends well if and only if every input is sorted and has no such row
  (`FieVerify.MergeVerifies`, `MergeFies.MergeAndVerify`).
- The sort of the files by interval start is not stable, so the order of the files
  is determined if and only if different files start at different times
  (`FieSource.OrderIsUniqueExactly`). In any case an upload inserts the rows of the
  files in some order by start (`UploadFies.RunUpload`). The same holds of the
  connection events of an agent: ties can change an answer if and only if two events
  of the agent at one time differ in their address
  (`AgentHistory.AnswersIgnoreTheSortExactly`).
- `merge-fies` floors an interval start to the second and computes a reply time even
  when the address is missing; `upload-fies` does neither. They agree if and only
  if every file with rows starts at a whole second and no row with a transit has
  an age without its address (`FieMerge.MergeAgreesWithUpload`).
- `commandLine` writes the program name unquoted. The line is split back into the
  same words with every argument list if and only if the base name is a plain word
  (`Operations.ReadsBackExactly`), and it can be typed again, to run the same program
  with the same arguments, if and only if that word is also neither an assignment
  nor a reserved word or an alias of the shell (`Operations.CanBeTypedAgainExactly`).
- `covered_fdhs` of a selection sums to the number of FDHs if and only if no PD ID it
  selected is duplicated in the PD table (`CoverPds.CoveredSumsToHandles`); the sum is
  right whatever the hash if and only if no PD with a duplicated ID is unbeaten, on
  occurrences and far replies, for any FDH (`CoverPds.CoveredSumsUnderEveryHash`).
- A run that appends to a table made by another run can lose it: the owner may fail
  and drop the table, even after the other run reported success. The table that a run
  joined stays at every later moment, under every interleaving, if and only if the
  table is older than all runs or no run that may append is beside one that drops on
  failure (`Tables.GuestsKeepTheTableExactly`).
- `Verify` computes segments with `//`. If it truncates, a row captured up to one
  interval before the first is accepted as a row of the first
  (`FieVerify.TruncationAcceptsEarlyRow`). An accepted file has each input's rows inside
  that input's time interval if and only if `//` rounds down or no row is captured
  before the first interval (`FieVerify.TimeConcatenationExactly`).

The comment on `Reader` says that it gives each non-blank line the next ID. The code
gives no ID to a refused line, and a caller that went on after a refusal would see
the next line take the ID of the refused one; the model follows the code
(`Pds.IssuedCountsNonBlank`). Both callers in the repository stop at the first
refusal, and until then a row's ID is the first ID plus the number of non-blank lines
before it (`Pds.Reader.Next`).

## Model

| member | source | states |
|---|---|---|
| FieSource.WhereExactly | internal/fies/source.go:169-196 | on any row, the integer-second conditions are the time window for arbitrary sub-second bounds, except that an end past the last second of the interval is not checked |
| FieSource.WhereIsMatch | internal/fies/source.go:180-190 | for a row inside its interval, the conditions hold if and only if the row passes the filter |
| FieSource.DroppedFilesMatchNothing | internal/fies/source.go:161-167 | a file dropped by the overlap test has no matching row |
| FieSource.OverlapsExactly | internal/fies/source.go:161-167 | under a usable filter a file is kept if and only if some instant of its interval passes the time window |
| FieSource.FastIsNaiveWhenWellFormed | internal/fies/source.go:92-101 | dropping files and omitting bounds never changes what is selected from well-formed files |
| FieSource.FastIsNaiveWhenUntimed | internal/fies/source.go:161-192 | nor what is selected from any file without a time window |
| FieSource.FastIsNaiveExactly | internal/fies/source.go:161-192 | a file is selected faithfully under every filter if and only if it is well formed |
| FieSource.PdListSelects | internal/fies/source.go:172-174 | a list of PD IDs keeps, of the rows selected without it, exactly those whose PD is listed, in order |
| FieSource.PercentSelects | internal/fies/source.go:175-179 | a percentage keeps exactly the rows whose PD hashes below ten thousand buckets of a million per percent |
| FieSource.AllPercentSelectsAll | internal/fies/source.go:175-179 | 100 percent selects as no percentage does |
| FieSource.SamplesGrow | internal/fies/source.go:175-179 | a larger percentage only adds rows |
| FieSource.UsableExactly | internal/fies/source.go:44-56 | a filter is usable if and only if it combines no list with a percentage, keeps the percentage in range and leaves some capture time open |
| FieSource.Window | internal/fies/source.go:243-263 | the loop computes the plan about which the lemmas below speak |
| FieSource.ReadsAreCut | internal/fies/source.go:240-263 | the planned reads, concatenated, are exactly the slice [offset, offset+limit) of all selected rows |
| FieSource.ReadsAreGood | internal/fies/source.go:232-263 | files strictly increase, every read is non-empty and inside its file, only the first starts mid-file, only the last stops early |
| FieSource.ReadsTotal | internal/fies/source.go:243-263 | the limits sum to min(limit, max(0, total - offset)) |
| FieSource.GatherLength | internal/fies/source.go:265-291 | the rows of a plan number the sum of its limits |
| FieSource.OrderIsUnique | internal/fies/source.go:102 | with distinct starts, any sort gives the same order |
| FieSource.OrderIsUniqueExactly | internal/fies/source.go:102 | the order is determined if and only if different files start at different times |
| FieSource.Source.Init | internal/fies/source.go:92-102 | the files kept are those that overlap the window, each as often as found, ordered by start |
| FieSource.Source.Plan | internal/fies/source.go:201-211 | every file gets the count of its selected rows, nothing else changes |
| FieRow.ToIPv6IsFaithful | internal/fies/row.go:65-71 | exactly 4- and 16-byte addresses are kept, a 16-byte one as it is and a 4-byte one as ::ffff:a, and only an address and its mapped form coincide |
| Transfer.ChunksArePacked | cmd/fie-importer/upload_fies.go:289-316 | cutting a stream into batches loses nothing, and every batch but the last is full |
| Transfer.PackedIsChunks | cmd/fie-importer/upload_fies.go:289-316 | there is only one way to pack a stream into full batches and a rest |
| Transfer.InvStep | cmd/fie-importer/upload_fies.go:279-329 | every step of the producer, the consumer, the errgroup and the caller keeps the invariant, the count of rows sent included |
| Transfer.BatchesAreChunksOfPrefix | cmd/fie-importer/upload_fies.go:280-327 | inserted, in flight, in the channel and partial are together, in order, the rows read so far cut into batches |
| Transfer.EveryRunIsOrderedAndBounded | cmd/fie-importer/upload_fies.go:279-329 | in every state of every run the batches are those of the prefix read, and at most 4 are live |
| Transfer.FourBatchesAreLive | cmd/fie-importer/upload_fies.go:281-327 | the bound of four live batches is reached |
| Transfer.SuccessInsertsEverything | cmd/fie-importer/upload_fies.go:310-329 | a nil result means that every row was inserted, in order and in whole batches |
| Transfer.FailureLeavesPrefix | cmd/fie-importer/upload_fies.go:319-328 | after a failure the table holds a prefix, whether or not the failed insert took effect |
| Transfer.EveryRunReportsTheFirstError | cmd/fie-importer/upload_fies.go:280-328 | in every run the first error reported is the one returned, a cancellation only if the caller canceled, a failed insert only with a batch whose insert failed |
| Transfer.EachErrorIsReported | cmd/fie-importer/upload_fies.go:297-328 | a failed read, a cancellation and a failed insert can each be the error returned |
| Transfer.NoDeadlock | cmd/fie-importer/upload_fies.go:297-328 | no reachable state is stuck before both goroutines have returned, and going on needs no cancellation and no failed insert |
| Transfer.StepDecreasesMeasure | cmd/fie-importer/upload_fies.go:279-329 | every step decreases a measure |
| Transfer.EveryRunEnds | cmd/fie-importer/upload_fies.go:279-329 | no run takes more than four steps a row and six more |
| Transfer.QuietRunsSucceed | cmd/fie-importer/upload_fies.go:279-329 | under every interleaving without an outside failure nothing goes wrong, and the end has every row inserted |
| Transfer.ProgressIsAdmissible | cmd/fie-importer/upload_fies.go:279-329 | a schedule that never asks for an impossible step exists, and one in which nothing outside fails |
| Transfer.Execute | cmd/fie-importer/upload_fies.go:279-329 | under any schedule the pipeline ends, with everything inserted on success and a prefix otherwise; it succeeds whenever nothing outside fails, and reports a cancellation only if the caller canceled |
| UploadFies.KeptAreOrderedAndDropped | internal/fies/source.go:92-102 | whatever order the sort leaves, the kept files are all files in some order by start, without the dropped ones |
| UploadFies.KeptAreFilteredOrder | internal/fies/source.go:92-102 | with distinct starts, dropping before sorting gives the order of sorting before dropping |
| UploadFies.DroppedFilesAddNothing | internal/fies/source.go:92-102 | the kept files yield the rows that all files yield under the naive filter, without a time window or when all files are well formed |
| UploadFies.KeptSelectAll | internal/fies/source.go:92-102 | the files kept by any sort yield the naive rows of all files in some order by start |
| UploadFies.FastUploadIsNaive | cmd/fie-importer/upload_fies.go:202-215 | what the evaluated conditions select, cut by offset and limit, is the naive selection |
| UploadFies.NaiveUploadIsUnique | internal/fies/source.go:102 | when different files start at different times, the naive upload is one list of rows |
| UploadFies.ListedUpload | internal/fies/source.go:170-192 | an upload with a PD list inserts, of the rows of the upload without it, exactly those of the listed PDs, in order |
| UploadFies.ReadAll | cmd/fie-importer/upload_fies.go:285-309 | reading the planned reads in turn gives their concatenated rows, converted |
| UploadFies.PrepareUpload | cmd/fie-importer/upload_fies.go:202-215 | open, plan and window yield the slice of what the conditions select from the files kept in an order by start, and the total computed beforehand is its length |
| UploadFies.RunUpload | cmd/fie-importer/upload_fies.go:178-329 | end to end, under any interleaving and failure: success inserts exactly the selected rows, in an order by start, and the row check passes; a failure leaves a prefix and, unless the caller canceled, reports no cancellation; it succeeds whenever nothing outside fails; without a time window or on well-formed files the rows are those the filter means, and with distinct starts they are determined |
| FieMerge.CheckLayout | internal/fies/merge.go:47-60 | it succeeds if and only if neighbours are disjoint, with the gaps between them, and otherwise names the first file that overlaps its predecessor |
| FieMerge.NeighborsSuffice | internal/fies/merge.go:45-60 | for sorted intervals, comparing neighbours is comparing all pairs |
| FieMerge.InstantsAreCoveredOnce | internal/fies/merge.go:45-60 | every instant of the covered span lies in exactly one file or exactly one reported gap, any other in none |
| FieMerge.StartOfIsOwn | internal/fies/merge.go:139-144 | with distinct paths, the CASE gives every row the start of its own file |
| FieMerge.Merge | internal/fies/merge.go:66-109 | the checks of a merge decide its outcome, it writes the rows of all files in file order, and once every row is counted the row check cannot fail |
| FieMerge.UnfilteredPlanCountsAll | internal/fies/source.go:201-211 | without a filter, the plan counts every row |
| FieMerge.MergedRowsCount | internal/fies/merge.go:79-100 | the merged rows number the sum of the planned counts |
| FieMerge.RowsAgreeExactly | internal/fies/merge.go:151-157 | the merged and the uploaded row agree in IDs, all times and addresses if and only if the start is a whole second and no age lacks its address |
| FieMerge.SameOrderAgreesExactly | internal/fies/merge.go:137-160 | in one order of the files the merged and the naively selected rows agree if and only if every file is comparable |
| FieMerge.DisjointStartsDiffer | internal/fies/merge.go:45-60 | files that cover some time and do not overlap start at different times |
| FieMerge.MergeAgreesWithUpload | internal/fies/merge.go:137-160 | merge-fies and any unfiltered upload-fies of the same non-overlapping files, each with its own sort, agree row by row and in order if and only if every file is comparable |
| FieVerify.SegIsInterval | internal/fies/merge.go:186-188 | a segment is the interval of its number, and what truncation does to earlier rows |
| FieVerify.ChecksGiveConcatenation | internal/fies/merge.go:166-221 | checks of adjacent rows and segment counts imply that the file is one contiguous sorted block per input, in order |
| FieVerify.ConcatenationPassesChecks | internal/fies/merge.go:166-221 | such a file passes every check |
| FieVerify.LayoutGivesAscending | internal/fies/merge.go:174-181 | aligned disjoint inputs have strictly increasing segments |
| FieVerify.AlignedExactly | internal/fies/merge.go:172-181 | the inputs pass as aligned if and only if they have one length and each starts a whole number of lengths from the first |
| FieVerify.GroupsPassIsPassesChecks | internal/fies/merge.go:183-220 | the grouped counts decide the adjacent-row checks |
| FieVerify.CollectWants | internal/fies/merge.go:172-181 | the loop finds whether the inputs are aligned and the rows wanted per segment |
| FieVerify.CheckGroups | internal/fies/merge.go:196-212 | the loop passes if and only if every group does, and leaves the segments without rows |
| FieVerify.CheckLeft | internal/fies/merge.go:216-220 | nothing is left to complain about if and only if no missing segment wanted rows |
| FieVerify.TimeConcatenationExactly | internal/fies/merge.go:166-221 | a concatenation by segments has every block inside its file's time interval if and only if nothing is rounded up |
| FieVerify.TruncationAcceptsEarlyRow | internal/fies/merge.go:186-188 | an input that a truncating division accepts although its row lies before every interval |
| FieVerify.Verify | internal/fies/merge.go:171-225 | a file is accepted if and only if the inputs are aligned and it is the concatenation of one good block per input, by segments and, where rounding does not interfere, by time intervals of one length a whole number of lengths apart |
| FieVerify.MergeVerifies | internal/fies/merge.go:131-225 | the merged file of aligned inputs is accepted, by segments and by time intervals, if and only if every input is well formed and sorted |
| MergeFies.MergeAndVerify | cmd/fie-importer/merge_fies.go:98-178 | merging, with verification if asked for, ends well if and only if the inputs do not overlap and, for the verification, have one length, start a whole number of lengths apart, and are well formed and sorted |
| MergeFies.RunMerge | cmd/fie-importer/merge_fies.go:66-178 | the same from the files found, opened and counted: in some order by start, the outcome and the rows written |
| MergeFies.RunsAgreeExactly | cmd/fie-importer/merge_fies.go:66-178 | what such a run wrote and what an unfiltered upload of the same files inserts agree if and only if every file is comparable |
| BatchWriter.AppendConserves | deprecated/internal/streams/clickhouse_batch_writer.go:29-50 | no row is lost, repeated or reordered by an append, whatever fails in it |
| BatchWriter.FlushConserves | deprecated/internal/streams/clickhouse_batch_writer.go:52-64 | a flush sends what is pending or keeps it |
| BatchWriter.FedSendsWholeBatches | deprecated/internal/streams/clickhouse_batch_writer.go:29-64 | a stream is sent in order in whole batches, the rest staying pending |
| BatchWriter.ClickHouseBatchWriter.Append | deprecated/internal/streams/clickhouse_batch_writer.go:29-50 | the method changes the writer and the table as the function about which the lemmas speak |
| BatchWriter.ClickHouseBatchWriter.Flush | deprecated/internal/streams/clickhouse_batch_writer.go:52-64 | likewise |
| Ingest.InvStep | deprecated/internal/streams/parallel_foreach.go:75-121 | every step keeps the invariant, for any number of workers and any capacity |
| Ingest.EveryRunConserves | deprecated/internal/streams/clickhouse_ingester.go:124-160 | at every moment each entry produced is in exactly one place, and the table is a sub-multiset of the stream without failed entries |
| Ingest.SuccessSendsTheStream | deprecated/internal/streams/clickhouse_ingester.go:150-159 | Ingest returns nil only if the table received exactly the stream, which carried no error |
| Ingest.EveryRunCounts | deprecated/internal/streams/clickhouse_batch_writer.go:29-64 | in every run entries leave the channel in the order they came, and the writers' totals count the rows sent and pending |
| Ingest.ProducerReturnsExactly | deprecated/internal/streams/parallel_foreach.go:91-105 | the producer returns nil at the end of the stream, and before that only when the context is done, with an error exactly when the caller's is |
| Ingest.EveryRunReportsTheFirstFailure | deprecated/internal/streams/clickhouse_ingester.go:150-159 | Ingest returns the first failure reported, or a failed flush; a cancellation only if the caller canceled, a stream error only if the stream carried one |
| Ingest.CancellationIsReturned | deprecated/internal/streams/parallel_foreach.go:96-100 | a cancellation by the caller can be what is returned |
| Ingest.EntryFailureIsReturned | deprecated/internal/streams/clickhouse_ingester.go:134-148 | a stream error or a failed append can be what is returned |
| Ingest.FlushFailureIsReturned | deprecated/internal/streams/clickhouse_ingester.go:154-158 | a failed flush can be what is returned |
| Ingest.NoDeadlock | deprecated/internal/streams/parallel_foreach.go:91-120 | no reachable state is stuck, even when all workers have failed, with capacity 0 or with a full channel |
| Ingest.StepDecreasesMeasure | deprecated/internal/streams/parallel_foreach.go:75-121 | every step decreases a measure |
| Ingest.EveryRunEnds | deprecated/internal/streams/clickhouse_ingester.go:124-160 | no run takes more than three steps an entry, three a worker and five |
| Ingest.QuietRunsSucceed | deprecated/internal/streams/clickhouse_ingester.go:124-160 | under every interleaving without an outside failure Ingest returns nil with the whole stream sent |
| Tables.InvStep | cmd/fie-importer/shared.go:42-82 | every step of every run keeps the ownership invariant |
| Tables.OwnershipIsExclusive | cmd/fie-importer/shared.go:42-82 | over every interleaving, with operations carried out at once or after the run gave up, at most one run owns the table, a run drops only what its own CREATE made, and an older table stays |
| Tables.DropLeavesNothing | cmd/fie-importer/shared.go:71-82 | a failed owner whose drop succeeds drops its own table and leaves none |
| Tables.OwnerCanDrop | cmd/fie-importer/shared.go:71-82 | the DROP of an owner always meets its own table |
| Tables.LateDropIsOwn | cmd/fie-importer/shared.go:71-82 | a DROP carried out after its run gave up still meets that run's own table |
| Tables.SuccessKeepsTheTable | cmd/fie-importer/shared.go:71-74 | a body that succeeds ends its run well and leaves the table as it is |
| Tables.CreatedTableStays | cmd/fie-importer/shared.go:42-82 | over every trace, the table a run created is its own at every later moment, unless its body failed and it was told to drop |
| Tables.OnlyFailuresDrop | cmd/fie-importer/shared.go:71-82 | over every trace, only a run whose body failed and that was told to drop has dropped anything |
| Tables.SoloRunSucceeds | cmd/fie-importer/shared.go:42-67 | a run alone with nothing failing leaves its table, or the existing one it appended to |
| Tables.LookedDecides | cmd/fie-importer/shared.go:53-61 | with a table a run joins or refuses by its option, without one it creates |
| Tables.ExistingTableRefuses | cmd/fie-importer/shared.go:56-65 | without append an existing table ends the run and nothing else changes |
| Tables.OnlyBodiesSucceed | cmd/fie-importer/shared.go:42-82 | a run ends well only by a body that succeeds |
| Tables.GuestLosesTheTable | cmd/fie-importer/shared.go:53-82 | any run that may append loses the table while it works when another one made it, fails and drops it |
| Tables.FinishedGuestLosesTheTable | cmd/fie-importer/shared.go:53-82 | likewise after it reported success |
| Tables.GuestsKeepTheTableExactly | cmd/fie-importer/shared.go:53-82 | in every interleaving the table a run joined stays at every later moment, also after the run, if and only if the table is older than all runs or no run that may append is beside one that drops on failure |
| Operations.TrimmedAway | cmd/fie-importer/operations.go:86-89 | trimming leaves nothing exactly when every character is safe |
| Operations.SafeExactly | cmd/fie-importer/operations.go:87 | the safe characters are those of the cut set |
| Operations.BaseIsLastElement | cmd/fie-importer/operations.go:79 | the program name printed is the last element of its path |
| Operations.BaseWithoutElement | cmd/fie-importer/operations.go:79 | without an element the program name is the root or the current directory |
| Operations.CommandLine | cmd/fie-importer/operations.go:74-84 | the loop prints the line about which the lemmas speak |
| Operations.ScanQuoted | cmd/fie-importer/operations.go:86-91 | a quoted argument is read back as one word, whatever its bytes |
| Operations.SplitJoined | cmd/fie-importer/operations.go:80-83 | splitting the joined quoted arguments gives them back |
| Operations.PrintedReadsBack | cmd/fie-importer/operations.go:71-84 | splitting the printed line gives the base name and every argument byte for byte |
| Operations.ReadsBackExactly | cmd/fie-importer/operations.go:71-84 | the line is split back into the same words for all arguments if and only if the base name is a plain word |
| Operations.CanBeTypedAgainExactly | cmd/fie-importer/operations.go:71-84 | the command can be typed again for all arguments if and only if the base name is a plain word that is no assignment and not special to the shell |
| Operations.QuotedNameRuns | cmd/fie-importer/operations.go:79 | quoted, a name without quotes would run whatever it means to the shell |
| Fdhs.JoinSize | internal/clickhouse/fdhs.go:73-113 | the join has at least NearFIEs - MissingPD rows, exactly as many if and only if no PD it uses is duplicated |
| Fdhs.JoinExactly | internal/clickhouse/fdhs.go:75-89 | a row is in the join if and only if it has the fields of an FIE with a near address that is not all zero and of a PD with its ID, the far address NULL when missing or all zero |
| Fdhs.JoinIsOneRowEach | internal/clickhouse/fdhs.go:73-89 | without such a duplicate the join is one row per FIE with a near reply and a PD |
| Fdhs.JoinableCount | internal/clickhouse/fdhs.go:99-113 | the count taken beforehand is the number of FIEs with a near reply and a PD |
| Fdhs.Database.Prepare | cmd/fie-importer/compute_fdhs.go:91-114 | nothing is created unless the inputs exist and some FIE can be joined |
| Fdhs.Database.ComputeFdhs | cmd/fie-importer/compute_fdhs.go:141-176 | success means one row per FIE with a near reply and a PD; a failure leaves an older table alone and drops its own |
| CoverPds.SelectionExists | deprecated/scripts/select-cover-pds.sh:79-87 | every handle has a winner under the order of argMax |
| CoverPds.JoinedExactly | deprecated/scripts/select-cover-pds.sh:46-58 | exactly the pairs of an FIE and a PD of one ID are joined |
| CoverPds.OccurrencesExactly | deprecated/scripts/select-cover-pds.sh:46-58 | a PD yields an FDH as often as it was issued with that near address, for each of its rows with that destination |
| CoverPds.WinnerExactly | deprecated/scripts/select-cover-pds.sh:79-87 | a winner is a PD that yielded the FDH and whose count, far replies on that FDH and hash no other such PD beats, in this order |
| CoverPds.FarReplyDecidesTies | deprecated/scripts/select-cover-pds.sh:18-19 | among PDs that yield an FDH equally often, a far reply on that very FDH decides |
| CoverPds.CoverTableRows | deprecated/scripts/select-cover-pds.sh:62-90 | the table has exactly the rows of winning PDs, with the number of FDHs won and whether one has a NULL near address |
| CoverPds.CoverIdsAreWinners | deprecated/scripts/select-cover-pds.sh:62-90 | the PDs of the cover table are exactly the winners |
| CoverPds.SelectionCovers | deprecated/scripts/select-cover-pds.sh:62-90 | the selected PDs yield every FDH of the run, NULL near addresses included |
| CoverPds.CheckDecidesCoverage | deprecated/scripts/select-cover-pds.sh:92-104 | the two counts of the final check are equal if and only if the PDs cover every FDH |
| CoverPds.FinalCheckPasses | deprecated/scripts/select-cover-pds.sh:92-128 | the final check never fails |
| CoverPds.CoveredSumsToHandles | deprecated/scripts/select-cover-pds.sh:71-79 | covered_fdhs of a selection sums to at least the number of FDHs, exactly to it if and only if no ID it selected is duplicated |
| CoverPds.CoveredSumsExactly | deprecated/scripts/select-cover-pds.sh:71-88 | under a given hash every selection sums rightly if and only if no PD that is best for an FDH has its ID twice |
| CoverPds.MayWinExactly | deprecated/scripts/select-cover-pds.sh:79-87 | a PD can win an FDH under some hash if and only if none beats it on occurrences and far replies |
| CoverPds.CoveredSumsUnderEveryHash | deprecated/scripts/select-cover-pds.sh:71-88 | the sum is right under every hash if and only if no PD with a duplicated ID may win |
| CoverPds.SelectionIsNoLarger | deprecated/scripts/select-cover-pds.sh:62-90 | no more PDs are selected than there are FDHs |
| CoverPds.SelectionIsMinimal | deprecated/scripts/select-cover-pds.sh:10-16 | when every PD yields one FDH the selection has one PD per FDH and no smaller set covers them |
| CoverPds.IssuedOnceYieldsOnce | deprecated/scripts/select-cover-pds.sh:14-16 | on a run where every PD is issued once, a PD yields one FDH |
| CoverPds.SelectionMayBeLarger | deprecated/scripts/select-cover-pds.sh:12-14 | when PDs are issued several times the selection can be larger than the minimum |
| Pds.ParseExactly | internal/pds/pds.go:63-95 | Parse accepts a directive if and only if some row describes it, and returns that row |
| Pds.ParseIsUniform | internal/pds/pds.go:63-95 | whether a line is accepted, and what it becomes, does not depend on the ID |
| Pds.IssuedIdsAreConsecutive | internal/pds/pds.go:126-145 | the i-th row has ID first + i without wrapping, never the last 32-bit ID |
| Pds.IssuedCountsNonBlank | internal/pds/pds.go:97-145 | every non-blank line has a row if and only if none was refused and the IDs did not run out |
| Pds.IssuedWithoutRefusals | internal/pds/pds.go:126-145 | without refusals every non-blank line has a row until the IDs run out |
| Pds.RestIsIssued | internal/pds/pds.go:126-150 | what is read up to the first stop is what those lines issue |
| Pds.Reader.Next | internal/pds/pds.go:126-150 | over any calls, the rows returned are those the scanned lines issue, a refused line takes no ID, and without an earlier refusal a row's ID is the first ID plus the number of non-blank lines before it |
| UploadPds.PdStats.Add | cmd/fie-importer/upload_pds.go:133-147 | every counter stays the count over the rows added |
| UploadPds.DryRun | cmd/fie-importer/upload_pds.go:149-177 | it succeeds if and only if the whole file can be read and is not empty, and counts exactly its rows |
| UploadPds.RunUploadPds | cmd/fie-importer/upload_pds.go:179-263 | under any interleaving and failure: success inserts exactly the rows the dry run counts, with consecutive IDs, and the consumer's count agrees with the table; otherwise a prefix of the rows before the first refused line; it succeeds whenever the whole file can be read, is not empty and nothing outside fails |
| AgentHistory.OfAgentStaysSorted | deprecated/internal/streams/agent_connection_history.go:104-110 | splitting the sorted events by agent keeps each list sorted |
| AgentHistory.ScanIsSearch | deprecated/internal/streams/agent_connection_history.go:131-151 | the linear scan and the searched position give the same answer |
| AgentHistory.AnswerIsRight | deprecated/internal/streams/agent_connection_history.go:125-152 | the answer is right for the events as collected: an event at the time if there is one, else the latest before it |
| AgentHistory.AnswersIgnoreTheSortExactly | deprecated/internal/streams/agent_connection_history.go:104-106 | the order left open by the sort cannot change an answer if and only if the agent has no contradicting events at one time |
| AgentHistory.CollectedExactly | deprecated/internal/streams/agent_connection_history.go:51-102 | exactly the connection events are collected, in order and as often as they come, and this fails exactly when an event cannot be read |
| AgentHistory.Collect | deprecated/internal/streams/agent_connection_history.go:51-102 | the loop collects the events about which the lemma speaks |
| AgentHistory.SplitByAgent | deprecated/internal/streams/agent_connection_history.go:108-110 | the map holds exactly the agents with events, each with its events in the order of the list |
| AgentHistory.AgentConnectionStream.constructor | deprecated/internal/streams/agent_connection_history.go:104-112 | the events are sorted, and the map holds every agent's events in that order |
| AgentHistory.Open | deprecated/internal/streams/agent_connection_history.go:28-113 | a stream is made exactly when every event can be read, and holds exactly the connection events |
| AgentHistory.AgentConnectionStream.AddressAt | deprecated/internal/streams/agent_connection_history.go:125-152 | the lookup agrees with the linear scan for every agent and time, and is right for the events in any order |
| AgentHistory.Search | deprecated/internal/streams/agent_connection_history.go:131-133 | binary search finds the first event at or after the time |
| MergeProgress.Locate | cmd/fie-importer/merge_fies.go:208-220 | the loop finds the file that holds the estimated row: the file and offset where the row plan would resume |
| Progress.Display.Draw | internal/progress/progress.go:210-224 | the method writes the frame about which the lemmas speak |
| Progress.FrameReplaces | internal/progress/progress.go:210-224 | a frame replaces the last one, shorter or longer, in place |
| Progress.UpByZeroMoves | internal/progress/progress.go:211-222 | moving up by a parameter of zero would move, so nothing is written instead |
| Progress.OnlyTheLatestIsVisible | internal/progress/progress.go:194-225 | after any frames exactly the latest is visible, nothing of a taller one is left, the cursor is just below and no other row has changed |

## Left out

- Transfer.InvStep: the goroutines of `transfer` and `transferPDs` are steps of a state machine over values, not methods of objects, so aliasing of a batch between producer and consumer is not modelled; the code allocates a new batch after every send.
- Ingest.InvStep: likewise for `ParallelForEach2` and `Ingest`; a row callback that appends other than once per value is not modelled, and `ParallelForEach`, which lacks the error element, is not modelled separately.
- Tables.InvStep: likewise for interleaved runs.
- Operations.CanBeTypedAgainExactly: the words special to a shell, reserved or aliases, are a parameter; a line with an active unquoted character is taken as no plain command at all.
- CoverPds.SelectionIsMinimal: stated under the condition the script names; when a selection happens to be minimal on other runs is the set cover problem.
- FieVerify.Verify: stated for inputs that passed the layout check, as its only caller checks before.
- UploadFies.RunUpload: checking the table name, opening DuckDB, reading metadata and the summary query are taken to succeed, and the table is new; table creation and dropping are the subject of `Tables` and `Fdhs`.
- UploadPds.RunUploadPds: likewise for the PD file and the summary query.
- MergeFies.RunMerge: the dry run and the checks of thread count and output directory are not modelled.
- FieMerge.Merge: writing to a temporary file, renaming it and failures of DuckDB are not modelled.
- Floating point: `ceilSeconds` is the exact ceiling and the percent threshold is computed in reals; the size estimate of `watchSize` is a parameter.
- Overflow of 64-bit row totals and counters.
- Gzip, JSON, Parquet, RFC 3339 and IP address parsing: lines, files and addresses appear already decoded.
- Terminals: line wrapping, scrolling, styling escapes, the output when it is not a terminal, and the sliding rate.
- The text of SQL and DDL, `quote`, `MissingColumns`, the `Summarize` queries and the operations table's storage.
- `internal/agents`, `upload_agents.go`, the raw event stream, RouteViews and JSONL import and export.
- `KillQuery` and the polling of query progress.
