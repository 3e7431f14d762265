# pyBAR to Judith event segmenter, in Dafny

`pyBARTTree2JudithTTree` converts a pyBAR hit table into the Judith
format. The table arrives as chunks of flat hit rows. The converter cuts
the rows into events at every change of the event number, starting from
the invalid number -1. It turns each non-sentinel row of an event into a Judith hit,
with 1-based pixel coordinates shifted to 0-based. It writes one hit group
per event.

The converter runs in one of two modes:

- **Author mode** (`fill_event`): it writes one Event record per event,
  optionally capped at `max_events`.
- **Verifier mode**: it checks every event against the record at the same
  position of an existing Event table. It stops once the table is used up,
  and it fails if the stream runs out first.

Every irregularity is fatal:

- a chunk over `BUF_SIZE` = 100000 rows (the intended check; see "Left out" for the order in which the code reads and checks a chunk);
- a hit beyond `MAX_HITS` = 4000 in one event;
- a pixel off the 80 × 336 detector;
- an event-number mismatch;
- missing events.

The sentinel row, with column or row 0, stands for "no hit". It is skipped
while the event has no hit yet.

This project models that loop and proves what it does. It has five parts:

- `records.dfy` (`Records`): the row, hit, event record and error shapes,
  the capacities, the C++ integer widths, the `(ULong64_t)` cast and the narrowing to the
  `int` return type.
- `validator.dfy` (`HitValidator`): the per-row hit check.
- `segmenter.dfy` (`Segmenter`): the specification, a pure state machine.
  - Functions over the loop variables: `StepRow` (one row), `RunRows` (one
    chunk), `RunChunks` (the chunk loop), `Finish` (the end of the stream)
    and `Convert` (the whole function, mode checks included).
  - Its invariant `Inv` and the lemmas that keep it.
- `converter.dfy` (`Converter`): the loop as the source runs it.
  - The class `EventLoop` holds the loop variables.
  - The current event's hits are written in place into a fixed array of
    `MAX_HITS` slots at index `nHits`.
  - `Fill()` becomes an append to `events` or `groups`.
  - Each loop level is a method proved equal to the matching specification
    function. The top-level method `PyBarToJudith` is proved equal to
    `Segmenter.Convert`.
- `stream.dfy` (`Stream`) and `wellformed.dfy` (`Wellformed`): reference
  descriptions of the stream, independent of the state machine, and the
  theorems that connect them.
  - `Heads` gives the first row of every run of equal event numbers.
  - `EventRows` cuts the stream into those runs.
  - `GroupHits` is the hit group a run yields.
  - `GoodRun` says when a run passes the hit check.
  - These give: chunk boundaries are invisible; the events are the runs;
    the hit groups are exactly the `GroupHits` of the runs; the author-mode
    records and the verifier-mode checks follow the runs in order; a run is
    accepted exactly when it is good.

The model treats a fatal outcome as an error value with no output. A
success yields the authored records, the hit groups and the event count.
The converter returns that count through its `int` result, so the model
also gives the count narrowed to 32 bits (`Segmenter.Returned`). The
program itself behaves differently on a fatal outcome. It opens the output
file before the loop (line 27), and `RECREATE` truncates it. `Fill()` runs
during the loop (lines 182, 197 and 235) and may flush to the file. A bare
`throw` with no active exception then ends the process. So a fatal run can
leave a partial file behind; see "Left out".

## Model

| member | source | states |
|---|---|---|
| `Records.ToU64` | pyBARTTree2JudithTTree.cxx:172-173 | The `(ULong64_t)` cast of a signed 64-bit value keeps every non-negative value, sends negatives to at least 2^63, and is congruent to its argument modulo 2^64 |
| `Records.ToI32` | pyBARTTree2JudithTTree.cxx:245 | Narrowing the 64-bit `event_counter` to the `int` return type (declared at line 14) keeps every value of the 32-bit range. It makes counts from 2^31 to 2^32 − 1 negative, and the result is always congruent to the count modulo 2^32 |
| `Records.ToU64Injective` | pyBARTTree2JudithTTree.cxx:190 | Two event numbers cast to the same frame number only if they are equal, so the mismatch check compares event numbers exactly |
| `HitValidator.Classify` | pyBARTTree2JudithTTree.cxx:205-227 | A row is skipped iff it is a sentinel and the event has no hit yet. Otherwise it is rejected for the hit cap iff the event holds `MAX_HITS` hits (this check comes before the range check). Otherwise it is rejected as invalid iff it is off the detector. It is accepted iff the cap is not reached and it is on the detector. An accepted hit has pixel column − 1 in [0,79] and row − 1 in [0,335], value = tot, timing = relative BCID, no cluster and zero positions |
| `HitValidator.ToHit` | pyBARTTree2JudithTTree.cxx:218-225 | Definition, no contract of its own: the Judith hit of an accepted row, with column − 1 and row − 1 as pixel coordinates, tot as value, relative BCID as timing, cluster −1 and zero positions. `HitValidator.Classify` states these fields for every accepted row |
| `Segmenter.SelectMode` | pyBARTTree2JudithTTree.cxx:29-42 | Author mode is chosen iff no Event table exists, and verifier mode iff one exists and is non-empty (the emptiness check is at lines 135-139). The three other cases each give their own error |
| `Segmenter.Initial` | pyBARTTree2JudithTTree.cxx:53-55 | Definition: the state before the first row, with no event opened, current number −1, no hit (`judith_n_hits` = 0 at line 76) and nothing written. `Converter.EventLoop.constructor` is proved to start in it, and `Segmenter.InitialInv` shows it meets the invariant |
| `Segmenter.Authored` | pyBARTTree2JudithTTree.cxx:170-181 | Definition: the Event record for an event's first row. Its time stamp is the trigger time stamp, its frame number the cast event number, trigger offset and info are 0, and `invalid` is bit 0x10 of the event status. `Segmenter.AuthoredAll` and `Stream.AuthorModeEvents` state these fields for every written record |
| `Segmenter.Opened` | pyBARTTree2JudithTTree.cxx:168-202 | Definition: the state after opening an event at row `r`. The row becomes the current number and joins the opened events; the open group is written only if an event was already open; the new group is empty; author mode appends `Authored(r)`. `Segmenter.OpenedInv` proves it keeps the invariant, and `Converter.EventLoop.Open` is proved to reach it |
| `Segmenter.OpenEvent` | pyBARTTree2JudithTTree.cxx:156-202 | Definition: at a change of event number, stop when the limit is reached (lines 158-167); in verifier mode fail when the table's record at `event_counter` has another frame number (lines 189-193); otherwise open the event. `Segmenter.OpenEventInv`, `Stream.RunRowsHalt` and `Stream.MismatchIsFatal` state its promises |
| `Segmenter.Absorb` | pyBARTTree2JudithTTree.cxx:205-227 | Definition: apply `HitValidator.Classify` to the row. A skip keeps the state, a rejection is fatal, and an accepted hit is appended to the open group. `Segmenter.AbsorbInv`, `Stream.AbsorbHits`, `Wellformed.AbsorbOk` and `Wellformed.AbsorbGood` state its promises |
| `Segmenter.StepRow` | pyBARTTree2JudithTTree.cxx:155-227 | Definition: one pass of the row loop, which opens an event when the number changes and then checks the row as a hit. `Segmenter.StepRowInv` and `Stream.StepRowHeads` state its promises, and `Converter.EventLoop.Step` is proved equal to it |
| `Segmenter.RunRows` | pyBARTTree2JudithTTree.cxx:154-228 | Definition: the row loop over one chunk, which runs `StepRow` row by row and stops at the first stop or failure. `Segmenter.RunRowsInv`, `Segmenter.RunRowsErrors`, `Stream.RunRowsNextHeads`, `Stream.RunRowsNextGroups`, `Stream.RunRowsAppend` and `Wellformed.RunRowsOk` state its promises, and `Converter.EventLoop.Chunk` is proved equal to it |
| `Segmenter.RunChunks` | pyBARTTree2JudithTTree.cxx:143-233 | Definition: the chunk loop, which fails on a chunk over `BUF_SIZE` (lines 150-153), runs `RunRows` over each chunk from the state the previous one left, and ends the stream on a stop (lines 230-232). `Stream.ChunkingInvisible`, `Stream.LaterChunksIgnored`, `Segmenter.RunChunksInv` and `Segmenter.RunChunksErrors` state its promises, and `Converter.EventLoop.Chunks` is proved equal to it |
| `Segmenter.Finish` | pyBARTTree2JudithTTree.cxx:234-239 | Definition: the end of the stream. The open group is always written; in verifier mode with fewer opened events than records the result is `MissingEvents` with the difference; otherwise the records, the groups and the event count. `Converter.EventLoop.Close` is proved equal to it, and `Stream.MissingEventsShortfall` and `Wellformed.MissingEventsExact` state the missing-events case |
| `Segmenter.Convert` | pyBARTTree2JudithTTree.cxx:29-245 | Definition: the whole conversion, made of the mode checks (`SelectMode`), the chunk loop from `Initial()` and `Finish`. `Segmenter.ConvertOutcome` and `Stream.Conversion` state its promises, and `Converter.PyBarToJudith` is proved equal to it |
| `Segmenter.AuthoredAll` | pyBARTTree2JudithTTree.cxx:170-182 | One Event record per opened event, in order, each built from the event's first row |
| `Segmenter.OpenedInv` | pyBARTTree2JudithTTree.cxx:168-202 | Opening an event below the limit keeps the invariant. The previous group is written only when an event was already open. In author mode the new record is appended. The hit count restarts at 0 and the event count grows by one |
| `Segmenter.StepRowInv` | pyBARTTree2JudithTTree.cxx:155-227 | One row of the loop that is not fatal keeps the invariant: groups within `MAX_HITS` of valid hits, one written group per opened event but the last, the event limit respected, records authored or matched position by position, consecutive events distinct |
| `Segmenter.RunRowsInv` | pyBARTTree2JudithTTree.cxx:154-228 | The row loop over one chunk keeps the invariant unless it fails |
| `Segmenter.RunChunksInv` | pyBARTTree2JudithTTree.cxx:143-233 | The chunk loop keeps the invariant unless it fails |
| `Segmenter.RunRowsErrors` | pyBARTTree2JudithTTree.cxx:154-228 | The row loop fails only for the hit cap, an invalid hit or an event-number mismatch |
| `Segmenter.RunChunksErrors` | pyBARTTree2JudithTTree.cxx:143-233 | The chunk loop fails only for those reasons or an oversized chunk, never for missing events |
| `Segmenter.ConvertOutcome` | pyBARTTree2JudithTTree.cxx:143-245 | The mode errors come first. A success has one hit group per opened event (one group when none was opened), each within `MAX_HITS` and of valid hits. In author mode the count equals the number of written records, is capped by a positive `max_events`, and every record has trigger offset and info 0. In verifier mode no Event record is written and the count is the table's size |
| `Segmenter.Returned` | pyBARTTree2JudithTTree.cxx:245 | The function returns a value only on success. That value is the event count when the count is below 2^31, and otherwise a value congruent to the count modulo 2^32 |
| `Segmenter.ReturnedExact` | pyBARTTree2JudithTTree.cxx:245 | The count comes back unchanged when author mode's `max_events` cap or verifier mode's table size is positive and below 2^31 |
| `Converter.EventLoop.constructor` | pyBARTTree2JudithTTree.cxx:54-56 | The loop starts with event counter 0, current event number -1, no hit and the limit not reached: the specification's initial state |
| `Converter.EventLoop.Open` | pyBARTTree2JudithTTree.cxx:168-202 | The new-event branch past the limit checks sets the current number, then appends the record (author mode) or checks the table's record at `event_counter` (verifier mode). It writes the previous group unless the event counter is 0, increments the counter and resets the hit count. Its outcome is exactly `Segmenter.OpenEvent`'s |
| `Converter.EventLoop.AddHit` | pyBARTTree2JudithTTree.cxx:205-227 | The hit branch skips, refuses or writes the hit in place at index `nHits` and increments `nHits`; the new contents of the slots up to `nHits` are exactly `Segmenter.Absorb`'s |
| `Converter.EventLoop.Step` | pyBARTTree2JudithTTree.cxx:156-203 | One pass of the row loop. At a new event it stops (setting `reached_max_events`) when author mode has reached a positive `max_events` or verifier mode has used up the table. Otherwise it opens the event, then checks the hit. Its outcome is exactly `Segmenter.StepRow`'s |
| `Converter.EventLoop.Chunk` | pyBARTTree2JudithTTree.cxx:154-228 | The row loop over one chunk; it breaks on the limit and its outcome is exactly `Segmenter.RunRows`' |
| `Converter.EventLoop.Chunks` | pyBARTTree2JudithTTree.cxx:143-233 | The chunk loop aborts on a chunk over `BUF_SIZE` and breaks out when the row loop has reached the limit; its outcome is exactly `Segmenter.RunChunks`' |
| `Converter.EventLoop.Close` | pyBARTTree2JudithTTree.cxx:234-239 | The end of the stream writes the last event's group unconditionally. In verifier mode it fails, with the shortfall, when fewer events were opened than the table has records. Its outcome is exactly `Segmenter.Finish`'s |
| `Converter.PyBarToJudith` | pyBARTTree2JudithTTree.cxx:143-245 | The whole loop is exactly the specification `Segmenter.Convert`. That covers the mode checks, the chunk-size check, the break out of the chunk loop at the limit, writing the last group unconditionally and the missing-events check. The returned value is `event_counter` narrowed to `int` (`Segmenter.Returned`), and a fatal run returns nothing |
| `Stream.EventRows` | pyBARTTree2JudithTTree.cxx:156 | Cutting the stream at changes of the event number gives one run more than there are run heads (the leading run continues the number in force) |
| `Stream.EventRowsPartition` | pyBARTTree2JudithTTree.cxx:156 | The runs partition the stream in order. The leading run keeps the number in force, and every later run starts at its head and keeps that head's number |
| `Stream.DropSentinels` | pyBARTTree2JudithTTree.cxx:205-206 | Dropping the leading sentinel rows of a run leaves a run that starts with a non-sentinel row or is empty |
| `Stream.DropSentinelsSuffix` | pyBARTTree2JudithTTree.cxx:205-206 | What is left is a suffix of the run, and every row dropped before it is a sentinel. With `Stream.DropSentinels` this means exactly the longest all-sentinel prefix is dropped |
| `Stream.AbsorbHits` | pyBARTTree2JudithTTree.cxx:205-226 | A row the hit check lets through grows the group exactly as `GroupHits` of the event's rows prescribes. It changes neither the opened events nor the written groups, and it is a sentinel or on the detector |
| `Stream.StepRowHeads` | pyBARTTree2JudithTTree.cxx:156-203 | A row the loop gets past opens an event exactly when its number differs from the current one, and it becomes the current number |
| `Stream.RunRowsNextHeads` | pyBARTTree2JudithTTree.cxx:154-203 | A row loop that runs to its end opens events exactly at the run heads and ends on the last row's number, and every row was a sentinel or on the detector |
| `Stream.WrittenContinue` | pyBARTTree2JudithTTree.cxx:205-226 | A row of the current event moves from the runs still to come into the open group without changing what ends up written |
| `Stream.WrittenOpen` | pyBARTTree2JudithTTree.cxx:196-202 | A row that opens an event closes the open group (written only if an event was open) and starts the new run's group, without changing what ends up written |
| `Stream.RunRowsNextGroups` | pyBARTTree2JudithTTree.cxx:196-235 | A row loop that runs to its end leaves written, with the open group last, exactly the `GroupHits` of the runs |
| `Stream.RunRowsHalt` | pyBARTTree2JudithTTree.cxx:156-167 | A row loop that stops at the limit stops at a row that would open one event more, with the limit reached, in the state the rows before it reach |
| `Stream.RunRowsAppend` | pyBARTTree2JudithTTree.cxx:154-228 | The row loop over a concatenation is the loop over the first part continued by the loop over the second |
| `Stream.ChunkingInvisible` | pyBARTTree2JudithTTree.cxx:143-154 | When no chunk is too large, the chunk loop does exactly what the row loop does on all rows concatenated: the state carries across chunk boundaries |
| `Stream.LaterChunksIgnored` | pyBARTTree2JudithTTree.cxx:229-232 | Once the chunk loop stops or fails, later chunks are never looked at |
| `Stream.RunChunksConsumed` | pyBARTTree2JudithTTree.cxx:143-233 | A chunk loop that does not fail has run the row loop over a prefix of all rows. That is every row if it ran to the end; otherwise the prefix ends just before the row that would open one event past the limit |
| `Stream.FinalState` | pyBARTTree2JudithTTree.cxx:143-235 | After the chunk loop, three things hold of the consumed rows. The opened events are their run heads. The written groups plus the last one are their `GroupHits`. Every one of them is a sentinel or on the detector |
| `Stream.Conversion` | pyBARTTree2JudithTTree.cxx:143-245 | A successful conversion returns the number of runs of the consumed rows and writes exactly their hit groups. Author mode writes one record per run from its first row; verifier mode matched each run against the record at its position. Rows are left over only at the limit |
| `Stream.AuthorModeEvents` | pyBARTTree2JudithTTree.cxx:158-182 | Author mode returns the number of runs of the whole stream, capped by a positive `max_events`. It writes that many records, the k-th with the frame number and trigger time stamp of the k-th run's first row, trigger offset and info 0, and `invalid` iff bit 0x10 of that row's event status is set |
| `Stream.VerifierModeEvents` | pyBARTTree2JudithTTree.cxx:163-193 | A successful verifier run returns the table's size. The stream has at least that many runs, and the k-th record's frame number is the k-th run's event number |
| `Stream.MissingEventsShortfall` | pyBARTTree2JudithTTree.cxx:237-239 | "Missing events" means the stream has fewer runs than the table has records. The shortfall is the difference, and every run matched its record |
| `Stream.MismatchIsFatal` | pyBARTTree2JudithTTree.cxx:189-193 | If the k-th record and the k-th run disagree for a k both have, the conversion fails, and not for missing events |
| `Stream.EmptyStream` | pyBARTTree2JudithTTree.cxx:234-245 | For an empty stream, author mode returns 0 with no record and one empty hit group, and verifier mode misses every record |
| `Wellformed.AbsorbOk` | pyBARTTree2JudithTTree.cxx:205-215 | A row whose run is good (leading sentinels, then at most `MAX_HITS` rows all on the detector) passes the hit check |
| `Wellformed.AbsorbGood` | pyBARTTree2JudithTTree.cxx:205-215 | A row that passes the hit check keeps its run good |
| `Wellformed.OpenOk` | pyBARTTree2JudithTTree.cxx:156-203 | A row opening an event below the limit, where the table agrees, opens it and passes the hit check |
| `Wellformed.RunRowsOk` | pyBARTTree2JudithTTree.cxx:154-228 | The row loop over good runs that the table agrees with does not fail |
| `Wellformed.RunRowsGood` | pyBARTTree2JudithTTree.cxx:154-228 | A row loop that runs to its end saw only good runs |
| `Wellformed.RunChunksSizes` | pyBARTTree2JudithTTree.cxx:150-153 | A chunk loop that runs to its end saw no chunk over `BUF_SIZE` |
| `Wellformed.RunRowsUncapped` | pyBARTTree2JudithTTree.cxx:158-161 | Author mode without a positive `max_events` never stops early |
| `Wellformed.ConvertSucceeds` | pyBARTTree2JudithTTree.cxx:143-245 | The conversion succeeds when these hold: the mode checks pass, no chunk is over `BUF_SIZE`, every run is good, and in verifier mode the stream has at least as many runs as the table has records and agrees with each of them |
| `Wellformed.MissingEventsExact` | pyBARTTree2JudithTTree.cxx:143-245 | This is the converse of `Stream.MissingEventsShortfall`. Take a stream of good runs, in chunks within `BUF_SIZE`, that agrees with the table but has fewer runs than the table has records. It fails for missing events, and the shortfall is exactly the difference |
| `Wellformed.AuthorModeSucceedsIff` | pyBARTTree2JudithTTree.cxx:143-245 | Author mode without a cap succeeds if and only if every chunk fits `BUF_SIZE` and every run of the stream is good |

## Left out

- ROOT file and table handling is not modelled: opening the files, creating or looking up the trees, setting branch addresses, `Write`/`Close` (lines 23-27, 51, 94-134, 242-243). The input is a sequence of chunks, the Event table an optional sequence of records, and the output a value.
- The plane directory check (lines 43-50) is not modelled. It is a property of the output file.
- The console messages are not modelled. Each fatal `throw` becomes an error value naming its kind. Only "missing events" carries a number, the shortfall; no error carries the chunk or row index of the message.
- The row fields the converter reads but never writes (trigger number, LVL1ID, BCID, TDC, TDC time stamp, trigger status, service record) are not part of `Row`.
- The three `Double_t` positions are always `0.0` and are modelled as the integer 0.
- The chunk-size check (line 150) is modelled as if it ran before the chunk is read, so an oversized chunk ends the run cleanly with `ChunkTooLarge`. In the source, `GetEntry` at line 145 has already copied the chunk's `n_entries` elements into the `BUF_SIZE` arrays of lines 60-73, so an oversized chunk overflows them first. That is undefined behaviour and can overwrite the size field or the loop counters before the `throw` at line 152 runs. `Segmenter.RunChunks` and `Converter.EventLoop.Chunks` model the intended check, not the overflow.
- A chunk's declared size `n_entries` is modelled as the length of the chunk. A chunk whose declared size disagrees with the rows stored in it is not representable.
- The `GetEntry(event_counter) == 0` branch (lines 184-188) is not modelled. The check at line 163 guarantees the record exists, so the branch can happen only on a storage read failure, which is I/O.
- The Judith hit arrays are parallel `Int_t`/`Double_t` arrays. They are modelled as one array of `Hit` records, so each hit index holds one record.
- `Int_t` casts of the hit fields cannot overflow: the values are at most 336. They are modelled as unbounded integers.
- A sentinel row skipped at the start of an event is skipped whatever its other coordinate is. So a row with column 81 and row 0 (or column 0 and row 400) is not fatal when the event has no hit yet. The model follows the code: a column over 80 or a row over 336 is fatal only for a row that is not skipped.
- `Wellformed.ConvertSucceeds`: the conditions are sufficient, not necessary. They speak of the whole stream, while a capped run never looks at the rows after the limit. The exact characterisation is stated only for author mode with no cap, in `Wellformed.AuthorModeSucceedsIff`.
- A fatal run is modelled as an error with no output. The partial or truncated output file it can leave is not modelled: the file is opened before the loop (line 27), `Fill()` can flush during the loop (lines 182, 197, 235), and the bare `throw` ends the process without `Write`/`Close`.
- `Records.ToI32` reads the narrowing of the 64-bit count to `int` as reduction modulo 2^32. Before C++20 that conversion is implementation-defined, and this is the reading of the usual compilers. The 64-bit `event_counter` itself can never overflow, because it is bounded by the number of rows.
- The file at hand has no time-stamp drift or wrap-around check, so none is modelled.
