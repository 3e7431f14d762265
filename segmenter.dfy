/** The event segmenter as a pure state machine over the row stream: it
    opens an event whenever the event number changes, in author mode writes
    one Event record per opened event, in verifier mode checks each opened
    event against the existing Event table, and collects each event's hits
    into one hit group. */
module Segmenter {
  import opened Records
  import opened HitValidator

  /** Author mode writes the Event table (`fill_event`, with the optional
      `max_events` cap, 0 meaning none); verifier mode checks against the
      records of an existing one. */
  datatype Mode = Author(maxEvents: i64) | Verifier(records: seq<EventRecord>)

  /** The state carried from row to row and from chunk to chunk.
      `heads` holds the first row of every opened event, in order: its
      length is `event_counter`. `hits` is the current event's hit group,
      `groups` the hit groups written so far, `events` the authored records. */
  datatype State = State(
    current: int,
    heads: seq<Row>,
    hits: seq<Hit>,
    groups: seq<seq<Hit>>,
    events: seq<EventRecord>)

  /** What one row, one chunk or a whole stream leads to: carry on, stop
      because the event limit is reached, or abort. */
  datatype Step = Next(st: State) | Halt(st: State) | Fatal(error: Error)

  /** What a successful conversion produces: the authored records (empty in
      verifier mode), the hit groups, and the returned event count. */
  datatype Output = Output(events: seq<EventRecord>, groups: seq<seq<Hit>>, count: nat)

  /** The state before the first row: no event, current number -1. */
  function Initial(): (st: State)
  {
    State(-1, [], [], [], [])
  }

  /** The mode preconditions, checked before any row is read: author mode
      needs an absent Event table, verifier mode a present, non-empty one. */
  function SelectMode(fillEvent: bool, maxEvents: i64, eventTable: Option<seq<EventRecord>>): (r: Result<Mode>)
    ensures r.Ok? <==> (if fillEvent then eventTable.None? else eventTable.Some? && eventTable.value != [])
    ensures r.Ok? && fillEvent ==> r.value == Author(maxEvents)
    ensures r.Ok? && !fillEvent ==> r.value == Verifier(eventTable.value)
    ensures fillEvent && eventTable.Some? ==> r == Err(EventTableExists)
    ensures !fillEvent && eventTable.None? ==> r == Err(EventTableMissing)
    ensures !fillEvent && eventTable == Some([]) ==> r == Err(EventTableEmpty)
  {
    if fillEvent then
      if eventTable.Some? then Err(EventTableExists) else Ok(Author(maxEvents))
    else if eventTable.None? then Err(EventTableMissing)
    else if eventTable.value == [] then Err(EventTableEmpty)
    else Ok(Verifier(eventTable.value))
  }

  /** True iff `n` opened events leave no room for another one. */
  predicate LimitReached(mode: Mode, n: nat)
  {
    match mode
    case Author(m) => m > 0 && n >= m
    case Verifier(records) => n >= |records|
  }

  /** The number of opened events never passes the mode's limit. */
  predicate WithinLimit(mode: Mode, n: nat)
  {
    match mode
    case Author(m) => m > 0 ==> n <= m
    case Verifier(records) => n <= |records|
  }

  /** The Event record author mode writes for an event whose first row is `r`. */
  function Authored(r: Row): (rec: EventRecord)
  {
    EventRecord(r.triggerTimeStamp, ToU64(r.eventNumber), 0, 0, HasUnknownWord(r.eventStatus))
  }

  /** The Event records for a sequence of event heads, in order. */
  function AuthoredAll(heads: seq<Row>): (rs: seq<EventRecord>)
    ensures |rs| == |heads|
    ensures forall k :: 0 <= k < |heads| ==> rs[k] == Authored(heads[k])
  {
    if heads == [] then [] else AuthoredAll(heads[..|heads| - 1]) + [Authored(heads[|heads| - 1])]
  }

  /** The last element of a non-empty sequence. */
  function Last<T>(s: seq<T>): (x: T)
    requires s != []
  {
    s[|s| - 1]
  }

  /** The state invariant of the segmenter. The current group and every
      written group respect MAX_HITS and hold only valid hits; one group is
      written per opened event except the last (still open); the limit is
      respected; author mode has written exactly one record per opened
      event, verifier mode has checked each opened event against the
      record at the same position; consecutive events differ in number. */
  ghost predicate Inv(st: State, mode: Mode)
  {
    ValidGroup(st.hits)
    && (forall g <- st.groups :: ValidGroup(g))
    && |st.groups| == (if st.heads == [] then 0 else |st.heads| - 1)
    && WithinLimit(mode, |st.heads|)
    && (mode.Author? ==> st.events == AuthoredAll(st.heads))
    && (mode.Verifier? ==>
          (st.events == []
           && forall k :: 0 <= k < |st.heads| ==>
                mode.records[k].frameNumber == ToU64(st.heads[k].eventNumber)))
    && (st.heads == [] ==> st.current == -1)
    && (st.heads != [] ==> st.current == Last(st.heads).eventNumber)
    && (forall k :: 0 < k < |st.heads| ==> st.heads[k - 1].eventNumber != st.heads[k].eventNumber)
  }

  lemma InitialInv(mode: Mode)
    ensures Inv(Initial(), mode)
  {
  }

  /** The state right after opening the event whose first row is `r`:
      the previous group is written unless no event was open, the new
      group is empty, and author mode has written the event's record. */
  function Opened(st: State, mode: Mode, r: Row): (s: State)
  {
    State(r.eventNumber, st.heads + [r], [],
          if st.heads != [] then st.groups + [st.hits] else st.groups,
          if mode.Author? then st.events + [Authored(r)] else st.events)
  }

  /** Opening an event below the limit keeps the invariant, provided the
      verifier-mode record at the new position carries the event's number. */
  lemma OpenedInv(st: State, mode: Mode, r: Row)
    requires Inv(st, mode) && r.eventNumber != st.current
    requires !LimitReached(mode, |st.heads|)
    requires mode.Verifier? ==> mode.records[|st.heads|].frameNumber == ToU64(r.eventNumber)
    ensures Inv(Opened(st, mode, r), mode)
  {
    var s := Opened(st, mode, r);
    GroupsAppend(st.groups, st.hits);
    if mode.Author? {
      assert s.heads[..|s.heads| - 1] == st.heads;
    } else {
      assert forall k :: 0 <= k < |st.heads| ==> s.heads[k] == st.heads[k];
    }
    DistinctAppend(st.heads, r);
  }

  /** Writing a valid group keeps every written group valid. */
  lemma GroupsAppend(groups: seq<seq<Hit>>, hits: seq<Hit>)
    requires ValidGroup(hits) && forall g <- groups :: ValidGroup(g)
    ensures forall g <- groups + [hits] :: ValidGroup(g)
  {
  }

  /** Appending a row whose number differs from the last one keeps
      consecutive event numbers distinct. */
  lemma DistinctAppend(heads: seq<Row>, r: Row)
    requires heads != [] ==> Last(heads).eventNumber != r.eventNumber
    requires forall k :: 0 < k < |heads| ==> heads[k - 1].eventNumber != heads[k].eventNumber
    ensures var h := heads + [r];
            forall k :: 0 < k < |h| ==> h[k - 1].eventNumber != h[k].eventNumber
  {
    var h := heads + [r];
    forall k | 0 < k < |h|
      ensures h[k - 1].eventNumber != h[k].eventNumber
    {
      if k == |heads| {
        assert h[k - 1] == Last(heads);
      } else {
        assert h[k - 1] == heads[k - 1] && h[k] == heads[k];
      }
    }
  }

  /** Opens the event whose first row is `r` (its number differs from the
      current one): stop if the limit is reached; otherwise write or check
      the Event record, write the previous hit group unless this is the
      first event, and start an empty group. */
  function OpenEvent(st: State, mode: Mode, r: Row): (step: Step)
  {
    if LimitReached(mode, |st.heads|) then
      Halt(st)
    else if mode.Verifier? && mode.records[|st.heads|].frameNumber != ToU64(r.eventNumber) then
      Fatal(EventNumberMismatch)
    else
      Next(Opened(st, mode, r))
  }

  /** Runs the hit check of `r` against the current group. */
  function Absorb(st: State, r: Row): (step: Step)
  {
    match Classify(r, |st.hits|)
    case Skip => Next(st)
    case Reject(e) => Fatal(e)
    case Accept(h) => Next(st.(hits := st.hits + [h]))
  }

  /** One row of the loop: open a new event when the number changes, then
      check the row as a hit of the (possibly new) current event. */
  function StepRow(st: State, mode: Mode, r: Row): (step: Step)
  {
    if r.eventNumber != st.current then
      match OpenEvent(st, mode, r)
      case Next(opening) => Absorb(opening, r)
      case other => other
    else
      Absorb(st, r)
  }

  /** The row loop over `rows`, from state `st`. */
  function RunRows(st: State, mode: Mode, rows: seq<Row>): (step: Step)
    decreases |rows|
  {
    if rows == [] then
      Next(st)
    else
      match StepRow(st, mode, rows[0])
      case Next(next) => RunRows(next, mode, rows[1..])
      case other => other
  }

  /** The chunk loop: a chunk over BUF_SIZE rows aborts, a stop in one
      chunk ends the whole stream. The size check is taken to come before
      the chunk is read into the fixed-size buffers. */
  function RunChunks(st: State, mode: Mode, chunks: seq<seq<Row>>): (step: Step)
    decreases |chunks|
  {
    if chunks == [] then
      Next(st)
    else if |chunks[0]| > BUF_SIZE then
      Fatal(ChunkTooLarge)
    else
      match RunRows(st, mode, chunks[0])
      case Next(next) => RunChunks(next, mode, chunks[1..])
      case other => other
  }

  /** What is left once the chunks are consumed: write the last hit group
      unconditionally, and in verifier mode insist that every record of
      the Event table has been matched. */
  function Finish(st: State, mode: Mode): (r: Result<Output>)
  {
    if mode.Verifier? && |st.heads| < |mode.records| then
      Err(MissingEvents(|mode.records| - |st.heads|))
    else
      Ok(Output(st.events, st.groups + [st.hits], |st.heads|))
  }

  /** The whole conversion: mode preconditions, the chunk loop from the
      initial state, and the end-of-stream step. */
  function Convert(chunks: seq<seq<Row>>, fillEvent: bool, maxEvents: i64,
                   eventTable: Option<seq<EventRecord>>): (r: Result<Output>)
  {
    match SelectMode(fillEvent, maxEvents, eventTable)
    case Err(e) => Err(e)
    case Ok(mode) =>
      match RunChunks(Initial(), mode, chunks)
      case Fatal(e) => Err(e)
      case Next(st) => Finish(st, mode)
      case Halt(st) => Finish(st, mode)
  }

  /** The value the converter returns: after a successful run the event
      count, narrowed to the C++ `int` return type; a fatal run returns
      nothing. Counts below 2^31 come back unchanged, larger ones only
      modulo 2^32. */
  function Returned(r: Result<Output>): (v: Option<i32>)
    ensures v.Some? <==> r.Ok?
    ensures r.Ok? && r.value.count < 0x8000_0000 ==> v == Some(r.value.count)
    ensures r.Ok? ==> (v.value - r.value.count) % 0x1_0000_0000 == 0
  {
    if r.Ok? then Some(ToI32(r.value.count)) else None
  }

  // ---------------------------------------------------------------------
  // The invariant is kept.

  /** Opening an event keeps the invariant. */
  lemma OpenEventInv(st: State, mode: Mode, r: Row)
    requires Inv(st, mode) && r.eventNumber != st.current
    ensures !OpenEvent(st, mode, r).Fatal? ==> Inv(OpenEvent(st, mode, r).st, mode)
  {
    if OpenEvent(st, mode, r).Next? {
      OpenedInv(st, mode, r);
    }
  }

  /** The hit check keeps the invariant: an accepted hit is valid and
      fits below MAX_HITS. */
  lemma AbsorbInv(st: State, mode: Mode, r: Row)
    requires Inv(st, mode)
    ensures Absorb(st, r).Next? ==> Inv(Absorb(st, r).st, mode)
  {
  }

  /** One row keeps the invariant unless it is fatal. */
  lemma StepRowInv(st: State, mode: Mode, r: Row)
    requires Inv(st, mode)
    ensures !StepRow(st, mode, r).Fatal? ==> Inv(StepRow(st, mode, r).st, mode)
  {
    if r.eventNumber != st.current {
      OpenEventInv(st, mode, r);
      if OpenEvent(st, mode, r).Next? {
        AbsorbInv(OpenEvent(st, mode, r).st, mode, r);
      }
    } else {
      AbsorbInv(st, mode, r);
    }
  }

  /** The row loop keeps the invariant unless it fails. */
  lemma {:induction false} RunRowsInv(st: State, mode: Mode, rows: seq<Row>)
    requires Inv(st, mode)
    ensures !RunRows(st, mode, rows).Fatal? ==> Inv(RunRows(st, mode, rows).st, mode)
    decreases |rows|
  {
    if rows != [] {
      StepRowInv(st, mode, rows[0]);
      if StepRow(st, mode, rows[0]).Next? {
        RunRowsInv(StepRow(st, mode, rows[0]).st, mode, rows[1..]);
      }
    }
  }

  /** The chunk loop keeps the invariant unless it fails. */
  lemma {:induction false} RunChunksInv(st: State, mode: Mode, chunks: seq<seq<Row>>)
    requires Inv(st, mode)
    ensures !RunChunks(st, mode, chunks).Fatal? ==> Inv(RunChunks(st, mode, chunks).st, mode)
    decreases |chunks|
  {
    if chunks != [] && |chunks[0]| <= BUF_SIZE {
      RunRowsInv(st, mode, chunks[0]);
      if RunRows(st, mode, chunks[0]).Next? {
        RunChunksInv(RunRows(st, mode, chunks[0]).st, mode, chunks[1..]);
      }
    }
  }

  /** The row loop fails only on a bad hit or an event-number mismatch. */
  lemma {:induction false} RunRowsErrors(st: State, mode: Mode, rows: seq<Row>)
    ensures RunRows(st, mode, rows).Fatal? ==>
              RunRows(st, mode, rows).error in {MaxHitsReached, InvalidHit, EventNumberMismatch}
    decreases |rows|
  {
    if rows != [] && StepRow(st, mode, rows[0]).Next? {
      RunRowsErrors(StepRow(st, mode, rows[0]).st, mode, rows[1..]);
    }
  }

  /** The chunk loop fails only for those reasons or an oversized chunk,
      never for missing events. */
  lemma {:induction false} RunChunksErrors(st: State, mode: Mode, chunks: seq<seq<Row>>)
    ensures RunChunks(st, mode, chunks).Fatal? ==>
              RunChunks(st, mode, chunks).error in {ChunkTooLarge, MaxHitsReached, InvalidHit, EventNumberMismatch}
    decreases |chunks|
  {
    if chunks != [] && |chunks[0]| <= BUF_SIZE {
      RunRowsErrors(st, mode, chunks[0]);
      if RunRows(st, mode, chunks[0]).Next? {
        RunChunksErrors(RunRows(st, mode, chunks[0]).st, mode, chunks[1..]);
      }
    }
  }

  /** What the whole conversion promises: the precondition errors; one hit
      group per event (a single group when none was opened), each within
      MAX_HITS and holding only valid hits; the returned count is bounded
      by `max_events` in author mode, where it is also the number of
      records written, each with zero trigger offset and info; in verifier
      mode no Event record is written and the count is the Event table's size. */
  lemma ConvertOutcome(chunks: seq<seq<Row>>, fillEvent: bool, maxEvents: i64,
                       eventTable: Option<seq<EventRecord>>)
    ensures var r := Convert(chunks, fillEvent, maxEvents, eventTable);
            (fillEvent && eventTable.Some? ==> r == Err(EventTableExists))
            && (!fillEvent && eventTable.None? ==> r == Err(EventTableMissing))
            && (!fillEvent && eventTable == Some([]) ==> r == Err(EventTableEmpty))
            && (r.Ok? ==> |r.value.groups| == (if r.value.count == 0 then 1 else r.value.count))
            && (r.Ok? ==> forall g <- r.value.groups :: ValidGroup(g))
            && (r.Ok? && fillEvent ==>
                  |r.value.events| == r.value.count && (maxEvents > 0 ==> r.value.count <= maxEvents)
                  && forall e <- r.value.events :: e.triggerOffset == 0 && e.triggerInfo == 0)
            && (r.Ok? && !fillEvent ==> r.value.events == [] && r.value.count == |eventTable.value|)
  {
    var sel := SelectMode(fillEvent, maxEvents, eventTable);
    if sel.Ok? {
      var mode := sel.value;
      InitialInv(mode);
      RunChunksInv(Initial(), mode, chunks);
      var run := RunChunks(Initial(), mode, chunks);
      if !run.Fatal? {
        var st := run.st;
        var groups := st.groups + [st.hits];
        assert forall g <- groups :: g in st.groups || g == st.hits;
      }
    }
  }

  /** The narrowing of the returned count is harmless whenever the limit is
      below 2^31: a `max_events` cap in author mode, the Event table's size
      in verifier mode. */
  lemma ReturnedExact(chunks: seq<seq<Row>>, fillEvent: bool, maxEvents: i64,
                      eventTable: Option<seq<EventRecord>>)
    requires fillEvent ==> 0 < maxEvents < 0x8000_0000
    requires !fillEvent && eventTable.Some? ==> |eventTable.value| < 0x8000_0000
    ensures var r := Convert(chunks, fillEvent, maxEvents, eventTable);
            r.Ok? ==> Returned(r) == Some(r.value.count)
  {
    ConvertOutcome(chunks, fillEvent, maxEvents, eventTable);
  }
}
