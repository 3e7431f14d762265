/** The conversion loop of `pyBARTTree2JudithTTree` as the source runs it:
    nested loops over chunks and rows with `break`s, counters updated step
    by step, the current hit group written in place into a fixed-capacity
    array, and `Fill()` of the Event and Hits tables as appends. The loop's
    variables live in one object so that each loop level is verified on
    its own. */
module Converter {
  import opened Records
  import opened HitValidator
  import opened Segmenter

  /** The variables of the conversion loop. `slots` plays the part of the
      Judith hit arrays (one element per hit index) and `nHits` that of
      `judith_n_hits`; `heads` records, for the proof only, the first row
      of every opened event. */
  class EventLoop {
    const fillEvent: bool
    const maxEvents: i64
    const records: seq<EventRecord>
    ghost const mode: Mode
    const slots: array<Hit>
    var currEventNumber: int
    var eventCounter: int
    var nHits: int
    var reachedMaxEvents: bool
    var events: seq<EventRecord>
    var groups: seq<seq<Hit>>
    ghost var heads: seq<Row>

    ghost predicate Valid()
      reads this, slots
    {
      slots.Length == MAX_HITS && 0 <= nHits <= MAX_HITS && eventCounter == |heads|
      && mode == (if fillEvent then Author(maxEvents) else Verifier(records))
    }

    /** The loop variables read as a state of the segmenter. */
    ghost function Snapshot(): (st: State)
      reads this, slots
      requires 0 <= nHits <= slots.Length
    {
      State(currEventNumber, heads, slots[..nHits], groups, events)
    }

    /** The variables before the first chunk: event counter 0, current
        event number -1, no hits. */
    constructor (fillEvent: bool, maxEvents: i64, records: seq<EventRecord>)
      ensures Valid() && fresh(slots) && !reachedMaxEvents
      ensures this.fillEvent == fillEvent && this.maxEvents == maxEvents && this.records == records
      ensures mode == (if fillEvent then Author(maxEvents) else Verifier(records))
      ensures Snapshot() == Initial()
    {
      this.fillEvent := fillEvent;
      this.maxEvents := maxEvents;
      this.records := records;
      mode := if fillEvent then Author(maxEvents) else Verifier(records);
      slots := new Hit[MAX_HITS];
      currEventNumber := -1;
      eventCounter := 0;
      nHits := 0;
      reachedMaxEvents := false;
      events := [];
      groups := [];
      heads := [];
    }

    /** The new-event branch of the row loop, past the limit checks:
        write or check the Event record, write the previous hit group
        unless this is the first event, and reset the hit count. */
    method Open(row: Row) returns (err: Option<Error>)
      requires Valid() && row.eventNumber != currEventNumber
      requires !LimitReached(mode, eventCounter)
      modifies this
      ensures err.None? ==> Valid()
      ensures unchanged(this`reachedMaxEvents)
      ensures OpenEvent(old(Snapshot()), mode, row)
              == if err.Some? then Fatal(err.value) else Next(Snapshot())
    {
      ghost var st := Snapshot();
      currEventNumber := row.eventNumber;
      if fillEvent {
        events := events + [Authored(row)];
      } else if records[eventCounter].frameNumber != ToU64(currEventNumber) {
        return Some(EventNumberMismatch);
      }
      if eventCounter != 0 {
        groups := groups + [slots[..nHits]];
      }
      eventCounter := eventCounter + 1;
      heads := heads + [row];
      nHits := 0;
      assert Snapshot() == Opened(st, mode, row);
      return None;
    }

    /** The hit branch of the row loop: skip the sentinel, refuse a hit
        over MAX_HITS or off the detector, otherwise store the hit at
        index `nHits` and count it. */
    method AddHit(row: Row) returns (err: Option<Error>)
      requires Valid()
      modifies this, slots
      ensures err.None? ==> Valid()
      ensures unchanged(this`reachedMaxEvents)
      ensures Absorb(old(Snapshot()), row)
              == if err.Some? then Fatal(err.value) else Next(Snapshot())
    {
      ghost var st := Snapshot();
      if (row.column == 0 || row.row == 0) && nHits == 0 {
        // a sentinel before the first hit is skipped
      } else if nHits >= MAX_HITS {
        return Some(MaxHitsReached);
      } else {
        if row.column <= 0 || row.row <= 0 || row.column > N_COLUMNS || row.row > N_ROWS {
          return Some(InvalidHit);
        }
        slots[nHits] := ToHit(row);
        nHits := nHits + 1;
        assert slots[..nHits] == st.hits + [ToHit(row)];
      }
      return None;
    }

    /** One pass of the row loop. On reaching the event limit it sets
        `reachedMaxEvents` and leaves everything else as it was. */
    method Step(row: Row) returns (err: Option<Error>)
      requires Valid() && !reachedMaxEvents
      modifies this, slots
      ensures err.None? ==> Valid()
      ensures StepRow(old(Snapshot()), mode, row)
              == if err.Some? then Fatal(err.value)
                 else if reachedMaxEvents then Halt(Snapshot())
                 else Next(Snapshot())
    {
      ghost var st := Snapshot();
      if row.eventNumber != currEventNumber {
        // the event number changed: the limit checks, then open
        if fillEvent && maxEvents > 0 && eventCounter >= maxEvents {
          reachedMaxEvents := true;
          return None;
        }
        if !fillEvent && eventCounter >= |records| {
          reachedMaxEvents := true;
          return None;
        }
        err := Open(row);
        if err.Some? {
          return;
        }
      }
      ghost var current := Snapshot();
      assert StepRow(st, mode, row) == Absorb(current, row);
      err := AddHit(row);
    }

    /** The row loop over one chunk; it stops early on an error or when
        the event limit is reached. */
    method Chunk(chunk: seq<Row>) returns (err: Option<Error>)
      requires Valid() && !reachedMaxEvents
      modifies this, slots
      ensures err.None? ==> Valid()
      ensures RunRows(old(Snapshot()), mode, chunk)
              == if err.Some? then Fatal(err.value)
                 else if reachedMaxEvents then Halt(Snapshot())
                 else Next(Snapshot())
    {
      ghost var before := Snapshot();
      var j := 0;
      while j < |chunk|
        invariant 0 <= j <= |chunk| && Valid() && !reachedMaxEvents
        invariant RunRows(before, mode, chunk) == RunRows(Snapshot(), mode, chunk[j..])
      {
        var row := chunk[j];
        assert chunk[j..][0] == row && chunk[j..][1..] == chunk[j + 1..];
        err := Step(row);
        if err.Some? || reachedMaxEvents {
          return;
        }
        j := j + 1;
      }
      return None;
    }

    /** The chunk loop: an oversized chunk aborts, and reaching the event
        limit inside a chunk breaks out of the chunk loop too. */
    method Chunks(chunks: seq<seq<Row>>) returns (err: Option<Error>)
      requires Valid() && !reachedMaxEvents
      modifies this, slots
      ensures err.None? ==> Valid()
      ensures RunChunks(old(Snapshot()), mode, chunks)
              == if err.Some? then Fatal(err.value)
                 else if reachedMaxEvents then Halt(Snapshot())
                 else Next(Snapshot())
    {
      ghost var before := Snapshot();
      var i := 0;
      while i < |chunks|
        invariant 0 <= i <= |chunks| && Valid() && !reachedMaxEvents
        invariant RunChunks(before, mode, chunks) == RunChunks(Snapshot(), mode, chunks[i..])
      {
        var chunk := chunks[i];
        assert chunks[i..][0] == chunk && chunks[i..][1..] == chunks[i + 1..];
        if |chunk| > BUF_SIZE {
          return Some(ChunkTooLarge);
        }
        err := Chunk(chunk);
        if err.Some? || reachedMaxEvents {
          return;
        }
        i := i + 1;
      }
      return None;
    }

    /** The end of the stream: write the hit group of the last event and,
        in verifier mode, insist that every Event record was matched. */
    method Close() returns (r: Result<Output>)
      requires Valid()
      ensures r == Finish(Snapshot(), mode)
    {
      var written := groups + [slots[..nHits]];
      if !fillEvent && eventCounter < |records| {
        return Err(MissingEvents(|records| - eventCounter));
      }
      return Ok(Output(events, written, eventCounter));
    }
  }

  /** Converts the chunked pyBAR hit stream. `fillEvent` selects author
      mode, `maxEvents` caps the events it writes (0: no cap), and
      `eventTable` is the Judith Event table if one exists. The outcome is
      exactly that of the segmenter's specification. */
  method PyBarToJudith(chunks: seq<seq<Row>>, fillEvent: bool, maxEvents: i64,
                       eventTable: Option<seq<EventRecord>>) returns (r: Result<Output>, ret: Option<i32>)
    ensures r == Segmenter.Convert(chunks, fillEvent, maxEvents, eventTable)
    ensures ret == Returned(r)
  {
    // mode preconditions on the Event table
    if fillEvent && eventTable.Some? {
      return Err(EventTableExists), None;
    }
    if !fillEvent && eventTable.None? {
      return Err(EventTableMissing), None;
    }
    var records: seq<EventRecord> := if fillEvent then [] else eventTable.value;
    if !fillEvent && |records| == 0 {
      return Err(EventTableEmpty), None;
    }
    var loop := new EventLoop(fillEvent, maxEvents, records);
    ghost var mode := loop.mode;
    assert SelectMode(fillEvent, maxEvents, eventTable) == Ok(mode);

    var err := loop.Chunks(chunks);
    if err.Some? {
      return Err(err.value), None;
    }
    r := loop.Close();
    if r.Err? {
      return r, None;
    }
    // `event_counter` leaves through the `int` return type
    return r, Some(ToI32(r.value.count));
  }
}
