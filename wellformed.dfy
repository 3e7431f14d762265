/** Which streams the converter accepts. A run of rows is good when,
    after its leading sentinel rows, it holds at most MAX_HITS rows and
    each of them is on the detector; a good stream in a mode whose Event
    table agrees with it converts without error, and in author mode
    without an event cap the converse holds too. */
module Wellformed {
  import opened Records
  import opened HitValidator
  import opened Segmenter
  import opened Stream

  /** A run the hit check lets through: a sentinel row is tolerated only
      before the first hit, and the hits fit into MAX_HITS. */
  predicate GoodRun(run: seq<Row>)
  {
    var d := DropSentinels(run);
    |d| <= MAX_HITS && forall r <- d :: OnDetector(r.column, r.row)
  }

  /** In verifier mode, the Event table agrees with the event heads `hs`
      that open events number `done`, `done + 1`, ... as far as both
      reach. */
  ghost predicate Agrees(mode: Mode, done: nat, hs: seq<Row>)
  {
    mode.Verifier? ==>
      forall k :: 0 <= k < |hs| && done + k < |mode.records| ==>
        mode.records[done + k].frameNumber == ToU64(hs[k].eventNumber)
  }

  /** The current group holds one hit per non-sentinel row after the
      leading sentinels of `seg`. */
  lemma GroupSize(seg: seq<Row>)
    ensures |GroupHits(seg)| == |DropSentinels(seg)|
  {
  }

  /** A row whose run stays good is let through by the hit check. */
  lemma AbsorbOk(st: State, r: Row, seg: seq<Row>, more: seq<Row>)
    requires st.hits == GroupHits(seg)
    requires GoodRun(seg + [r] + more)
    ensures Absorb(st, r).Next?
  {
    GroupSize(seg);
    SeqAssoc(seg, [r], more);
    DropSentinelsAppend(seg, [r] + more);
    var d := DropSentinels(seg + [r] + more);
    if DropSentinels(seg) == [] {
      if !Sentinel(r) {
        assert DropSentinels([r] + more) == [r] + more;
        assert r in d;
      }
    } else {
      assert d == DropSentinels(seg) + ([r] + more);
      assert r in d;
    }
  }

  /** A row the hit check lets through keeps its run good. */
  lemma AbsorbGood(st: State, r: Row, seg: seq<Row>)
    requires st.hits == GroupHits(seg) && GoodRun(seg)
    requires Absorb(st, r).Next?
    ensures GoodRun(seg + [r])
  {
    GroupSize(seg);
    DropSentinelsAppend(seg, [r]);
    var d := DropSentinels(seg + [r]);
    if DropSentinels(seg) == [] {
      if !Sentinel(r) {
        assert DropSentinels([r]) == [r];
      }
    } else {
      assert d == DropSentinels(seg) + [r];
    }
  }

  /** With `seg` the rows of the current event so far, every run from
      here on is good, the current one counting `seg`. */
  ghost predicate GoodFrom(cur: int, rows: seq<Row>, seg: seq<Row>)
  {
    var e := EventRows(cur, rows);
    GoodRun(seg + e[0]) && forall k :: 1 <= k < |e| ==> GoodRun(e[k])
  }

  /** A row continuing the current event: the hit check lets it through
      and the rest of the stream is still good. */
  lemma ContinueOk(st: State, mode: Mode, rows: seq<Row>, seg: seq<Row>)
    requires rows != [] && rows[0].eventNumber == st.current
    requires st.hits == GroupHits(seg) && GoodFrom(st.current, rows, seg)
    ensures StepRow(st, mode, rows[0]).Next?
    ensures var s1 := StepRow(st, mode, rows[0]).st;
            s1.hits == GroupHits(seg + [rows[0]]) && s1.current == st.current && s1.heads == st.heads
            && GoodFrom(rows[0].eventNumber, rows[1..], seg + [rows[0]])
  {
    var r := rows[0];
    var rest := EventRows(r.eventNumber, rows[1..]);
    var e := EventRows(st.current, rows);
    EventRowsContinue(st.current, rows);
    ContinuedRuns(e, [r] + rest[0], rest);
    SeqAssoc(seg, [r], rest[0]);
    AbsorbOk(st, r, seg, rest[0]);
    AbsorbHits(st, r, seg);
  }

  /** Agreement with the heads past the first one, which itself agrees
      with the record at position `done`. */
  lemma AgreesShift(mode: Mode, done: nat, r: Row, hs: seq<Row>)
    requires Agrees(mode, done, [r] + hs)
    ensures mode.Verifier? && done < |mode.records| ==>
              mode.records[done].frameNumber == ToU64(r.eventNumber)
    ensures Agrees(mode, done + 1, hs)
  {
    if mode.Verifier? {
      assert ([r] + hs)[0] == r;
      forall k | 0 <= k < |hs| && done + 1 + k < |mode.records|
        ensures mode.records[done + 1 + k].frameNumber == ToU64(hs[k].eventNumber)
      {
        assert ([r] + hs)[k + 1] == hs[k];
      }
    }
  }

  /** The runs after a row that opens one: the new run is good, and so is
      everything after its first row. */
  lemma GoodFromOpen(cur: int, rows: seq<Row>, seg: seq<Row>)
    requires rows != [] && rows[0].eventNumber != cur
    requires GoodFrom(cur, rows, seg)
    ensures GoodRun([] + [rows[0]] + EventRows(rows[0].eventNumber, rows[1..])[0])
    ensures GoodFrom(rows[0].eventNumber, rows[1..], [rows[0]])
  {
    var r := rows[0];
    var rest := EventRows(r.eventNumber, rows[1..]);
    var e := EventRows(cur, rows);
    EventRowsOpen(cur, rows);
    var first := [r] + rest[0];
    OpenedRuns(e, first, rest);
    assert GoodRun(e[1]);
    assert [] + [r] + rest[0] == first;
    forall k | 1 <= k < |rest|
      ensures GoodRun(rest[k])
    {
      assert GoodRun(e[k + 1]);
    }
  }

  /** A row opening an event below the limit, with the Event table
      agreeing: the event opens, the hit check lets the row through, and
      the rest of the stream is still good and agreed with. */
  lemma OpenOk(st: State, mode: Mode, rows: seq<Row>, seg: seq<Row>)
    requires rows != [] && rows[0].eventNumber != st.current
    requires !LimitReached(mode, |st.heads|)
    requires GoodFrom(st.current, rows, seg)
    requires Agrees(mode, |st.heads|, Heads(st.current, rows))
    ensures StepRow(st, mode, rows[0]).Next?
    ensures var s1 := StepRow(st, mode, rows[0]).st;
            s1.hits == GroupHits([rows[0]]) && s1.current == rows[0].eventNumber
            && GoodFrom(rows[0].eventNumber, rows[1..], [rows[0]])
            && Agrees(mode, |s1.heads|, Heads(rows[0].eventNumber, rows[1..]))
  {
    var r, tail := rows[0], rows[1..];
    var hs := Heads(r.eventNumber, tail);
    assert Heads(st.current, rows) == [r] + hs;
    AgreesShift(mode, |st.heads|, r, hs);
    GoodFromOpen(st.current, rows, seg);
    OpenStep(st, mode, r, EventRows(r.eventNumber, tail)[0]);
  }

  /** The row that opens an event below the limit, agreed with by the
      Event table and starting a good run, opens it and passes the hit
      check, leaving its hit group as the whole group. */
  lemma OpenStep(st: State, mode: Mode, r: Row, more: seq<Row>)
    requires r.eventNumber != st.current && !LimitReached(mode, |st.heads|)
    requires mode.Verifier? ==> mode.records[|st.heads|].frameNumber == ToU64(r.eventNumber)
    requires GoodRun([] + [r] + more)
    ensures StepRow(st, mode, r).Next?
    ensures var s1 := StepRow(st, mode, r).st;
            s1.hits == GroupHits([r]) && s1.current == r.eventNumber && |s1.heads| == |st.heads| + 1
  {
    var s0 := Opened(st, mode, r);
    assert OpenEvent(st, mode, r) == Next(s0);
    assert s0.hits == [] == GroupHits([]);
    AbsorbOk(s0, r, [], more);
    AbsorbHits(s0, r, []);
    assert [] + [r] == [r];
  }

  /** With `seg` the rows of the current event so far, a row loop over
      good runs that the Event table agrees with does not fail. */
  lemma {:induction false} RunRowsOk(st: State, mode: Mode, rows: seq<Row>, seg: seq<Row>)
    requires st.hits == GroupHits(seg) && GoodFrom(st.current, rows, seg)
    requires Agrees(mode, |st.heads|, Heads(st.current, rows))
    ensures !RunRows(st, mode, rows).Fatal?
    decreases |rows|
  {
    if rows != [] {
      var r, tail := rows[0], rows[1..];
      if r.eventNumber == st.current {
        ContinueOk(st, mode, rows, seg);
        assert Heads(st.current, rows) == Heads(r.eventNumber, tail);
        var s1 := StepRow(st, mode, r).st;
        assert RunRows(st, mode, rows) == RunRows(s1, mode, tail);
        RunRowsOk(s1, mode, tail, seg + [r]);
      } else if !LimitReached(mode, |st.heads|) {
        OpenOk(st, mode, rows, seg);
        var s1 := StepRow(st, mode, r).st;
        assert RunRows(st, mode, rows) == RunRows(s1, mode, tail);
        RunRowsOk(s1, mode, tail, [r]);
      }
    }
  }

  /** A row of the current event the loop gets past keeps its run good,
      and the runs from here on are good if those after it are. */
  lemma ContinueGood(st: State, mode: Mode, rows: seq<Row>, seg: seq<Row>)
    requires rows != [] && rows[0].eventNumber == st.current
    requires st.hits == GroupHits(seg) && GoodRun(seg)
    requires StepRow(st, mode, rows[0]).Next?
    ensures var s1 := StepRow(st, mode, rows[0]).st;
            s1.hits == GroupHits(seg + [rows[0]]) && s1.current == st.current
            && GoodRun(seg + [rows[0]])
            && (GoodFrom(rows[0].eventNumber, rows[1..], seg + [rows[0]]) ==> GoodFrom(st.current, rows, seg))
  {
    AbsorbGood(st, rows[0], seg);
    AbsorbHits(st, rows[0], seg);
    GoodFromContinue(st.current, rows, seg);
  }

  /** The runs from a row continuing the current event are good if those
      after it are, the row counting towards the current run. */
  lemma GoodFromContinue(cur: int, rows: seq<Row>, seg: seq<Row>)
    requires rows != [] && rows[0].eventNumber == cur
    ensures GoodFrom(rows[0].eventNumber, rows[1..], seg + [rows[0]]) ==> GoodFrom(cur, rows, seg)
  {
    var r := rows[0];
    var rest := EventRows(r.eventNumber, rows[1..]);
    var e := EventRows(cur, rows);
    EventRowsContinue(cur, rows);
    ContinuedRuns(e, [r] + rest[0], rest);
    SeqAssoc(seg, [r], rest[0]);
  }

  /** A row opening an event the loop gets past starts a good run, and the
      runs from here on are good if those after it are. */
  lemma OpenGood(st: State, mode: Mode, rows: seq<Row>, seg: seq<Row>)
    requires rows != [] && rows[0].eventNumber != st.current
    requires GoodRun(seg)
    requires StepRow(st, mode, rows[0]).Next?
    ensures var s1 := StepRow(st, mode, rows[0]).st;
            s1.hits == GroupHits([rows[0]]) && s1.current == rows[0].eventNumber
            && GoodRun([rows[0]])
            && (GoodFrom(rows[0].eventNumber, rows[1..], [rows[0]]) ==> GoodFrom(st.current, rows, seg))
  {
    var r := rows[0];
    var s0 := Opened(st, mode, r);
    assert OpenEvent(st, mode, r) == Next(s0);
    assert s0.hits == [] == GroupHits([]);
    assert DropSentinels([]) == [];
    AbsorbGood(s0, r, []);
    AbsorbHits(s0, r, []);
    assert [] + [r] == [r];
    GoodFromOpened(st.current, rows, seg);
  }

  /** The runs from a row opening an event are good if the current run is
      and those from that row on are, the row starting its own run. */
  lemma GoodFromOpened(cur: int, rows: seq<Row>, seg: seq<Row>)
    requires rows != [] && rows[0].eventNumber != cur && GoodRun(seg)
    ensures GoodFrom(rows[0].eventNumber, rows[1..], [rows[0]]) ==> GoodFrom(cur, rows, seg)
  {
    var r := rows[0];
    var rest := EventRows(r.eventNumber, rows[1..]);
    var e := EventRows(cur, rows);
    EventRowsOpen(cur, rows);
    OpenedRuns(e, [r] + rest[0], rest);
    assert seg + e[0] == seg;
  }

  /** With `seg` the rows of the current event so far and good, a row loop
      that runs to its end leaves every run good. */
  lemma {:induction false} RunRowsGood(st: State, mode: Mode, rows: seq<Row>, seg: seq<Row>)
    requires st.hits == GroupHits(seg) && GoodRun(seg)
    requires RunRows(st, mode, rows).Next?
    ensures GoodFrom(st.current, rows, seg)
    decreases |rows|
  {
    if rows == [] {
      assert seg + EventRows(st.current, rows)[0] == seg;
    } else {
      var r, tail := rows[0], rows[1..];
      assert StepRow(st, mode, r).Next?;
      var s1 := StepRow(st, mode, r).st;
      assert RunRows(st, mode, rows) == RunRows(s1, mode, tail);
      if r.eventNumber == st.current {
        ContinueGood(st, mode, rows, seg);
        RunRowsGood(s1, mode, tail, seg + [r]);
      } else {
        OpenGood(st, mode, rows, seg);
        RunRowsGood(s1, mode, tail, [r]);
      }
    }
  }

  /** A chunk loop that runs to its end saw no oversized chunk. */
  lemma {:induction false} RunChunksSizes(st: State, mode: Mode, chunks: seq<seq<Row>>)
    requires RunChunks(st, mode, chunks).Next?
    ensures forall c <- chunks :: |c| <= BUF_SIZE
    decreases |chunks|
  {
    if chunks != [] {
      RunChunksSizes(RunRows(st, mode, chunks[0]).st, mode, chunks[1..]);
      assert forall c <- chunks :: c == chunks[0] || c in chunks[1..];
    }
  }

  /** Without a cap, the row loop in author mode never stops early. */
  lemma {:induction false} RunRowsUncapped(st: State, maxEvents: i64, rows: seq<Row>)
    requires maxEvents <= 0
    ensures !RunRows(st, Author(maxEvents), rows).Halt?
    decreases |rows|
  {
    if rows != [] && StepRow(st, Author(maxEvents), rows[0]).Next? {
      RunRowsUncapped(StepRow(st, Author(maxEvents), rows[0]).st, maxEvents, rows[1..]);
    }
  }

  /** A stream of good runs, in chunks of at most BUF_SIZE rows, converts
      without error in either mode when the mode preconditions hold and,
      in verifier mode, the stream has at least as many runs as the Event
      table has records and agrees with each of them. */
  lemma ConvertSucceeds(chunks: seq<seq<Row>>, fillEvent: bool, maxEvents: i64,
                        eventTable: Option<seq<EventRecord>>)
    requires SelectMode(fillEvent, maxEvents, eventTable).Ok?
    requires forall c <- chunks :: |c| <= BUF_SIZE
    requires forall run <- EventRows(-1, Flatten(chunks)) :: GoodRun(run)
    requires !fillEvent ==>
               var hs := Heads(-1, Flatten(chunks));
               |eventTable.value| <= |hs|
               && forall k :: 0 <= k < |eventTable.value| ==>
                    eventTable.value[k].frameNumber == ToU64(hs[k].eventNumber)
    ensures Convert(chunks, fillEvent, maxEvents, eventTable).Ok?
  {
    var mode := SelectMode(fillEvent, maxEvents, eventTable).value;
    var rows := Flatten(chunks);
    ChunkingInvisible(Initial(), mode, chunks);
    var e := EventRows(-1, rows);
    assert e[0] in e && [] + e[0] == e[0];
    assert forall k :: 1 <= k < |e| ==> e[k] in e;
    assert Initial().hits == GroupHits([]);
    RunRowsOk(Initial(), mode, rows, []);
    var run := RunRows(Initial(), mode, rows);
    if run.Next? {
      RunRowsNextHeads(Initial(), mode, rows);
      assert [] + Heads(-1, rows) == Heads(-1, rows);
    } else {
      var n := RunRowsHalt(Initial(), mode, rows);
    }
  }

  /** The converse of `Stream.MissingEventsShortfall`: a stream of good
      runs, in chunks of at most BUF_SIZE rows, that agrees with the Event
      table but opens fewer events than the table has records fails for
      missing events, short by exactly the difference. */
  lemma MissingEventsExact(chunks: seq<seq<Row>>, maxEvents: i64, records: seq<EventRecord>)
    requires forall c <- chunks :: |c| <= BUF_SIZE
    requires forall run <- EventRows(-1, Flatten(chunks)) :: GoodRun(run)
    requires var hs := Heads(-1, Flatten(chunks));
             |hs| < |records|
             && forall k :: 0 <= k < |hs| ==> records[k].frameNumber == ToU64(hs[k].eventNumber)
    ensures Convert(chunks, false, maxEvents, Some(records))
            == Err(MissingEvents(|records| - |Heads(-1, Flatten(chunks))|))
  {
    var mode := Verifier(records);
    var rows := Flatten(chunks);
    var hs := Heads(-1, rows);
    ChunkingInvisible(Initial(), mode, chunks);
    var e := EventRows(-1, rows);
    assert e[0] in e && [] + e[0] == e[0];
    assert forall k :: 1 <= k < |e| ==> e[k] in e;
    assert Initial().hits == GroupHits([]);
    RunRowsOk(Initial(), mode, rows, []);
    var run := RunRows(Initial(), mode, rows);
    if run.Halt? {
      // the limit is |records| events, but the whole stream opens fewer
      HaltedHeads(Initial(), mode, rows);
      assert false;
    }
    RunRowsHeads(Initial(), mode, rows);
    assert [] + hs == hs;
  }

  /** A row loop stops at the limit only after opening no more events
      than the stream has runs. */
  lemma HaltedHeads(st: State, mode: Mode, rows: seq<Row>)
    requires RunRows(st, mode, rows).Halt?
    ensures LimitReached(mode, |RunRows(st, mode, rows).st.heads|)
    ensures |RunRows(st, mode, rows).st.heads| <= |st.heads| + |Heads(st.current, rows)|
  {
    var n := RunRowsHalt(st, mode, rows);
    RunRowsHeads(st, mode, rows[..n]);
    assert rows == rows[..n] + rows[n..];
    HeadsAppend(st.current, rows[..n], rows[n..]);
  }

  /** Author mode without an event cap: the conversion succeeds if and
      only if every chunk fits BUF_SIZE and every run of the stream is
      good. */
  lemma AuthorModeSucceedsIff(chunks: seq<seq<Row>>, maxEvents: i64)
    requires maxEvents <= 0
    ensures Convert(chunks, true, maxEvents, None).Ok?
            <==> (forall c <- chunks :: |c| <= BUF_SIZE)
                 && forall run <- EventRows(-1, Flatten(chunks)) :: GoodRun(run)
  {
    if Convert(chunks, true, maxEvents, None).Ok? {
      SucceedsOnlyIfGood(chunks, maxEvents);
    } else if (forall c <- chunks :: |c| <= BUF_SIZE)
              && forall run <- EventRows(-1, Flatten(chunks)) :: GoodRun(run) {
      ConvertSucceeds(chunks, true, maxEvents, None);
    }
  }

  /** Author mode without an event cap succeeds only if every chunk fits
      BUF_SIZE and every run of the stream is good. */
  lemma SucceedsOnlyIfGood(chunks: seq<seq<Row>>, maxEvents: i64)
    requires maxEvents <= 0
    requires Convert(chunks, true, maxEvents, None).Ok?
    ensures forall c <- chunks :: |c| <= BUF_SIZE
    ensures forall run <- EventRows(-1, Flatten(chunks)) :: GoodRun(run)
  {
    var mode := Author(maxEvents);
    var rows := Flatten(chunks);
    var go := RunChunks(Initial(), mode, chunks);
    assert !go.Fatal?;
    if go.Halt? {
      var n := RunChunksConsumed(Initial(), mode, chunks);
      assert false;
    }
    RunChunksSizes(Initial(), mode, chunks);
    ChunkingInvisible(Initial(), mode, chunks);
    assert Initial().hits == GroupHits([]) && GoodRun([]);
    RunRowsGood(Initial(), mode, rows, []);
    GoodFromStart(rows);
  }

  /** A stream good from its start, with nothing before it, has only good
      runs. */
  lemma GoodFromStart(rows: seq<Row>)
    requires GoodFrom(-1, rows, [])
    ensures forall run <- EventRows(-1, rows) :: GoodRun(run)
  {
    var e := EventRows(-1, rows);
    assert [] + e[0] == e[0];
    forall run | run in e
      ensures GoodRun(run)
    {
      var k :| 0 <= k < |e| && e[k] == run;
    }
  }
}
