/** Reference descriptions of the row stream, independent of the segmenter's
    state machine, and the lemmas that connect the two: chunk boundaries
    are invisible, the opened events are the runs of equal event numbers,
    and each hit group holds exactly the hits of its run. */
module Stream {
  import opened Records
  import opened HitValidator
  import opened Segmenter

  /** The rows of all chunks, in order. */
  function Flatten(chunks: seq<seq<Row>>): (rows: seq<Row>)
  {
    if chunks == [] then [] else chunks[0] + Flatten(chunks[1..])
  }

  /** The first row of every run of equal event numbers in `rows`, where
      the row before the stream had number `cur`. */
  function Heads(cur: int, rows: seq<Row>): (hs: seq<Row>)
    decreases |rows|
  {
    if rows == [] then []
    else if rows[0].eventNumber != cur then [rows[0]] + Heads(rows[0].eventNumber, rows[1..])
    else Heads(cur, rows[1..])
  }

  /** The event number in force after `rows`. */
  function LastNumber(cur: int, rows: seq<Row>): (n: int)
  {
    if rows == [] then cur else Last(rows).eventNumber
  }

  /** `rows` cut into runs of equal event numbers: element 0 holds the rows
      that continue the run numbered `cur`, element k > 0 the run that
      `Heads(cur, rows)[k - 1]` opens. */
  function EventRows(cur: int, rows: seq<Row>): (e: seq<seq<Row>>)
    ensures |e| == 1 + |Heads(cur, rows)|
    decreases |rows|
  {
    if rows == [] then [[]]
    else
      var rest := EventRows(rows[0].eventNumber, rows[1..]);
      var first := [[rows[0]] + rest[0]] + rest[1..];
      if rows[0].eventNumber != cur then [[]] + first else first
  }

  /** The concatenation of a sequence of runs. */
  function Concat(e: seq<seq<Row>>): (rows: seq<Row>)
  {
    if e == [] then [] else e[0] + Concat(e[1..])
  }

  /** A row that stands for "no hit": zero column or zero row. */
  predicate Sentinel(r: Row)
  {
    r.column == 0 || r.row == 0
  }

  /** `rows` without its leading sentinel rows (`DropSentinelsSuffix`
      states that this is exactly what it drops). */
  function DropSentinels(rows: seq<Row>): (d: seq<Row>)
    ensures d == [] || !Sentinel(d[0])
  {
    if rows == [] then []
    else if Sentinel(rows[0]) then DropSentinels(rows[1..])
    else rows
  }

  /** `DropSentinels` keeps a suffix of `rows` and drops only sentinels, so
      with its own contract it removes the longest all-sentinel prefix. */
  lemma {:induction false} DropSentinelsSuffix(rows: seq<Row>)
    ensures var d := DropSentinels(rows);
            |d| <= |rows| && d == rows[|rows| - |d|..]
            && forall k :: 0 <= k < |rows| - |d| ==> Sentinel(rows[k])
    decreases |rows|
  {
    if rows != [] && Sentinel(rows[0]) {
      DropSentinelsSuffix(rows[1..]);
      var d := DropSentinels(rows);
      assert rows[1..][|rows| - 1 - |d|..] == rows[|rows| - |d|..];
      forall k | 0 <= k < |rows| - |d|
        ensures Sentinel(rows[k])
      {
        if k > 0 {
          assert rows[k] == rows[1..][k - 1];
        }
      }
    }
  }

  /** The hit group an event's rows yield: every row after the leading
      sentinel rows becomes a hit. */
  function GroupHits(rows: seq<Row>): (g: seq<Hit>)
  {
    HitsOf(DropSentinels(rows))
  }

  /** The hits of `rows`, one per row. */
  function HitsOf(rows: seq<Row>): (hs: seq<Hit>)
    ensures |hs| == |rows|
  {
    if rows == [] then [] else [ToHit(rows[0])] + HitsOf(rows[1..])
  }

  /** The hit groups of a sequence of runs. */
  function GroupsOf(e: seq<seq<Row>>): (gs: seq<seq<Hit>>)
    ensures |gs| == |e|
  {
    if e == [] then [] else [GroupHits(e[0])] + GroupsOf(e[1..])
  }

  /** The hit groups the converter writes for the runs `e` of a stream that
      starts before any event: one per opened event, or the single group of
      the leading rows when no event was opened. */
  function ExpectedGroups(e: seq<seq<Row>>): (gs: seq<seq<Hit>>)
    requires e != []
  {
    if |e| == 1 then [GroupHits(e[0])] else GroupsOf(e[1..])
  }

  // ---------------------------------------------------------------------
  // The runs partition the stream.

  /** Cutting the stream into runs loses and reorders nothing; each run
      after the first starts at its head and keeps one event number, and
      the first run keeps the number `cur`. */
  lemma EventRowsPartition(cur: int, rows: seq<Row>)
    ensures Concat(EventRows(cur, rows)) == rows
    ensures forall r <- EventRows(cur, rows)[0] :: r.eventNumber == cur
    ensures forall k :: 1 <= k < |EventRows(cur, rows)| ==>
              EventRows(cur, rows)[k] != [] && EventRows(cur, rows)[k][0] == Heads(cur, rows)[k - 1]
              && forall r <- EventRows(cur, rows)[k] :: r.eventNumber == Heads(cur, rows)[k - 1].eventNumber
  {
    EventRowsConcat(cur, rows);
    EventRowsLeading(cur, rows);
    EventRowsLater(cur, rows);
  }

  /** The runs concatenate back to the stream. */
  lemma {:induction false} EventRowsConcat(cur: int, rows: seq<Row>)
    ensures Concat(EventRows(cur, rows)) == rows
    decreases |rows|
  {
    if rows != [] {
      var n := rows[0].eventNumber;
      var rest := EventRows(n, rows[1..]);
      EventRowsConcat(n, rows[1..]);
      var first := [[rows[0]] + rest[0]] + rest[1..];
      FirstRunConcat(rows[0], rest);
      if n != cur {
        EventRowsOpen(cur, rows);
        var e := EventRows(cur, rows);
        assert Concat(e) == [] + Concat(e[1..]) && e[1..] == first;
      } else {
        EventRowsContinue(cur, rows);
      }
    }
  }

  /** The leading run keeps the number `cur`. */
  lemma {:induction false} EventRowsLeading(cur: int, rows: seq<Row>)
    ensures forall r <- EventRows(cur, rows)[0] :: r.eventNumber == cur
    decreases |rows|
  {
    if rows != [] && rows[0].eventNumber == cur {
      var rest := EventRows(cur, rows[1..]);
      EventRowsLeading(cur, rows[1..]);
      EventRowsContinue(cur, rows);
      assert EventRows(cur, rows)[0] == [rows[0]] + rest[0];
    } else if rows != [] {
      EventRowsOpen(cur, rows);
    }
  }

  /** Every run after the leading one starts at its head and keeps that
      head's number. */
  lemma {:induction false} EventRowsLater(cur: int, rows: seq<Row>)
    ensures forall k :: 1 <= k < |EventRows(cur, rows)| ==>
              EventRows(cur, rows)[k] != [] && EventRows(cur, rows)[k][0] == Heads(cur, rows)[k - 1]
              && forall r <- EventRows(cur, rows)[k] :: r.eventNumber == Heads(cur, rows)[k - 1].eventNumber
    decreases |rows|
  {
    if rows != [] {
      var n := rows[0].eventNumber;
      var rest := EventRows(n, rows[1..]);
      EventRowsLater(n, rows[1..]);
      var e := EventRows(cur, rows);
      var hs := Heads(cur, rows);
      var later := Heads(n, rows[1..]);
      if n != cur {
        EventRowsLeading(n, rows[1..]);
        EventRowsOpen(cur, rows);
        assert hs == [rows[0]] + later;
        OpenedHeads(e, hs, rows[0], rest, later);
      } else {
        EventRowsContinue(cur, rows);
        ContinuedRuns(e, [rows[0]] + rest[0], rest);
        assert hs == later;
      }
    }
  }

  /** The runs after a row that opens one start at their heads: the new
      run at the row, the later ones where they did. */
  lemma OpenedHeads(e: seq<seq<Row>>, hs: seq<Row>, r: Row, rest: seq<seq<Row>>, later: seq<Row>)
    requires rest != [] && e == [[]] + ([[r] + rest[0]] + rest[1..]) && hs == [r] + later
    requires |rest| == 1 + |later|
    requires forall x <- rest[0] :: x.eventNumber == r.eventNumber
    requires forall k :: 1 <= k < |rest| ==>
               rest[k] != [] && rest[k][0] == later[k - 1]
               && forall x <- rest[k] :: x.eventNumber == later[k - 1].eventNumber
    ensures forall k :: 1 <= k < |e| ==>
              e[k] != [] && e[k][0] == hs[k - 1]
              && forall x <- e[k] :: x.eventNumber == hs[k - 1].eventNumber
  {
    OpenedRuns(e, [r] + rest[0], rest);
    forall k | 1 <= k < |e|
      ensures e[k] != [] && e[k][0] == hs[k - 1]
      ensures forall x: Row | x in e[k] :: x.eventNumber == hs[k - 1].eventNumber
    {
      if k > 1 {
        assert hs[k - 1] == later[k - 2];
      }
    }
  }

  /** Concatenating the runs after prepending a row to the first one. */
  lemma FirstRunConcat(r: Row, rest: seq<seq<Row>>)
    requires rest != []
    ensures Concat([[r] + rest[0]] + rest[1..]) == [r] + Concat(rest)
  {
    var first := [[r] + rest[0]] + rest[1..];
    assert first[1..] == rest[1..];
    assert Concat(rest) == rest[0] + Concat(rest[1..]);
  }

  // ---------------------------------------------------------------------
  // Algebra of the reference functions.

  lemma {:induction false} HeadsAppend(cur: int, a: seq<Row>, b: seq<Row>)
    ensures Heads(cur, a + b) == Heads(cur, a) + Heads(LastNumber(cur, a), b)
    decreases |a|
  {
    if a != [] {
      assert (a + b)[0] == a[0] && (a + b)[1..] == a[1..] + b;
      HeadsAppend(a[0].eventNumber, a[1..], b);
      assert LastNumber(a[0].eventNumber, a[1..]) == LastNumber(cur, a);
    } else {
      assert a + b == b;
    }
  }

  lemma {:induction false} DropSentinelsAppend(a: seq<Row>, b: seq<Row>)
    ensures DropSentinels(a + b) == if DropSentinels(a) == [] then DropSentinels(b) else DropSentinels(a) + b
    decreases |a|
  {
    if a == [] {
      assert a + b == b;
    } else {
      assert (a + b)[0] == a[0] && (a + b)[1..] == a[1..] + b;
      if Sentinel(a[0]) {
        DropSentinelsAppend(a[1..], b);
      }
    }
  }

  /** The hit check grows the group exactly as `GroupHits` prescribes, and
      lets through only sentinels and rows on the detector. */
  lemma AbsorbHits(st: State, r: Row, seg: seq<Row>)
    requires st.hits == GroupHits(seg)
    requires Absorb(st, r).Next?
    ensures Absorb(st, r).st.hits == GroupHits(seg + [r])
    ensures Absorb(st, r).st.heads == st.heads && Absorb(st, r).st.groups == st.groups
    ensures Sentinel(r) || OnDetector(r.column, r.row)
  {
    DropSentinelsAppend(seg, [r]);
    var d := DropSentinels(seg);
    var d' := DropSentinels(seg + [r]);
    if Classify(r, |st.hits|).Skip? {
      assert d' == [];
    } else {
      assert d' == d + [r];
      HitsOfAppend(d, [r]);
    }
  }

  lemma {:induction false} HitsOfAppend(a: seq<Row>, b: seq<Row>)
    ensures HitsOf(a + b) == HitsOf(a) + HitsOf(b)
    decreases |a|
  {
    if a == [] {
      assert a + b == b;
    } else {
      assert (a + b)[0] == a[0] && (a + b)[1..] == a[1..] + b;
      HitsOfAppend(a[1..], b);
    }
  }

  // ---------------------------------------------------------------------
  // The segmenter against the reference.

  /** After a row loop that runs to its end, the opened events are the
      heads of the runs, the current number is the last row's, and every
      row was a sentinel or on the detector. */
  lemma RunRowsNextHeads(st: State, mode: Mode, rows: seq<Row>)
    requires RunRows(st, mode, rows).Next?
    ensures RunRows(st, mode, rows).st.heads == st.heads + Heads(st.current, rows)
    ensures RunRows(st, mode, rows).st.current == LastNumber(st.current, rows)
    ensures forall r <- rows :: Sentinel(r) || OnDetector(r.column, r.row)
  {
    RunRowsHeads(st, mode, rows);
    RunRowsOnDetector(st, mode, rows);
  }

  /** The opened events and the current number after a row loop that runs
      to its end. */
  lemma {:induction false} RunRowsHeads(st: State, mode: Mode, rows: seq<Row>)
    requires RunRows(st, mode, rows).Next?
    ensures RunRows(st, mode, rows).st.heads == st.heads + Heads(st.current, rows)
    ensures RunRows(st, mode, rows).st.current == LastNumber(st.current, rows)
    decreases |rows|
  {
    if rows != [] {
      var r, tail := rows[0], rows[1..];
      assert StepRow(st, mode, r).Next?;
      var s1 := StepRow(st, mode, r).st;
      assert RunRows(st, mode, rows) == RunRows(s1, mode, tail);
      StepRowHeads(st, mode, r);
      RunRowsHeads(s1, mode, tail);
      var started := if r.eventNumber != st.current then [r] else [];
      assert Heads(st.current, rows) == started + Heads(r.eventNumber, tail);
      SeqAssoc(st.heads, started, Heads(r.eventNumber, tail));
      assert LastNumber(r.eventNumber, tail) == LastNumber(st.current, rows);
    }
  }

  /** Every row of a row loop that runs to its end is a sentinel or on the
      detector. */
  lemma {:induction false} RunRowsOnDetector(st: State, mode: Mode, rows: seq<Row>)
    requires RunRows(st, mode, rows).Next?
    ensures forall r <- rows :: Sentinel(r) || OnDetector(r.column, r.row)
    decreases |rows|
  {
    if rows != [] {
      var r, tail := rows[0], rows[1..];
      assert StepRow(st, mode, r).Next?;
      var s1 := StepRow(st, mode, r).st;
      assert RunRows(st, mode, rows) == RunRows(s1, mode, tail);
      StepRowHeads(st, mode, r);
      RunRowsOnDetector(s1, mode, tail);
      assert rows == [r] + tail;
    }
  }

  /** A row the loop gets past appends itself to the opened events when
      it starts one, becomes the current number, and is a sentinel or on
      the detector. */
  lemma StepRowHeads(st: State, mode: Mode, r: Row)
    requires StepRow(st, mode, r).Next?
    ensures StepRow(st, mode, r).st.heads
            == st.heads + (if r.eventNumber != st.current then [r] else [])
    ensures StepRow(st, mode, r).st.current == r.eventNumber
    ensures Sentinel(r) || OnDetector(r.column, r.row)
  {
    if r.eventNumber != st.current {
      assert OpenEvent(st, mode, r).st == Opened(st, mode, r);
      assert Absorb(Opened(st, mode, r), r).Next?;
    } else {
      assert st.heads + [] == st.heads;
      assert Absorb(st, r).Next?;
    }
  }

  /** The hit groups a row loop leaves written, counting the open group:
      the groups before it, then the group of the current event (its rows
      `seg` so far plus the first run), unless no event was open and a new
      one opens, then one group per new run. */
  function Written(st: State, seg: seq<Row>, e: seq<seq<Row>>): (gs: seq<seq<Hit>>)
    requires e != []
  {
    st.groups + (if st.heads == [] && |e| > 1 then [] else [GroupHits(seg + e[0])]) + GroupsOf(e[1..])
  }

  /** The runs of a stream whose first row continues the run numbered
      `cur`. */
  lemma EventRowsContinue(cur: int, rows: seq<Row>)
    requires rows != [] && rows[0].eventNumber == cur
    ensures var rest := EventRows(rows[0].eventNumber, rows[1..]);
            EventRows(cur, rows) == [[rows[0]] + rest[0]] + rest[1..]
  {
  }

  /** The runs of a stream whose first row opens a new run. */
  lemma EventRowsOpen(cur: int, rows: seq<Row>)
    requires rows != [] && rows[0].eventNumber != cur
    ensures var rest := EventRows(rows[0].eventNumber, rows[1..]);
            EventRows(cur, rows) == [[]] + ([[rows[0]] + rest[0]] + rest[1..])
  {
  }

  /** Where the runs sit once a row opens a new one: an empty leading run,
      then the new run, then the later runs shifted by one. */
  lemma OpenedRuns(e: seq<seq<Row>>, first: seq<Row>, rest: seq<seq<Row>>)
    requires rest != [] && e == [[]] + ([first] + rest[1..])
    ensures |e| == |rest| + 1 && e[1] == first
    ensures forall k :: 1 <= k < |rest| ==> e[k + 1] == rest[k]
  {
  }

  /** Where the runs sit when a row continues the current run: the row
      joins the leading run, and the later runs keep their places. */
  lemma ContinuedRuns(e: seq<seq<Row>>, first: seq<Row>, rest: seq<seq<Row>>)
    requires rest != [] && e == [first] + rest[1..]
    ensures |e| == |rest| && e[0] == first
    ensures forall k :: 1 <= k < |rest| ==> e[k] == rest[k]
  {
  }

  /** Appending a row of the current run to `seg` shifts it from the runs
      to the open segment without changing what is written. */
  lemma WrittenShift(st: State, s1: State, rows: seq<Row>, seg: seq<Row>)
    requires rows != [] && rows[0].eventNumber == st.current
    requires s1.heads == st.heads && s1.groups == st.groups
    ensures Written(st, seg, EventRows(st.current, rows))
            == Written(s1, seg + [rows[0]], EventRows(rows[0].eventNumber, rows[1..]))
  {
    var r := rows[0];
    var rest := EventRows(r.eventNumber, rows[1..]);
    var e := EventRows(st.current, rows);
    EventRowsContinue(st.current, rows);
    assert e[0] == [r] + rest[0];
    SeqAssoc(seg, [r], rest[0]);
    assert e[1..] == rest[1..];
  }

  /** A row that opens a run turns the open segment into a written group
      (unless none was open) and starts the segment of the new run. */
  lemma WrittenClose(st: State, s1: State, rows: seq<Row>, seg: seq<Row>)
    requires rows != [] && rows[0].eventNumber != st.current
    requires s1.heads != []
    requires s1.groups == st.groups + (if st.heads == [] then [] else [GroupHits(seg)])
    ensures Written(st, seg, EventRows(st.current, rows))
            == Written(s1, [rows[0]], EventRows(rows[0].eventNumber, rows[1..]))
  {
    var r := rows[0];
    var rest := EventRows(r.eventNumber, rows[1..]);
    var e := EventRows(st.current, rows);
    EventRowsOpen(st.current, rows);
    var tail := rest[1..];
    var g := GroupHits([r] + rest[0]);
    assert e[0] == [] && |e| > 1;
    assert e[1..] == [[r] + rest[0]] + tail;
    assert GroupsOf(e[1..]) == [g] + GroupsOf(tail);
    var later := GroupsOf(tail);
    assert Written(s1, [r], rest) == s1.groups + [g] + later;
    SeqAssoc(s1.groups, [g], later);
    if st.heads == [] {
      assert Written(st, seg, e) == st.groups + [] + GroupsOf(e[1..]);
      assert st.groups + [] == st.groups == s1.groups;
    } else {
      assert seg + e[0] == seg;
      assert Written(st, seg, e) == st.groups + [GroupHits(seg)] + GroupsOf(e[1..]);
    }
  }

  lemma SeqAssoc<T>(a: seq<T>, b: seq<T>, c: seq<T>)
    ensures a + (b + c) == (a + b) + c
  {
  }

  /** A row of the current event extends its group and its run. */
  lemma WrittenContinue(st: State, mode: Mode, rows: seq<Row>, seg: seq<Row>)
    requires rows != [] && rows[0].eventNumber == st.current
    requires st.hits == GroupHits(seg) && StepRow(st, mode, rows[0]).Next?
    ensures StepRow(st, mode, rows[0]).st.hits == GroupHits(seg + [rows[0]])
    ensures StepRow(st, mode, rows[0]).st.current == rows[0].eventNumber
    ensures Written(st, seg, EventRows(st.current, rows))
            == Written(StepRow(st, mode, rows[0]).st, seg + [rows[0]], EventRows(rows[0].eventNumber, rows[1..]))
  {
    AbsorbHits(st, rows[0], seg);
    WrittenShift(st, StepRow(st, mode, rows[0]).st, rows, seg);
  }

  /** A row that opens an event closes the current group and starts a new
      one. */
  lemma WrittenOpen(st: State, mode: Mode, rows: seq<Row>, seg: seq<Row>)
    requires rows != [] && rows[0].eventNumber != st.current
    requires st.hits == GroupHits(seg) && StepRow(st, mode, rows[0]).Next?
    ensures StepRow(st, mode, rows[0]).st.hits == GroupHits([rows[0]])
    ensures StepRow(st, mode, rows[0]).st.current == rows[0].eventNumber
    ensures Written(st, seg, EventRows(st.current, rows))
            == Written(StepRow(st, mode, rows[0]).st, [rows[0]], EventRows(rows[0].eventNumber, rows[1..]))
  {
    var r := rows[0];
    var s0 := OpenEvent(st, mode, r).st;
    assert s0 == Opened(st, mode, r);
    assert s0.hits == [] == GroupHits([]);
    AbsorbHits(s0, r, []);
    assert [] + [r] == [r];
    WrittenClose(st, StepRow(st, mode, r).st, rows, seg);
  }

  /** With `seg` the rows of the current event seen so far, a row loop that
      runs to its end leaves written, with the open group last, exactly the
      `GroupHits` of the runs. */
  lemma {:induction false} RunRowsNextGroups(st: State, mode: Mode, rows: seq<Row>, seg: seq<Row>)
    requires st.hits == GroupHits(seg)
    requires RunRows(st, mode, rows).Next?
    ensures RunRows(st, mode, rows).st.groups + [RunRows(st, mode, rows).st.hits]
            == Written(st, seg, EventRows(st.current, rows))
    decreases |rows|
  {
    if rows == [] {
      assert seg + [] == seg;
    } else {
      var r, tail := rows[0], rows[1..];
      assert StepRow(st, mode, r).Next?;
      var s1 := StepRow(st, mode, r).st;
      assert RunRows(st, mode, rows) == RunRows(s1, mode, tail);
      if r.eventNumber == st.current {
        WrittenContinue(st, mode, rows, seg);
        RunRowsNextGroups(s1, mode, tail, seg + [r]);
      } else {
        WrittenOpen(st, mode, rows, seg);
        RunRowsNextGroups(s1, mode, tail, [r]);
      }
    }
  }

  /** A row loop that stops at the event limit stops at a row `rows[n]`
      that would open one event more; the loop over the rows before it
      runs to its end in the same state. */
  lemma {:induction false} RunRowsHalt(st: State, mode: Mode, rows: seq<Row>) returns (n: nat)
    requires RunRows(st, mode, rows).Halt?
    ensures n < |rows|
    ensures RunRows(st, mode, rows[..n]) == Next(RunRows(st, mode, rows).st)
    ensures rows[n].eventNumber != RunRows(st, mode, rows).st.current
    ensures LimitReached(mode, |RunRows(st, mode, rows).st.heads|)
    decreases |rows|
  {
    var r := rows[0];
    match StepRow(st, mode, r)
    case Halt(_) =>
      n := 0;
      assert rows[..0] == [];
    case Next(s1) =>
      var m := RunRowsHalt(s1, mode, rows[1..]);
      n := m + 1;
      assert rows[..n][0] == r && rows[..n][1..] == rows[1..][..m];
  }

  /** Splitting the row stream anywhere does not change the row loop. */
  lemma {:induction false} RunRowsAppend(st: State, mode: Mode, a: seq<Row>, b: seq<Row>)
    ensures RunRows(st, mode, a + b)
            == match RunRows(st, mode, a)
               case Next(s) => RunRows(s, mode, b)
               case other => other
    decreases |a|
  {
    if a == [] {
      assert a + b == b;
    } else {
      assert (a + b)[0] == a[0] && (a + b)[1..] == a[1..] + b;
      match StepRow(st, mode, a[0])
      case Next(s1) => RunRowsAppend(s1, mode, a[1..], b);
      case _ =>
    }
  }

  /** Chunk boundaries are invisible: when no chunk is too large, the chunk
      loop does exactly what the row loop does on the concatenated rows. */
  lemma {:induction false} ChunkingInvisible(st: State, mode: Mode, chunks: seq<seq<Row>>)
    requires forall c <- chunks :: |c| <= BUF_SIZE
    ensures RunChunks(st, mode, chunks) == RunRows(st, mode, Flatten(chunks))
    decreases |chunks|
  {
    if chunks != [] {
      RunRowsAppend(st, mode, chunks[0], Flatten(chunks[1..]));
      match RunRows(st, mode, chunks[0])
      case Next(s1) =>
        assert forall c <- chunks[1..] :: c in chunks;
        ChunkingInvisible(s1, mode, chunks[1..]);
      case _ =>
    }
  }

  /** Once the chunk loop stops or fails, later chunks are never looked at,
      whatever they hold. */
  lemma {:induction false} LaterChunksIgnored(st: State, mode: Mode, chunks: seq<seq<Row>>, more: seq<seq<Row>>)
    requires !RunChunks(st, mode, chunks).Next?
    ensures RunChunks(st, mode, chunks + more) == RunChunks(st, mode, chunks)
    decreases |chunks|
  {
    assert (chunks + more)[0] == chunks[0] && (chunks + more)[1..] == chunks[1..] + more;
    if |chunks[0]| <= BUF_SIZE {
      match RunRows(st, mode, chunks[0])
      case Next(s1) => LaterChunksIgnored(s1, mode, chunks[1..], more);
      case _ =>
    }
  }

  /** The chunk loop, when it does not fail, has consumed a prefix
      `Flatten(chunks)[..n]` of the rows: all of them if it ran to the end,
      or up to the row that would open one event past the limit. */
  lemma {:induction false} RunChunksConsumed(st: State, mode: Mode, chunks: seq<seq<Row>>) returns (n: nat)
    requires !RunChunks(st, mode, chunks).Fatal?
    ensures n <= |Flatten(chunks)|
    ensures RunRows(st, mode, Flatten(chunks)[..n]) == Next(RunChunks(st, mode, chunks).st)
    ensures RunChunks(st, mode, chunks).Next? ==> n == |Flatten(chunks)|
    ensures RunChunks(st, mode, chunks).Halt? ==>
              n < |Flatten(chunks)|
              && Flatten(chunks)[n].eventNumber != RunChunks(st, mode, chunks).st.current
              && LimitReached(mode, |RunChunks(st, mode, chunks).st.heads|)
    decreases |chunks|
  {
    var rows := Flatten(chunks);
    if chunks == [] {
      n := 0;
      assert rows[..0] == [];
    } else {
      var c := chunks[0];
      var tail := Flatten(chunks[1..]);
      assert rows == c + tail;
      match RunRows(st, mode, c)
      case Halt(s1) =>
        n := RunRowsHalt(st, mode, c);
        assert rows[..n] == c[..n] && rows[n] == c[n];
      case Next(s1) =>
        var m := RunChunksConsumed(s1, mode, chunks[1..]);
        n := |c| + m;
        assert rows[..n] == c + tail[..m];
        RunRowsAppend(st, mode, c, tail[..m]);
        if RunChunks(st, mode, chunks).Halt? {
          assert rows[n] == tail[m];
        }
    }
  }

  // ---------------------------------------------------------------------
  // The whole conversion.

  /** The state the chunk loop ends in from the initial state, in terms of
      the consumed rows `Flatten(chunks)[..n]`: the opened events are the
      heads of their runs, the written groups plus the open one are the
      `GroupHits` of the runs, every consumed row was a sentinel or on the
      detector, and rows are left over only when the limit was reached at
      a row that opens one event more. */
  lemma FinalState(mode: Mode, chunks: seq<seq<Row>>) returns (n: nat)
    requires !RunChunks(Initial(), mode, chunks).Fatal?
    ensures n <= |Flatten(chunks)|
    ensures var s := RunChunks(Initial(), mode, chunks).st;
            var consumed := Flatten(chunks)[..n];
            s.heads == Heads(-1, consumed)
            && s.groups + [s.hits] == ExpectedGroups(EventRows(-1, consumed))
            && (forall r <- consumed :: Sentinel(r) || OnDetector(r.column, r.row))
            && (n < |Flatten(chunks)| ==>
                  Flatten(chunks)[n].eventNumber != LastNumber(-1, consumed)
                  && LimitReached(mode, |s.heads|))
  {
    var s := RunChunks(Initial(), mode, chunks).st;
    n := RunChunksConsumed(Initial(), mode, chunks);
    var consumed := Flatten(chunks)[..n];
    assert Initial().hits == GroupHits([]);
    RunRowsNextHeads(Initial(), mode, consumed);
    RunRowsNextGroups(Initial(), mode, consumed, []);
    var e := EventRows(-1, consumed);
    assert [] + e[0] == e[0];
    assert [] + s.heads == s.heads;
  }

  /** What a successful conversion produced, in terms of the consumed rows
      `Flatten(chunks)[..n]`: the returned count is the number of runs, the
      hit groups are exactly the `GroupHits` of the runs, every consumed row
      was a sentinel or on the detector; author mode wrote one record per
      run from the run's first row, verifier mode found each run's number in
      the Event table at the same position; and if rows are left over, the
      limit was reached and the first of them would have opened one event
      more. */
  lemma Conversion(chunks: seq<seq<Row>>, fillEvent: bool, maxEvents: i64,
                   eventTable: Option<seq<EventRecord>>) returns (n: nat)
    requires Convert(chunks, fillEvent, maxEvents, eventTable).Ok?
    ensures n <= |Flatten(chunks)|
    ensures var out := Convert(chunks, fillEvent, maxEvents, eventTable).value;
            var consumed := Flatten(chunks)[..n];
            out.count == |Heads(-1, consumed)|
            && out.groups == ExpectedGroups(EventRows(-1, consumed))
            && (forall r <- consumed :: Sentinel(r) || OnDetector(r.column, r.row))
            && (fillEvent ==> out.events == AuthoredAll(Heads(-1, consumed)))
            && (!fillEvent ==>
                  out.count == |eventTable.value| &&
                  forall k :: 0 <= k < out.count ==>
                    eventTable.value[k].frameNumber == ToU64(Heads(-1, consumed)[k].eventNumber))
            && (n < |Flatten(chunks)| ==>
                  Flatten(chunks)[n].eventNumber != LastNumber(-1, consumed)
                  && (if fillEvent then maxEvents > 0 && out.count == maxEvents
                      else out.count == |eventTable.value|))
  {
    var mode := SelectMode(fillEvent, maxEvents, eventTable).value;
    InitialInv(mode);
    RunChunksInv(Initial(), mode, chunks);
    ConvertOutcome(chunks, fillEvent, maxEvents, eventTable);
    var s := RunChunks(Initial(), mode, chunks).st;
    n := FinalState(mode, chunks);
    var out := Convert(chunks, fillEvent, maxEvents, eventTable).value;
    assert out == Output(s.events, s.groups + [s.hits], |s.heads|);
  }

  /** Author mode: the records written are those of the runs of the whole
      stream, each from its run's first row, up to `maxEvents` of them when
      that is positive. */
  lemma AuthorModeEvents(chunks: seq<seq<Row>>, maxEvents: i64)
    requires Convert(chunks, true, maxEvents, None).Ok?
    ensures var out := Convert(chunks, true, maxEvents, None).value;
            var hs := Heads(-1, Flatten(chunks));
            out.count == (if maxEvents > 0 && |hs| > maxEvents then maxEvents as int else |hs|)
            && |out.events| == out.count
            && forall k :: 0 <= k < out.count ==>
                 out.events[k].frameNumber == ToU64(hs[k].eventNumber)
                 && out.events[k].timeStamp == hs[k].triggerTimeStamp
                 && out.events[k].triggerOffset == 0 && out.events[k].triggerInfo == 0
                 && out.events[k].invalid == HasUnknownWord(hs[k].eventStatus)
  {
    var n := Conversion(chunks, true, maxEvents, None);
    ConvertOutcome(chunks, true, maxEvents, None);
    StreamHeads(chunks, n);
    var out := Convert(chunks, true, maxEvents, None).value;
    AuthoredPrefix(out.events, Heads(-1, Flatten(chunks)[..n]), Heads(-1, Flatten(chunks)));
  }

  /** The records authored for a prefix of the heads describe, position by
      position, the heads of the whole stream. */
  lemma AuthoredPrefix(events: seq<EventRecord>, started: seq<Row>, hs: seq<Row>)
    requires events == AuthoredAll(started)
    requires |started| <= |hs| && hs[..|started|] == started
    ensures forall k :: 0 <= k < |events| ==>
              events[k].frameNumber == ToU64(hs[k].eventNumber)
              && events[k].timeStamp == hs[k].triggerTimeStamp
              && events[k].triggerOffset == 0 && events[k].triggerInfo == 0
              && events[k].invalid == HasUnknownWord(hs[k].eventStatus)
  {
    assert forall k :: 0 <= k < |started| ==> started[k] == hs[k];
  }

  /** The heads of the whole stream begin with those of a consumed prefix;
      when rows are left over whose first row opens a new run, there are
      more of them. */
  lemma StreamHeads(chunks: seq<seq<Row>>, n: nat)
    requires n <= |Flatten(chunks)|
    ensures var rows := Flatten(chunks);
            var hs := Heads(-1, rows[..n]);
            |hs| <= |Heads(-1, rows)| && Heads(-1, rows)[..|hs|] == hs
            && (n < |rows| && rows[n].eventNumber != LastNumber(-1, rows[..n]) ==>
                  |hs| < |Heads(-1, rows)|)
            && (n == |rows| ==> hs == Heads(-1, rows))
  {
    var rows := Flatten(chunks);
    assert rows == rows[..n] + rows[n..];
    HeadsAppend(-1, rows[..n], rows[n..]);
  }

  /** Verifier mode: a successful run matched exactly as many events as the
      Event table holds, and each record's frame number is the number of
      the run at the same position of the stream. */
  lemma VerifierModeEvents(chunks: seq<seq<Row>>, maxEvents: i64, records: seq<EventRecord>)
    requires Convert(chunks, false, maxEvents, Some(records)).Ok?
    ensures var out := Convert(chunks, false, maxEvents, Some(records)).value;
            var hs := Heads(-1, Flatten(chunks));
            out.count == |records| <= |hs| && out.events == []
            && forall k :: 0 <= k < |records| ==> records[k].frameNumber == ToU64(hs[k].eventNumber)
  {
    var n := Conversion(chunks, false, maxEvents, Some(records));
    ConvertOutcome(chunks, false, maxEvents, Some(records));
    StreamHeads(chunks, n);
  }

  /** Verifier mode, "missing events": the stream ran out after fewer runs
      than the Event table holds, the shortfall is the difference, and the
      runs it had all matched. */
  lemma MissingEventsShortfall(chunks: seq<seq<Row>>, maxEvents: i64, records: seq<EventRecord>)
    requires Convert(chunks, false, maxEvents, Some(records)).Err?
    requires Convert(chunks, false, maxEvents, Some(records)).error.MissingEvents?
    ensures var hs := Heads(-1, Flatten(chunks));
            |hs| < |records|
            && Convert(chunks, false, maxEvents, Some(records)).error.shortfall == |records| - |hs|
            && forall k :: 0 <= k < |hs| ==> records[k].frameNumber == ToU64(hs[k].eventNumber)
  {
    var mode := Verifier(records);
    InitialInv(mode);
    RunChunksInv(Initial(), mode, chunks);
    RunChunksErrors(Initial(), mode, chunks);
    var s := RunChunks(Initial(), mode, chunks).st;
    var n := RunChunksConsumed(Initial(), mode, chunks);
    RunRowsNextHeads(Initial(), mode, Flatten(chunks)[..n]);
    assert Flatten(chunks)[..n] == Flatten(chunks);
  }

  /** Verifier mode: if the Event table and the stream disagree on the
      number of the k-th event, for a k both of them have, the conversion
      fails, and not because of missing events. */
  lemma MismatchIsFatal(chunks: seq<seq<Row>>, maxEvents: i64, records: seq<EventRecord>, k: nat)
    requires k < |records| && k < |Heads(-1, Flatten(chunks))|
    requires records[k].frameNumber != ToU64(Heads(-1, Flatten(chunks))[k].eventNumber)
    ensures Convert(chunks, false, maxEvents, Some(records)).Err?
    ensures !Convert(chunks, false, maxEvents, Some(records)).error.MissingEvents?
  {
    var r := Convert(chunks, false, maxEvents, Some(records));
    if r.Ok? {
      VerifierModeEvents(chunks, maxEvents, records);
    } else if r.error.MissingEvents? {
      MissingEventsShortfall(chunks, maxEvents, records);
    }
  }

  /** An empty stream: author mode writes no record and one empty hit
      group and returns 0; verifier mode misses every record of the table. */
  lemma EmptyStream(maxEvents: i64, records: seq<EventRecord>)
    requires records != []
    ensures Convert([], true, maxEvents, None) == Ok(Output([], [[]], 0))
    ensures Convert([], false, maxEvents, Some(records)) == Err(MissingEvents(|records|))
  {
    var none: seq<seq<Hit>> := [];
    assert Initial().groups + [Initial().hits] == none + [[]] == [[]];
  }
}
