/** What one batch delivers, whatever the environment did between its reads. */
module Call {
  import opened Outcomes
  import opened Rows
  import opened Source
  import opened Schema
  import opened Dblog
  import Order
  import Lsn

  /**
   A page of at most limit rows from start on. It is not a snapshot: every key of the table is
   read at an instant of its own, anywhere between the two watermarks.
   */
  ghost predicate PageOf(
    log: seq<Row>, at: Key -> int, from: int, to: int, start: Option<int>, limit: int, page: Page)
  {
    && (forall key: Key :: from <= at(key) <= to)
    && |page| <= limit
    && Sorted(page)
    && (forall row | row in page ::
          InRange(row.key, start, None) && Get(TableAt(log, at(row.key)), row.key) == Some(row.image))
    && (forall key: Key | InRange(key, start, None) && key in TableAt(log, at(key)) ::
          Reads(page, key) || (|page| == limit && |page| > 0 && Order.Less(page[|page| - 1].key, key)))
  }

  predicate Reads(page: Page, key: Key) {
    exists row | row in page :: row.key == key
  }

  /** The reads of a call happen one after another, on a source that only evolves. */
  ghost predicate Chronological(before: Source, m: Moments) {
    && Valid(before) && Valid(m.inspect) && Valid(m.floor) && Valid(m.seed) && Valid(m.low)
    && Valid(m.high) && Valid(m.await) && Valid(m.max) && Valid(m.log)
    && Evolves(before, m.inspect) && Evolves(m.inspect, m.floor) && Evolves(m.floor, m.seed)
    && Evolves(m.seed, m.low) && Evolves(m.low, m.high) && Evolves(m.high, m.await)
    && Evolves(m.await, m.max) && Evolves(m.max, m.log)
  }

  lemma ChronologyBounds(before: Source, m: Moments)
    requires Chronological(before, m)
    ensures before.captured <= m.max.captured <= m.log.captured <= m.log.end
    ensures before.end <= m.low.end <= m.log.end
    ensures m.floor.floor <= m.low.end && m.seed.captured <= m.low.end
    ensures Evolves(m.max, m.log) && Valid(m.max) && Valid(m.log)
  {
  }

  lemma ChronologyReaches(before: Source, m: Moments)
    requires Chronological(before, m)
    ensures Evolves(before, m.seed) && Evolves(before, m.low) && Evolves(before, m.max) && Evolves(before, m.log)
    ensures Evolves(m.seed, m.max) && Evolves(m.low, m.log) && Evolves(m.high, m.max) && Evolves(m.high, m.log)
  {
    EvolvesIsTransitive(before, m.inspect, m.floor);
    EvolvesIsTransitive(before, m.floor, m.seed);
    EvolvesIsTransitive(before, m.seed, m.low);
    EvolvesIsTransitive(m.high, m.await, m.max);
    EvolvesIsTransitive(m.high, m.max, m.log);
    EvolvesIsTransitive(m.low, m.high, m.log);
    EvolvesIsTransitive(m.low, m.high, m.max);
    EvolvesIsTransitive(m.seed, m.low, m.max);
    EvolvesIsTransitive(before, m.low, m.max);
    EvolvesIsTransitive(before, m.low, m.log);
  }

  /** Cleanup has not overtaken the window since the retention check, or the server would refuse it. */
  ghost predicate Retained(m: Moments, state: RunState) {
    m.log.guarded || m.log.floor <= state.lastLsn
  }

  /** What the connector and the server promise a batch that starts from this state. */
  ghost predicate Legal(before: Source, m: Moments, at: Key -> int, state: RunState, chunkSize: int) {
    && Chronological(before, m)
    && Retained(m, state)
    && (!state.dumpDone ==>
          && UniqueLeads(m.log.log)
          && PageOf(m.high.log, at, m.low.end, m.high.end, state.chunkKey, chunkSize, m.page))
  }

  // ---- the window ----

  /** A window, and the state past it: the log from the old position to the new one, exactly. */
  ghost predicate WindowRead(m: Moments, state: RunState, window: Option<Frame>, next: RunState) {
    && RowsOf(window) == EventsIn(m.log.log, state.lastLsn, next.lastLsn - 1)
    && Windowed(m, state, next)
    && next == state.(lastLsn := next.lastLsn)
    && (window.Some? ==> window.value.rows != [] && EventSchema(state.spec) == Success(window.value.schema))
  }

  predicate Windowed(m: Moments, state: RunState, next: RunState) {
    && state.lastLsn <= next.lastLsn && m.max.captured < next.lastLsn
    && (next.lastLsn == state.lastLsn || next.lastLsn == m.max.captured + 1 <= Lsn.MAX)
  }

  /**
   Whatever get_max_lsn answers, the window read is exactly the log between the old position and
   the new one, and nothing captured by then is left behind the new position.
   */
  lemma WindowIsTheLogBetween(m: Moments, state: RunState)
    requires Valid(m.max) && Valid(m.log) && Evolves(m.max, m.log)
    requires Retained(m, state)
    requires ReadWindow(m, state).Success?
    ensures WindowRead(m, state, ReadWindow(m, state).value.0, ReadWindow(m, state).value.1)
  {
    if state.lastLsn > m.max.captured {
      NoneInBackwardWindow(m.log.log, state.lastLsn, state.lastLsn - 1);
    }
  }

  // ---- the whole batch ----

  /** The shape of a batch: the window's events in log order, then the surviving chunk rows. */
  ghost predicate Shaped(m: Moments, state: RunState, chunkSize: int, r: BatchResult) {
    && Windowed(m, state, r.state)
    && (if state.dumpDone then
          && RowsOf(r.frame) == Window(m, state, r)
          && r.state == state.(lastLsn := r.state.lastLsn)
        else
          && RowsOf(r.frame) == Window(m, state, r)
               + Stamped(AntiJoin(m.page, Window(m, state, r)), MaskWidth(state.spec), m.low.clock)
          && AwaitWatermark(m.await, m.high.clock).Success?
          && Paged(m.page, state, chunkSize, r.state))
    && (r.frame.Some? ==> r.frame.value.rows != [] && EventSchema(state.spec) == Success(r.frame.value.schema))
    && (r.frame.None? ==> r.state.dumpDone)
  }

  ghost function Window(m: Moments, state: RunState, r: BatchResult): seq<Row> {
    EventsIn(m.log.log, state.lastLsn, r.state.lastLsn - 1)
  }

  /** Where a page leaves the walk: one past its last leading key, done when it came short. */
  predicate Paged(page: Page, state: RunState, chunkSize: int, next: RunState) {
    && next == state.(lastLsn := next.lastLsn, chunkKey := next.chunkKey, dumpDone := |page| < chunkSize)
    && (page == [] ==> next.chunkKey == state.chunkKey)
    && (page != [] ==> DistinctLeads(page) && next.chunkKey == Some(Lead(page[|page| - 1].key) + 1))
  }

  lemma BatchIsShaped(m: Moments, state: RunState, chunkSize: int)
    requires Valid(m.max) && Valid(m.log) && Evolves(m.max, m.log)
    requires Retained(m, state) && 0 < chunkSize
    requires Batch(m, state, chunkSize).Success?
    ensures Shaped(m, state, chunkSize, Batch(m, state, chunkSize).value)
  {
    if state.dumpDone {
      TailIsShaped(m, state, chunkSize);
    } else {
      var paged, window, next := DumpUnfolds(m, state, chunkSize);
      WindowIsTheLogBetween(m, paged);
      DumpIsShaped(m, state, chunkSize, paged, window, next, Batch(m, state, chunkSize).value);
    }
  }

  lemma TailIsShaped(m: Moments, state: RunState, chunkSize: int)
    requires Valid(m.max) && Valid(m.log) && Evolves(m.max, m.log)
    requires Retained(m, state) && state.dumpDone
    requires Batch(m, state, chunkSize).Success?
    ensures Shaped(m, state, chunkSize, Batch(m, state, chunkSize).value)
  {
    WindowIsTheLogBetween(m, state);
  }

  /** A dump batch, read by read: the page, the barrier, the window, and what they make together. */
  lemma DumpUnfolds(m: Moments, state: RunState, chunkSize: int)
    returns (paged: RunState, window: Option<Frame>, next: RunState)
    requires !state.dumpDone && 0 < chunkSize && Batch(m, state, chunkSize).Success?
    ensures Paged(m.page, state, chunkSize, paged) && paged.lastLsn == state.lastLsn
    ensures AwaitWatermark(m.await, m.high.clock).Success?
    ensures ReadWindow(m, paged) == Success((window, next))
    ensures Merges(m.page, window, m.low.clock, next, Batch(m, state, chunkSize).value)
  {
    PageIsShaped(m.page, state, chunkSize);
    paged := NextChunk(m.page, state, chunkSize).value.1;
    window := ReadWindow(m, paged).value.0;
    next := ReadWindow(m, paged).value.1;
  }

  ghost predicate Merges(page: Page, window: Option<Frame>, low: int, next: RunState, r: BatchResult) {
    && (page == [] ==> r == BatchResult(window, next))
    && (page != [] ==>
          && MergeChunk(page, window, low, next.spec).Success?
          && r == BatchResult(Some(MergeChunk(page, window, low, next.spec).value), next))
  }

  lemma DumpIsShaped(
    m: Moments, state: RunState, chunkSize: int, paged: RunState, window: Option<Frame>, next: RunState, r: BatchResult)
    requires !state.dumpDone && 0 < chunkSize
    requires Paged(m.page, state, chunkSize, paged) && paged.lastLsn == state.lastLsn
    requires AwaitWatermark(m.await, m.high.clock).Success?
    requires WindowRead(m, paged, window, next)
    requires Merges(m.page, window, m.low.clock, next, r)
    ensures Shaped(m, state, chunkSize, r)
  {
    assert r.state == next && Paged(m.page, state, chunkSize, r.state);
    MergedIsShaped(m.page, window, Window(m, state, r), m.low.clock, state.spec, next, r);
  }

  lemma MergedIsShaped(
    page: Page, window: Option<Frame>, rows: seq<Row>, low: int, spec: Catalog.TableSpec,
    next: RunState, r: BatchResult)
    requires next.spec == spec && Merges(page, window, low, next, r) && rows == RowsOf(window)
    requires window.Some? ==> window.value.rows != [] && EventSchema(spec) == Success(window.value.schema)
    ensures RowsOf(r.frame) == rows + Stamped(AntiJoin(page, rows), MaskWidth(spec), low)
    ensures r.frame.Some? ==> r.frame.value.rows != [] && EventSchema(spec) == Success(r.frame.value.schema)
    ensures r.frame.None? ==> page == []
  {
    if page == [] {
      var nothing := Stamped(AntiJoin(page, rows), MaskWidth(spec), low);
      assert rows + nothing == rows;
    } else {
      MergedShape(page, window, low, spec);
    }
  }

  lemma PageIsShaped(page: Page, state: RunState, chunkSize: int)
    requires 0 < chunkSize && NextChunk(page, state, chunkSize).Success?
    ensures
      var (chunk, paged) := NextChunk(page, state, chunkSize).value;
      && Paged(page, state, chunkSize, paged) && paged.lastLsn == state.lastLsn
      && chunk == (if page == [] then None else Some(page))
  {
  }

  lemma MergedShape(chunk: Page, window: Option<Frame>, low: int, spec: Catalog.TableSpec)
    requires MergeChunk(chunk, window, low, spec).Success? && chunk != []
    requires window.Some? ==> EventSchema(spec) == Success(window.value.schema)
    ensures
      var merged := MergeChunk(chunk, window, low, spec).value;
      && merged.rows == RowsOf(window) + Stamped(AntiJoin(chunk, RowsOf(window)), MaskWidth(spec), low)
      && merged.rows != []
      && EventSchema(spec) == Success(merged.schema)
  {
    var at := SupersedeRefinesAntiJoin(chunk, window);
    MergedHalvesCommute(chunk, window, low, spec, map[]);
    if RowsOf(window) == [] {
      assert chunk[0] in chunk && !Mentions([], chunk[0].key);
      assert |Supersede(chunk, window)| == |chunk|;
    }
  }

  // ---- the chunk ----
  //
  // Below, [from, to) is the window a batch read, and low and high are where the database stood at
  // its two watermarks.

  /** Everything the high watermark could have seen lies before the window's closing position. */
  ghost predicate Closed(log: seq<Row>, high: int, to: int) {
    forall r | r in log && r.lsn <= high :: r.lsn < to
  }

  /** The barrier: after await_watermark, the window closes past everything committed by the mark. */
  lemma BarrierCloses(before: Source, m: Moments, to: int)
    requires Chronological(before, m)
    requires AwaitWatermark(m.await, m.high.clock).Success?
    requires m.max.captured < to
    ensures Closed(m.log.log, m.high.end, to)
  {
    ChronologyReaches(before, m);
    forall r | r in m.log.log && r.lsn <= m.high.end
      ensures r.lsn < to
    {
      var i :| 0 <= i < |m.log.log| && m.log.log[i] == r;
      assert i < |m.high.log|;
      assert m.high.log[i] == r && r in m.high.log;
      assert m.await.log[i] == r && r in m.await.log;
    }
  }

  /** The positions from just before the window opened to its close or the high watermark. */
  predicate Bracketed(from: int, high: int, to: int, position: int) {
    from - 1 <= position && (position < to || position <= high)
  }

  /** A key the window does not carry has one value over the whole bracket. */
  lemma UncarriedKeyIsSteady(log: seq<Row>, from: int, high: int, to: int, position: int, key: Key)
    requires Ordered(log) && Closed(log, high, to)
    requires 0 <= from <= to && Bracketed(from, high, to, position)
    requires !Mentions(EventsIn(log, from, to - 1), key)
    ensures Get(TableAt(log, position), key) == Get(TableAt(log, from - 1), key)
  {
    EventsInMembers(log, from, position);
    EventsInMembers(log, from, to - 1);
    assert !Mentions(EventsIn(log, from, position), key);
    UntouchedIsConstant(log, from - 1, position, key);
  }

  /**
   A chunk row the window does not supersede held its value at every position of the bracket,
   although each row of the page was read at its own instant between the watermarks.
   */
  lemma SurvivorIsStable(
    log: seq<Row>, at: Key -> int, low: int, high: int, from: int, to: int,
    start: Option<int>, limit: int, page: Page, row: TableRow<Image>, position: int)
    requires Ordered(log) && Closed(log, high, to)
    requires 0 <= from <= to && from - 1 <= low
    requires PageOf(log, at, low, high, start, limit, page)
    requires row in page && !Mentions(EventsIn(log, from, to - 1), row.key)
    requires Bracketed(from, high, to, position)
    ensures Get(TableAt(log, position), row.key) == Some(row.image)
  {
    UncarriedKeyIsSteady(log, from, high, to, at(row.key), row.key);
    UncarriedKeyIsSteady(log, from, high, to, position, row.key);
  }

  /** A key of the table, in the page's range and not in the window, is read or lies past the page. */
  lemma UnreadIsPastThePage(
    log: seq<Row>, at: Key -> int, low: int, high: int, from: int, to: int,
    start: Option<int>, limit: int, page: Page, key: Key)
    requires Ordered(log) && Closed(log, high, to)
    requires 0 <= from <= to && from - 1 <= low
    requires PageOf(log, at, low, high, start, limit, page)
    requires InRange(key, start, None) && key in TableAt(log, from - 1)
    requires !Mentions(EventsIn(log, from, to - 1), key)
    ensures Reads(page, key) || (|page| == limit && |page| > 0 && Order.Less(page[|page| - 1].key, key))
  {
    UncarriedKeyIsSteady(log, from, high, to, at(key), key);
    assert Get(TableAt(log, at(key)), key).Some?;
  }

  /** With leading keys unique, nothing that lies past the page shares the leading key it ended on. */
  lemma PastThePageIsPastItsLead(
    log: seq<Row>, at: Key -> int, low: int, high: int, from: int, to: int,
    start: Option<int>, limit: int, page: Page, key: Key)
    requires Ordered(log) && Closed(log, high, to) && UniqueLeads(log)
    requires 0 <= from <= to && from - 1 <= low
    requires PageOf(log, at, low, high, start, limit, page)
    requires key in TableAt(log, from - 1)
    requires !Mentions(EventsIn(log, from, to - 1), key)
    requires |page| > 0 && Order.Less(page[|page| - 1].key, key)
    ensures Lead(page[|page| - 1].key) < Lead(key)
  {
    var last := page[|page| - 1];
    assert last in page;
    UncarriedKeyIsSteady(log, from, high, to, at(last.key), key);
    assert Get(TableAt(log, at(last.key)), last.key).Some?;
    assert Get(TableAt(log, at(last.key)), key).Some?;
    LeadFollowsOrder(last.key, key);
    Order.LessIsTotal(last.key, key);
  }

  // ---- what a batch delivers ----

  /** The page still answers for its range in every later log. */
  lemma PageStaysTrue(before: Source, m: Moments, at: Key -> int, start: Option<int>, limit: int)
    requires Chronological(before, m)
    requires PageOf(m.high.log, at, m.low.end, m.high.end, start, limit, m.page)
    ensures PageOf(m.log.log, at, m.low.end, m.high.end, start, limit, m.page)
  {
    ChronologyReaches(before, m);
    forall position | position <= m.high.end
      ensures TableAt(m.high.log, position) == TableAt(m.log.log, position)
    {
      EvolutionKeepsWindow(m.high, m.log, 0, position);
    }
  }

  /** Keys a state's walk has gone past. */
  predicate Walked(state: RunState, key: Key) {
    state.dumpDone || (state.chunkKey.Some? && Lead(key) < state.chunkKey.value)
  }

  /** The walk only goes forward, past every row of the page, and never comes back from done. */
  lemma WalkAdvances(page: Page, state: RunState, chunkSize: int, next: RunState)
    requires Sorted(page) && 0 < chunkSize && !state.dumpDone
    requires forall row | row in page :: InRange(row.key, state.chunkKey, None)
    requires Paged(page, state, chunkSize, next)
    ensures forall key: Key :: Walked(state, key) ==> Walked(next, key)
    ensures forall row | row in page :: Walked(next, row.key)
    ensures state.chunkKey.Some? ==> next.chunkKey.Some? && state.chunkKey.value <= next.chunkKey.value
  {
    if page != [] {
      var last := page[|page| - 1];
      assert last in page;
      forall row | row in page
        ensures Lead(row.key) <= Lead(last.key)
      {
        var i :| 0 <= i < |page| && page[i] == row;
        if i < |page| - 1 {
          LeadFollowsOrder(row.key, last.key);
        }
      }
    }
  }

  /** Dump rows that carry the table's value before the window, under keys the window leaves alone. */
  ghost predicate Survivors(log: seq<Row>, state: RunState, next: RunState, dumped: seq<Row>) {
    forall r | r in dumped :: !state.dumpDone && SurvivorRow(log, state, next, r)
  }

  ghost predicate SurvivorRow(log: seq<Row>, state: RunState, next: RunState, r: Row) {
    && r.op.Dump? && r.lsn == 0 && r.seqval == 0
    && !Mentions(EventsIn(log, state.lastLsn, next.lastLsn - 1), r.key)
    && Get(TableAt(log, state.lastLsn - 1), r.key) == Some(r.image)
    && Walked(next, r.key)
  }

  /** Every key the walk newly went past, in the table and not in the window, is dumped. */
  ghost predicate NoneMissed(log: seq<Row>, state: RunState, next: RunState, dumped: seq<Row>) {
    forall key: Key | Walked(next, key) && !Walked(state, key) ::
      key in TableAt(log, state.lastLsn - 1)
      && !Mentions(EventsIn(log, state.lastLsn, next.lastLsn - 1), key)
      ==> Mentions(dumped, key)
  }

  /**
   A batch delivers the log between the old position and the new one, in order, and then dump rows
   that are stable survivors and miss nothing, whatever happened between its reads.
   */
  ghost predicate Delivers(
    log: seq<Row>, state: RunState, next: RunState, rows: seq<Row>, dumped: seq<Row>)
  {
    && rows == EventsIn(log, state.lastLsn, next.lastLsn - 1) + dumped
    && state.lastLsn <= next.lastLsn
    && Survivors(log, state, next, dumped)
    && NoneMissed(log, state, next, dumped)
    && (forall key: Key :: Walked(state, key) ==> Walked(next, key))
    && (state.dumpDone ==> next.dumpDone)
  }

  lemma BatchDelivers(
    before: Source, m: Moments, at: Key -> int, state: RunState, chunkSize: int, r: BatchResult)
    returns (dumped: seq<Row>)
    requires Legal(before, m, at, state, chunkSize) && 0 < chunkSize
    requires state.lastLsn <= m.low.end + 1
    requires Batch(m, state, chunkSize) == Success(r)
    ensures Delivers(m.log.log, state, r.state, RowsOf(r.frame), dumped)
    ensures Shaped(m, state, chunkSize, r)
    ensures before.captured <= r.state.lastLsn - 1 <= m.log.end
    ensures r.state.lastLsn != state.lastLsn ==> r.state.lastLsn - 1 <= m.log.captured
  {
    ChronologyBounds(before, m);
    BatchIsShaped(m, state, chunkSize);
    if state.dumpDone {
      dumped := [];
      TailDelivers(m.log.log, state, r.state, RowsOf(r.frame));
    } else {
      BarrierCloses(before, m, r.state.lastLsn);
      PageStaysTrue(before, m, at, state.chunkKey, chunkSize);
      PageStandsInTheLog(m.log.log, at, m.low.end, m.high.end, chunkSize, m.page, state, r.state);
      dumped := ShapedDelivers(m, state, chunkSize, r);
    }
  }

  lemma ShapedDelivers(m: Moments, state: RunState, chunkSize: int, r: BatchResult) returns (dumped: seq<Row>)
    requires !state.dumpDone && Shaped(m, state, chunkSize, r)
    requires PageStands(m.log.log, state, r.state, m.page)
    ensures Delivers(m.log.log, state, r.state, RowsOf(r.frame), dumped)
  {
    var chunk;
    chunk, dumped := ShapedDump(m, state, chunkSize, r);
    DumpDelivers(m.log.log, m.page, state, r.state, chunk, dumped, RowsOf(r.frame));
  }

  /** The surviving chunk rows of a batch, as a set, and the rows stamped from them. */
  lemma ShapedDump(m: Moments, state: RunState, chunkSize: int, r: BatchResult)
    returns (chunk: Page, dumped: seq<Row>)
    requires !state.dumpDone && Shaped(m, state, chunkSize, r)
    ensures Remains(m.page, EventsIn(m.log.log, state.lastLsn, r.state.lastLsn - 1), chunk)
    ensures StampedFrom(dumped, chunk)
    ensures RowsOf(r.frame) == EventsIn(m.log.log, state.lastLsn, r.state.lastLsn - 1) + dumped
    ensures Paged(m.page, state, chunkSize, r.state) && state.lastLsn <= r.state.lastLsn
  {
    chunk := AntiJoin(m.page, Window(m, state, r));
    AntiJoinMembers(m.page, Window(m, state, r));
    dumped := Stamped(chunk, MaskWidth(state.spec), m.low.clock);
  }

  /** The rows of a page whose key a window does not carry */
  ghost predicate Remains(page: Page, window: seq<Row>, chunk: Page) {
    forall row :: row in chunk <==> row in page && !Mentions(window, row.key)
  }

  lemma TailDelivers(log: seq<Row>, state: RunState, next: RunState, rows: seq<Row>)
    requires state.dumpDone && next.dumpDone && state.lastLsn <= next.lastLsn
    requires rows == EventsIn(log, state.lastLsn, next.lastLsn - 1)
    ensures Delivers(log, state, next, rows, [])
  {
    assert rows + [] == rows;
  }

  /** Each row stamped as read off the table: all-zero LSN columns, the dump operation. */
  predicate StampedFrom(dumped: seq<Row>, chunk: Page) {
    && |dumped| == |chunk|
    && forall i | 0 <= i < |chunk| ::
         && dumped[i].op.Dump? && dumped[i].lsn == 0 && dumped[i].seqval == 0
         && dumped[i].key == chunk[i].key && dumped[i].image == chunk[i].image
  }

  lemma DumpDelivers(
    log: seq<Row>, page: Page, state: RunState, next: RunState, chunk: Page, dumped: seq<Row>, rows: seq<Row>)
    requires state.lastLsn <= next.lastLsn && !state.dumpDone
    requires PageStands(log, state, next, page)
    requires Remains(page, EventsIn(log, state.lastLsn, next.lastLsn - 1), chunk)
    requires StampedFrom(dumped, chunk)
    requires rows == EventsIn(log, state.lastLsn, next.lastLsn - 1) + dumped
    ensures Delivers(log, state, next, rows, dumped)
  {
    DumpedSurvive(log, page, state, next, chunk, dumped);
    DumpMissesNone(log, page, state, next, chunk, dumped);
  }

  lemma DumpedSurvive(
    log: seq<Row>, page: Page, state: RunState, next: RunState, chunk: Page, dumped: seq<Row>)
    requires !state.dumpDone && PageStands(log, state, next, page)
    requires Remains(page, EventsIn(log, state.lastLsn, next.lastLsn - 1), chunk)
    requires StampedFrom(dumped, chunk)
    ensures Survivors(log, state, next, dumped)
  {
    forall r | r in dumped
      ensures SurvivorRow(log, state, next, r)
    {
      var i :| 0 <= i < |dumped| && dumped[i] == r;
      assert chunk[i] in chunk;
      assert RowStands(log, state, next, chunk[i]);
    }
  }

  lemma DumpMissesNone(
    log: seq<Row>, page: Page, state: RunState, next: RunState, chunk: Page, dumped: seq<Row>)
    requires PageStands(log, state, next, page)
    requires Remains(page, EventsIn(log, state.lastLsn, next.lastLsn - 1), chunk)
    requires StampedFrom(dumped, chunk)
    ensures NoneMissed(log, state, next, dumped)
  {
    forall key: Key |
      && Walked(next, key) && !Walked(state, key) && key in TableAt(log, state.lastLsn - 1)
      && !Mentions(EventsIn(log, state.lastLsn, next.lastLsn - 1), key)
      ensures Mentions(dumped, key)
    {
      var row :| row in page && row.key == key;
      var i :| 0 <= i < |chunk| && chunk[i] == row;
      assert dumped[i] in dumped;
    }
  }

  /**
   What a page is worth once its window is known: rows the window does not carry are the table's from
   before the window, and no such row of the stretch the page walked is missing from it.
   */
  ghost predicate PageStands(log: seq<Row>, state: RunState, next: RunState, page: Page) {
    && (forall row | row in page :: RowStands(log, state, next, row))
    && (forall key: Key |
          && Walked(next, key) && !Walked(state, key) && key in TableAt(log, state.lastLsn - 1)
          && !Mentions(EventsIn(log, state.lastLsn, next.lastLsn - 1), key) ::
          Reads(page, key))
    && (forall key: Key :: Walked(state, key) ==> Walked(next, key))
  }

  ghost predicate RowStands(log: seq<Row>, state: RunState, next: RunState, row: TableRow<Image>) {
    && Walked(next, row.key)
    && (!Mentions(EventsIn(log, state.lastLsn, next.lastLsn - 1), row.key) ==>
          Get(TableAt(log, state.lastLsn - 1), row.key) == Some(row.image))
  }

  lemma PageStandsInTheLog(
    log: seq<Row>, at: Key -> int, low: int, high: int, chunkSize: int, page: Page, state: RunState, next: RunState)
    requires Ordered(log) && Closed(log, high, next.lastLsn) && UniqueLeads(log)
    requires state.lastLsn <= next.lastLsn && state.lastLsn - 1 <= low && !state.dumpDone && 0 < chunkSize
    requires PageOf(log, at, low, high, state.chunkKey, chunkSize, page)
    requires Paged(page, state, chunkSize, next)
    ensures PageStands(log, state, next, page)
  {
    WalkAdvances(page, state, chunkSize, next);
    forall row | row in page
      ensures RowStands(log, state, next, row)
    {
      RowStandsInTheLog(log, at, low, high, chunkSize, page, state, next, row);
    }
    forall key: Key |
      && Walked(next, key) && !Walked(state, key) && key in TableAt(log, state.lastLsn - 1)
      && !Mentions(EventsIn(log, state.lastLsn, next.lastLsn - 1), key)
      ensures Reads(page, key)
    {
      DumpMissesNot(log, at, low, high, chunkSize, page, state, next, key);
    }
  }

  lemma RowStandsInTheLog(
    log: seq<Row>, at: Key -> int, low: int, high: int, chunkSize: int, page: Page,
    state: RunState, next: RunState, row: TableRow<Image>)
    requires Ordered(log) && Closed(log, high, next.lastLsn)
    requires state.lastLsn <= next.lastLsn && state.lastLsn - 1 <= low
    requires PageOf(log, at, low, high, state.chunkKey, chunkSize, page)
    requires row in page && Walked(next, row.key)
    ensures RowStands(log, state, next, row)
  {
    if !Mentions(EventsIn(log, state.lastLsn, next.lastLsn - 1), row.key) {
      SurvivorIsStable(log, at, low, high, state.lastLsn, next.lastLsn,
                       state.chunkKey, chunkSize, page, row, state.lastLsn - 1);
    }
  }

  lemma DumpMissesNot(
    log: seq<Row>, at: Key -> int, low: int, high: int, chunkSize: int, page: Page,
    state: RunState, next: RunState, key: Key)
    requires Ordered(log) && Closed(log, high, next.lastLsn) && UniqueLeads(log)
    requires state.lastLsn <= next.lastLsn && state.lastLsn - 1 <= low && !state.dumpDone && 0 < chunkSize
    requires PageOf(log, at, low, high, state.chunkKey, chunkSize, page)
    requires Paged(page, state, chunkSize, next)
    requires Walked(next, key) && !Walked(state, key)
    requires key in TableAt(log, state.lastLsn - 1)
    requires !Mentions(EventsIn(log, state.lastLsn, next.lastLsn - 1), key)
    ensures Reads(page, key)
  {
    UnreadIsPastThePage(log, at, low, high, state.lastLsn, next.lastLsn, state.chunkKey, chunkSize, page, key);
    if !Reads(page, key) {
      PastThePageIsPastItsLead(
        log, at, low, high, state.lastLsn, next.lastLsn, state.chunkKey, chunkSize, page, key);
    }
  }
}
