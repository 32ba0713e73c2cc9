/**
 One call of dblog(): src/pydblog/dblog.py, over the connector's answers.

 Every read of the source is answered by the source as it stood at that read, so a call is given
 one Source per read, and the environment is free to act between any two of them.
 */
module Dblog {
  import opened Outcomes
  import opened Catalog
  import opened Schema
  import opened Rows
  import opened Source
  import Lsn

  datatype Frame = Frame(schema: seq<Field>, rows: seq<Row>)

  datatype RunState = RunState(
    spec: TableSpec, lastLsn: nat, lastInspect: int, chunkKey: Option<int>, dumpDone: bool)

  datatype BatchResult = BatchResult(frame: Option<Frame>, state: RunState)

  type Page = seq<TableRow<Image>>

  /** The source at each read of one call, in the order the call makes them. */
  datatype Moments = Moments(
    now: int,         // the client's clock
    inspect: Source,  // inspect()
    floor: Source,    // get_min_lsn()
    seed: Source,     // get_max_lsn() when a run opens
    low: Source,      // the watermark before the page
    page: Page,       // what read_table() returned
    high: Source,     // the watermark after the page
    await: Source,    // await_watermark() giving up or returning
    max: Source,      // get_max_lsn() closing the window
    log: Source)      // read_event_log()

  // ---- the connector's answers ----

  /** The catalogue's answer, with computed columns marked, if both reads can produce one schema for it */
  function Inspect(s: Source, schema: string, table: string): Result<TableSpec> {
    var spec := Marked(s.catalog).(sourceSchema := schema, sourceTable := table);
    if spec.pkColumns == [] then Failure(NoPrimaryKey)
    else if spec.captureInstance.None? then Success(spec)
    else
      var _ :- Validate(spec);
      Success(spec)
  }

  function GetMinLsn(s: Source): Result<nat> {
    if s.floor == 0 then Failure(NoMinimumLsn) else Success(s.floor)
  }

  function GetMaxLsn(s: Source): Result<nat> {
    if s.captured == 0 then Failure(NoMaximumLsn) else Success(s.captured)
  }

  /** Returns only once capture has read every change committed by the mark: base.py:31-40. */
  function AwaitWatermark(s: Source, mark: int): Result<()> {
    if forall r | r in s.log :: r.commit <= mark ==> r.lsn <= s.captured then Success(())
    else Failure(WatermarkTimeout)
  }

  /** The retained changes in [from, to], or None when there is none. */
  function ReadEventLog(s: Source, spec: TableSpec, from: nat, to: nat): Result<Option<Frame>> {
    if spec.captureInstance.None? then Failure(NoCaptureInstance)
    else if s.guarded && from < s.floor then Failure(LogBelowFloor)
    else
      var rows := EventsIn(s.log, if from < s.floor then s.floor else from, to);
      if rows == [] then Success(None)
      else
        var schema :- EventSchema(spec);
        Success(Some(Frame(schema, rows)))
  }

  function ReadTable(page: Page, spec: TableSpec): Result<Page> {
    if spec.pkColumns == [] then Failure(NoPrimaryKey)
    else if spec.BusinessColumns() == [] then Failure(NoBusinessColumns)
    else
      var _ :- RowSchema(spec);
      Success(page)
  }

  function Stamp(row: TableRow<Image>, maskWidth: nat, commit: int): Row {
    Row(0, 0, Dump, maskWidth, commit, row.key, row.image)
  }

  function Stamped(rows: Page, maskWidth: nat, commit: int): (r: seq<Row>)
    ensures |r| == |rows|
    ensures forall i | 0 <= i < |r| :: r[i] == Stamp(rows[i], maskWidth, commit)
  {
    seq(|rows|, i requires 0 <= i < |rows| => Stamp(rows[i], maskWidth, commit))
  }

  /** to_events: the metadata columns ahead of the table's own. */
  function ToEvents(rows: Page, spec: TableSpec, commit: int): Result<Frame> {
    var fields :- RowSchema(spec);
    Success(Frame(METADATA_FIELDS + fields, Stamped(rows, MaskWidth(spec), commit)))
  }

  // ---- opening a run ----

  function RequireCaptureInstance(spec: TableSpec): Result<()> {
    if spec.captureInstance.None? then Failure(NoCaptureInstance) else Success(())
  }

  function Seed(m: Moments, schema: string, table: string): Result<RunState> {
    var spec :- Inspect(m.inspect, schema, table);
    var _ :- RequireCaptureInstance(spec);
    var floor :- GetMinLsn(m.floor);
    var top :- GetMaxLsn(m.seed);
    Success(RunState(spec, if top < floor then floor else top, m.now, None, false))
  }

  function CheckRetention(s: Source, state: RunState): Result<()> {
    var floor :- GetMinLsn(s);
    if state.lastLsn < floor then Failure(RetentionExpired) else Success(())
  }

  function StateAtLsn(
    m: Moments, schema: string, table: string, fromLsn: nat, dumpDone: bool): Result<RunState>
  {
    var spec :- Inspect(m.inspect, schema, table);
    var _ :- RequireCaptureInstance(spec);
    var built := RunState(spec, fromLsn, m.now, None, dumpDone);
    var _ :- CheckRetention(m.floor, built);
    Success(built)
  }

  function CheckTable(state: RunState, schema: string, table: string): Result<()> {
    if state.spec.QualifiedName() != schema + "." + table then Failure(WrongTable) else Success(())
  }

  function RefreshSpec(m: Moments, state: RunState, inspectEvery: Option<int>): Result<RunState> {
    if inspectEvery.None? || m.now - state.lastInspect < inspectEvery.value then Success(state)
    else
      var reread :- Inspect(m.inspect, state.spec.sourceSchema, state.spec.sourceTable);
      var _ :- RequireCaptureInstance(reread);
      if state.spec.pkColumns != reread.pkColumns then Failure(SchemaChanged)
      else if !SameColumns(state.spec.capturedColumns, reread.capturedColumns) then Failure(SchemaChanged)
      else Success(state.(spec := reread, lastInspect := m.now))
  }

  /** The state a batch starts from: seeded, or the given one checked. */
  function Prologue(
    m: Moments, schema: string, table: string, state: Option<RunState>, inspectEvery: Option<int>)
    : Result<RunState>
  {
    if state.None? then Seed(m, schema, table)
    else
      var _ :- CheckTable(state.value, schema, table);
      var refreshed :- RefreshSpec(m, state.value, inspectEvery);
      var _ :- RequireCaptureInstance(refreshed.spec);
      var _ :- CheckRetention(m.floor, refreshed);
      Success(refreshed)
  }

  // ---- one batch ----

  predicate DistinctLeads<T>(rows: seq<TableRow<T>>) {
    forall i, j | 0 <= i < j < |rows| :: Lead(rows[i].key) != Lead(rows[j].key)
  }

  /** Whether the leading key column reads back as an integer; a bit column reads back as a bool. */
  predicate LeadingKeyIsInteger(spec: TableSpec) {
    && spec.pkColumns != []
    && var column := Lookup(spec.capturedColumns, spec.pkColumns[0]);
       column.Some? && ArrowTypeOf(column.value).Success? && ArrowTypeOf(column.value).value.IsInteger()
  }

  /** Where the page following these rows opens. */
  function KeyAfter<T>(rows: seq<TableRow<T>>, spec: TableSpec): Result<int>
    requires rows != []
  {
    if !DistinctLeads(rows) then Failure(LeadingKeyRepeats)
    else if !LeadingKeyIsInteger(spec) then Failure(LeadingKeyNotInteger)
    else Success(Lead(rows[|rows| - 1].key) + 1)
  }

  function NextChunk(page: Page, state: RunState, chunkSize: int): Result<(Option<Page>, RunState)> {
    var rows :- ReadTable(page, state.spec);
    var done := |rows| < chunkSize;
    if rows == [] then Success((None, state.(dumpDone := done)))
    else
      var chunkKey :- KeyAfter(rows, state.spec);
      Success((Some(rows), state.(chunkKey := Some(chunkKey), dumpDone := done)))
  }

  function ReadWindow(m: Moments, state: RunState): Result<(Option<Frame>, RunState)> {
    var high :- GetMaxLsn(m.max);
    if state.lastLsn > high then Success((None, state))
    else
      var events :- ReadEventLog(m.log, state.spec, state.lastLsn, high);
      var next :- Lsn.Successor(high);
      Success((events, state.(lastLsn := next)))
  }

  /** Chunk rows whose key no row of the window has, in chunk order. */
  function AntiJoin(chunk: Page, window: seq<Row>): Page {
    if chunk == [] then []
    else (if Mentions(window, chunk[0].key) then [] else [chunk[0]]) + AntiJoin(chunk[1..], window)
  }

  function Supersede(chunk: Page, window: Option<Frame>): Page {
    if window.None? || window.value.rows == [] then chunk
    else if forall row | row in chunk :: !Mentions(window.value.rows, row.key) then chunk
    else AntiJoin(chunk, window.value.rows)
  }

  function MergeChunk(chunk: Page, window: Option<Frame>, low: int, spec: TableSpec): Result<Frame> {
    var events :- ToEvents(Supersede(chunk, window), spec, low);
    if window.None? || window.value.rows == [] then Success(events)
    else Success(Frame(window.value.schema, window.value.rows + events.rows))
  }

  function Batch(m: Moments, state: RunState, chunkSize: int): Result<BatchResult> {
    if state.dumpDone then
      var (window, next) :- ReadWindow(m, state);
      Success(BatchResult(window, next))
    else
      var low := m.low.clock;
      var (chunk, paged) :- NextChunk(m.page, state, chunkSize);
      var high := m.high.clock;
      var _ :- AwaitWatermark(m.await, high);
      var (window, next) :- ReadWindow(m, paged);
      if chunk.None? then Success(BatchResult(window, next))
      else
        var frame :- MergeChunk(chunk.value, window, low, next.spec);
        Success(BatchResult(Some(frame), next))
  }

  function Dblog(
    m: Moments, schema: string, table: string, state: Option<RunState>, chunkSize: int,
    inspectEvery: Option<int>): Result<BatchResult>
  {
    if chunkSize < 1 then Failure(ChunkSizeBelowOne)
    else
      var begun :- Prologue(m, schema, table, state, inspectEvery);
      Batch(m, begun, chunkSize)
  }

  function RowsOf(frame: Option<Frame>): seq<Row> {
    if frame.None? then [] else frame.value.rows
  }

  // ---- superseding ----

  lemma {:induction false} AntiJoinMembers(chunk: Page, window: seq<Row>)
    ensures forall row :: row in AntiJoin(chunk, window) <==> row in chunk && !Mentions(window, row.key)
  {
    if chunk != [] {
      AntiJoinMembers(chunk[1..], window);
    }
  }

  /** The positions of one sequence in another, in order */
  ghost predicate Subsequence<T(!new)>(part: seq<T>, whole: seq<T>, at: seq<nat>) {
    && |at| == |part|
    && (forall i | 0 <= i < |at| :: at[i] < |whole| && part[i] == whole[at[i]])
    && (forall i, j | 0 <= i < j < |at| :: at[i] < at[j])
  }

  lemma {:induction false} AntiJoinKeepsOrder(chunk: Page, window: seq<Row>) returns (at: seq<nat>)
    ensures Subsequence(AntiJoin(chunk, window), chunk, at)
  {
    if chunk == [] {
      at := [];
    } else {
      var rest := AntiJoinKeepsOrder(chunk[1..], window);
      at := SubsequenceShifts(AntiJoin(chunk[1..], window), chunk, rest);
      if !Mentions(window, chunk[0].key) {
        assert AntiJoin(chunk, window) == [chunk[0]] + AntiJoin(chunk[1..], window);
        at := [0] + at;
      } else {
        assert AntiJoin(chunk, window) == AntiJoin(chunk[1..], window);
      }
    }
  }

  lemma SubsequenceShifts<T(!new)>(part: seq<T>, whole: seq<T>, at: seq<nat>) returns (moved: seq<nat>)
    requires whole != [] && Subsequence(part, whole[1..], at)
    ensures Subsequence(part, whole, moved) && forall i | 0 <= i < |moved| :: moved[i] > 0
  {
    moved := seq(|at|, i requires 0 <= i < |at| => at[i] + 1);
  }

  lemma {:induction false} AntiJoinOfDisjoint(chunk: Page, window: seq<Row>)
    requires forall row | row in chunk :: !Mentions(window, row.key)
    ensures AntiJoin(chunk, window) == chunk
  {
    if chunk != [] {
      AntiJoinOfDisjoint(chunk[1..], window);
    }
  }

  /**
   The key-only fast path returns what the full anti-join would; either way the result is the
   order-preserving subsequence of chunk rows whose whole key the window does not carry.
   */
  lemma SupersedeRefinesAntiJoin(chunk: Page, window: Option<Frame>) returns (at: seq<nat>)
    ensures Supersede(chunk, window) == AntiJoin(chunk, RowsOf(window))
    ensures forall row :: row in Supersede(chunk, window) <==> row in chunk && !Mentions(RowsOf(window), row.key)
    ensures Subsequence(Supersede(chunk, window), chunk, at)
  {
    at := AntiJoinKeepsOrder(chunk, RowsOf(window));
    AntiJoinMembers(chunk, RowsOf(window));
    if forall row | row in chunk :: !Mentions(RowsOf(window), row.key) {
      AntiJoinOfDisjoint(chunk, RowsOf(window));
    }
  }

  /** The two halves of a merged frame have disjoint keys, so applying them commutes. */
  lemma MergedHalvesCommute(chunk: Page, window: Option<Frame>, low: int, spec: TableSpec, target: Replica)
    requires MergeChunk(chunk, window, low, spec).Success?
    ensures
      var stamped := Stamped(Supersede(chunk, window), MaskWidth(spec), low);
      var merged := MergeChunk(chunk, window, low, spec).value;
      && merged.rows == RowsOf(window) + stamped
      && (forall r | r in stamped :: !Mentions(RowsOf(window), r.key))
      && Apply(target, merged.rows) == Apply(target, stamped + RowsOf(window))
  {
    var stamped := Stamped(Supersede(chunk, window), MaskWidth(spec), low);
    StampedIsDisjoint(chunk, window, MaskWidth(spec), low);
    var rows := RowsOf(window);
    assert rows == [] ==> [] + stamped == stamped;
    ApplyCommutes(target, rows, stamped);
  }

  lemma StampedIsDisjoint(chunk: Page, window: Option<Frame>, maskWidth: nat, low: int)
    ensures forall r | r in Stamped(Supersede(chunk, window), maskWidth, low) :: !Mentions(RowsOf(window), r.key)
  {
    var at := SupersedeRefinesAntiJoin(chunk, window);
    var surviving := Supersede(chunk, window);
    forall r | r in Stamped(surviving, maskWidth, low)
      ensures !Mentions(RowsOf(window), r.key)
    {
      var i :| 0 <= i < |surviving| && Stamped(surviving, maskWidth, low)[i] == r;
      assert surviving[i] in surviving;
    }
  }
}
