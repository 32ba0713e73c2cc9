/** What every single call guarantees, and what that adds up to along a run. */
module Guarantees {
  import opened Outcomes
  import opened Catalog
  import opened Schema
  import opened Rows
  import opened Source
  import opened Dblog
  import opened Call
  import opened Run
  import opened Reconstruction
  import Lsn

  // ---- caught up, or something to write ----

  /**
   A None frame means caught up: the walk is done, nothing captured by the time the window closed
   lies at or past the position the batch started from, and a target that was empty when the run
   opened is the table at a position capture has not gone past. Any other frame has rows.
   */
  lemma NoFrameMeansCaughtUp(sys: System, t: Table, c: CallOf, next: System)
    requires Valid(sys.source) && Holds(sys) && Step(sys, t, c, next)
    requires Answer(sys, t, c).Success? && c.fate.Saved?
    ensures
      var r := Answer(sys, t, c).value;
      && (r.frame.Some? ==> r.frame.value.rows != [])
      && (r.frame.None? ==>
            && next.saved.Some? && next.saved.value.dumpDone
            && EventsIn(next.source.log, Began(sys, t, c).value.lastLsn, c.m.max.captured) == []
            && c.m.max.captured < next.saved.value.lastLsn
            && (next.walks && next.base == map[] ==> Target(next) == Truth(next)))
  {
    AnswerUnfolds(sys, t, c);
    FramelessBatch(sys.source, c.m, Began(sys, t, c).value, c.chunkSize);
    if Answer(sys, t, c).value.frame.None? {
      StepKeeps(sys, t, c, next);
      if next.walks && next.base == map[] {
        ReconstructedSoFar(next);
      }
    }
  }

  lemma FramelessBatch(before: Source, m: Moments, state: RunState, chunkSize: int)
    requires Chronological(before, m) && Retained(m, state) && 0 < chunkSize
    requires Batch(m, state, chunkSize).Success?
    ensures
      var r := Batch(m, state, chunkSize).value;
      && (r.frame.Some? ==> r.frame.value.rows != [])
      && m.max.captured < r.state.lastLsn
      && (r.frame.None? ==> r.state.dumpDone && EventsIn(m.log.log, state.lastLsn, m.max.captured) == [])
  {
    ChronologyBounds(before, m);
    BatchIsShaped(m, state, chunkSize);
    ShapedFrameless(m, state, chunkSize, Batch(m, state, chunkSize).value);
  }

  lemma ShapedFrameless(m: Moments, state: RunState, chunkSize: int, r: BatchResult)
    requires Shaped(m, state, chunkSize, r)
    ensures r.frame.Some? ==> r.frame.value.rows != []
    ensures m.max.captured < r.state.lastLsn
    ensures r.frame.None? ==> r.state.dumpDone && EventsIn(m.log.log, state.lastLsn, m.max.captured) == []
  {
    if r.frame.None? {
      QuietWindow(m.log.log, state.lastLsn, m.max.captured, r.state.lastLsn - 1);
    }
  }

  lemma QuietWindow(log: seq<Row>, from: int, narrow: int, wide: int)
    requires narrow <= wide && EventsIn(log, from, wide) == []
    ensures EventsIn(log, from, narrow) == []
  {
    EventsInMembers(log, from, narrow);
    EventsInMembers(log, from, wide);
  }

  // ---- no silent gap ----

  /**
   With a server that refuses a window opening below its floor, any answer at all, to a call that opens
   a run or resumes one, has read every change from the position it started at to the one it returns,
   and that position was at or above the floor the call checked.
   */
  lemma NoSilentGap(
    before: Source, m: Moments, t: Table, state: Option<RunState>, chunkSize: int, inspectEvery: Option<int>)
    requires Chronological(before, m) && m.log.guarded
    requires Dblog.Dblog(m, t.schema, t.name, state, chunkSize, inspectEvery).Success?
    ensures Prologue(m, t.schema, t.name, state, inspectEvery).Success?
    ensures
      var from := Prologue(m, t.schema, t.name, state, inspectEvery).value.lastLsn;
      var r := Dblog.Dblog(m, t.schema, t.name, state, chunkSize, inspectEvery).value;
      && (state.Some? ==> from == state.value.lastLsn)
      && m.floor.floor <= from <= r.state.lastLsn
      && forall e | e in m.log.log && from <= e.lsn < r.state.lastLsn :: e in RowsOf(r.frame)
  {
    OpensAboveTheFloor(m, t, state, inspectEvery);
    ChronologyBounds(before, m);
    var begun := Prologue(m, t.schema, t.name, state, inspectEvery).value;
    BatchIsShaped(m, begun, chunkSize);
    ShapedDeliversWindow(m, begun, chunkSize, Batch(m, begun, chunkSize).value);
  }

  /** Every way into a log read opens it at or above the floor checked for it. */
  lemma OpensAboveTheFloor(m: Moments, t: Table, state: Option<RunState>, inspectEvery: Option<int>)
    requires Prologue(m, t.schema, t.name, state, inspectEvery).Success?
    ensures m.floor.floor <= Prologue(m, t.schema, t.name, state, inspectEvery).value.lastLsn
    ensures state.Some? ==> Prologue(m, t.schema, t.name, state, inspectEvery).value.lastLsn == state.value.lastLsn
  {
    if state.Some? {
      PrologueKeepsPosition(m, t, state.value, inspectEvery);
    } else {
      SeedOpensAtThePresent(m, t);
    }
  }

  /** state_at_lsn hands back the position it was given or raises, and raises at every one below the floor. */
  lemma StateAtLsnOpensAboveTheFloor(m: Moments, t: Table, fromLsn: nat, dumpDone: bool)
    ensures
      var built := StateAtLsn(m, t.schema, t.name, fromLsn, dumpDone);
      && (built.Success? ==>
            && built.value.lastLsn == fromLsn && m.floor.floor <= fromLsn
            && built.value.dumpDone == dumpDone && built.value.chunkKey.None?
            && EventSchema(built.value.spec).Success?)
      && (fromLsn < m.floor.floor ==> built.Failure?)
  {
    var spec := Inspect(m.inspect, t.schema, t.name);
    if spec.Success? {
      ValidateAcceptsExactlyTheReconcilable(spec.value);
    }
  }

  lemma ShapedDeliversWindow(m: Moments, state: RunState, chunkSize: int, r: BatchResult)
    requires Shaped(m, state, chunkSize, r)
    ensures state.lastLsn <= r.state.lastLsn
    ensures forall e | e in m.log.log && state.lastLsn <= e.lsn < r.state.lastLsn :: e in RowsOf(r.frame)
  {
    EventsInMembers(m.log.log, state.lastLsn, r.state.lastLsn - 1);
  }

  /** A position below the floor the call reads is refused, whatever else the call was given. */
  lemma AgedOutIsRefused(m: Moments, t: Table, state: RunState, chunkSize: int, inspectEvery: Option<int>)
    requires state.lastLsn < m.floor.floor
    ensures Dblog.Dblog(m, t.schema, t.name, Some(state), chunkSize, inspectEvery).Failure?
  {
    if Prologue(m, t.schema, t.name, Some(state), inspectEvery).Success? {
      PrologueKeepsPosition(m, t, state, inspectEvery);
    }
  }

  /**
   A server that serves a window opening below its floor leaves the check as the only guard, and
   cleanup can pass the position between the two: the window is complete exactly when no change of
   it had been cleaned away by the time it was read.
   */
  lemma UnguardedWindowIsCompleteIffNothingWasCleaned(m: Moments, state: RunState)
    requires !m.log.guarded && ReadWindow(m, state).Success?
    requires state.lastLsn <= m.max.captured
    ensures
      var (window, next) := ReadWindow(m, state).value;
      && next.lastLsn == m.max.captured + 1
      && (RowsOf(window) == EventsIn(m.log.log, state.lastLsn, m.max.captured) <==>
          forall e | e in m.log.log && state.lastLsn <= e.lsn <= m.max.captured :: m.log.floor <= e.lsn)
  {
    var (window, next) := ReadWindow(m, state).value;
    var low := if state.lastLsn < m.log.floor then m.log.floor else state.lastLsn;
    EventsInMembers(m.log.log, state.lastLsn, m.max.captured);
    EventsInMembers(m.log.log, low, m.max.captured);
    if forall e | e in m.log.log && state.lastLsn <= e.lsn <= m.max.captured :: m.log.floor <= e.lsn {
      SameFilter(m.log.log, state.lastLsn, low, m.max.captured);
    }
  }

  lemma {:induction false} SameFilter(log: seq<Row>, a: int, b: int, hi: int)
    requires forall e | e in log :: a <= e.lsn <= hi <==> b <= e.lsn <= hi
    ensures EventsIn(log, a, hi) == EventsIn(log, b, hi)
  {
    if |log| != 0 {
      assert log[|log| - 1] in log;
      SameFilter(log[..|log| - 1], a, b, hi);
    }
  }

  // ---- one way only ----

  /** The same table, keys and captured columns */
  predicate SameShape(a: TableSpec, b: TableSpec) {
    && a.QualifiedName() == b.QualifiedName()
    && a.sourceSchema == b.sourceSchema && a.sourceTable == b.sourceTable
    && a.pkColumns == b.pkColumns
    && SameColumns(a.capturedColumns, b.capturedColumns)
  }

  /** b is where a run that stood at a may stand later. */
  predicate NoEarlier(a: RunState, b: RunState) {
    && a.lastLsn <= b.lastLsn
    && (a.chunkKey.Some? ==> b.chunkKey.Some? && a.chunkKey.value <= b.chunkKey.value)
    && (a.dumpDone ==> b.dumpDone && b.chunkKey == a.chunkKey)
    && SameShape(a.spec, b.spec)
  }

  lemma RefreshKeepsShape(m: Moments, t: Table, state: RunState, inspectEvery: Option<int>)
    requires Prologue(m, t.schema, t.name, Some(state), inspectEvery).Success?
    ensures SameShape(state.spec, Prologue(m, t.schema, t.name, Some(state), inspectEvery).value.spec)
  {
    var reread := RefreshSpec(m, state, inspectEvery).value;
    if reread != state {
      assert SameColumns(state.spec.capturedColumns, reread.spec.capturedColumns);
    }
  }

  lemma CallOnlyAdvances(
    before: Source, m: Moments, at: Key -> int, t: Table, state: RunState, chunkSize: int, inspectEvery: Option<int>)
    requires Prologue(m, t.schema, t.name, Some(state), inspectEvery).Success?
    requires Legal(before, m, at, Prologue(m, t.schema, t.name, Some(state), inspectEvery).value, chunkSize)
    requires Dblog.Dblog(m, t.schema, t.name, Some(state), chunkSize, inspectEvery).Success?
    ensures NoEarlier(state, Dblog.Dblog(m, t.schema, t.name, Some(state), chunkSize, inspectEvery).value.state)
  {
    var begun := Prologue(m, t.schema, t.name, Some(state), inspectEvery).value;
    PrologueKeepsPosition(m, t, state, inspectEvery);
    RefreshKeepsShape(m, t, state, inspectEvery);
    ChronologyBounds(before, m);
    BatchIsShaped(m, begun, chunkSize);
    var r := Batch(m, begun, chunkSize).value;
    if !begun.dumpDone {
      PageStaysTrue(before, m, at, begun.chunkKey, chunkSize);
      WalkAdvances(m.page, begun, chunkSize, r.state);
    }
  }

  /** One step of a run, as far as its saved state goes. */
  predicate Advances(a: Option<RunState>, b: Option<RunState>) {
    a.Some? ==> b.Some? && NoEarlier(a.value, b.value)
  }

  lemma StepAdvances(sys: System, t: Table, c: CallOf, next: System)
    requires Step(sys, t, c, next)
    ensures Advances(sys.saved, next.saved)
  {
    if sys.saved.Some? {
      if Answer(sys, t, c).Success? && c.fate.Saved? {
        AnswerUnfolds(sys, t, c);
        CallOnlyAdvances(sys.source, c.m, c.at, t, sys.saved.value, c.chunkSize, c.inspectEvery);
      } else {
        ShapeIsReflexive(sys.saved.value.spec);
      }
    }
  }

  lemma {:induction false} AdvancesChain(saved: seq<Option<RunState>>, i: nat, j: nat)
    requires forall k | 0 <= k < |saved| - 1 :: Advances(saved[k], saved[k + 1])
    requires i <= j < |saved|
    ensures Advances(saved[i], saved[j])
    decreases j
  {
    if saved[i].Some? {
      if i == j {
        ShapeIsReflexive(saved[i].value.spec);
      } else {
        AdvancesChain(saved, i, j - 1);
        assert Advances(saved[j - 1], saved[j - 1 + 1]);
        ShapeIsTransitive(saved[i].value.spec, saved[j - 1].value.spec, saved[j].value.spec);
      }
    }
  }

  /**
   Along every run positions never go back, the walk never reopens, its key is frozen once it is
   done, and the table, its key columns and its captured columns never change.
   */
  lemma RunsOnlyAdvance(run: seq<System>, t: Table, calls: seq<CallOf>, i: nat, j: nat)
    requires IsRun(run, t, calls) && i <= j <= |calls|
    requires run[i].saved.Some?
    ensures run[j].saved.Some? && NoEarlier(run[i].saved.value, run[j].saved.value)
  {
    var saved := seq(|run|, k requires 0 <= k < |run| => run[k].saved);
    forall k | 0 <= k < |saved| - 1
      ensures Advances(saved[k], saved[k + 1])
    {
      StepAdvances(run[k], t, calls[k], run[k + 1]);
    }
    AdvancesChain(saved, i, j);
  }

  /** Once the walk is done the table is not read: no page, watermark or barrier can change the answer. */
  lemma TailNeverReadsTheTable(m: Moments, m': Moments, t: Table, state: RunState, n: int, n': int, every: Option<int>)
    requires state.dumpDone && 0 < n && 0 < n'
    requires m' == m.(page := m'.page, low := m'.low, high := m'.high, await := m'.await)
    ensures Dblog.Dblog(m, t.schema, t.name, Some(state), n, every)
         == Dblog.Dblog(m', t.schema, t.name, Some(state), n', every)
  {
    PrologueReadsNoTable(m, m', t, state, every);
    if Prologue(m, t.schema, t.name, Some(state), every).Success? {
      PrologueKeepsPosition(m, t, state, every);
      TailBatchReadsNoTable(m, m', Prologue(m, t.schema, t.name, Some(state), every).value, n, n');
    }
  }

  lemma PrologueReadsNoTable(m: Moments, m': Moments, t: Table, state: RunState, every: Option<int>)
    requires m' == m.(page := m'.page, low := m'.low, high := m'.high, await := m'.await)
    ensures Prologue(m, t.schema, t.name, Some(state), every) == Prologue(m', t.schema, t.name, Some(state), every)
  {
  }

  lemma TailBatchReadsNoTable(m: Moments, m': Moments, state: RunState, n: int, n': int)
    requires state.dumpDone
    requires m' == m.(page := m'.page, low := m'.low, high := m'.high, await := m'.await)
    ensures Batch(m, state, n) == Batch(m', state, n')
  {
    assert ReadWindow(m, state) == ReadWindow(m', state);
  }

  // ---- one schema per run ----

  /** Somewhere a captured column and the one re-read in its place differ in type name, precision or scale. */
  predicate Retyped(was: seq<ColumnSpec>, reread: seq<ColumnSpec>) {
    exists i | 0 <= i < |was| && i < |reread| :: was[i].Signature() != reread[i].Signature()
  }

  /** A refresh that is due, and whose inspection is answered with a capture instance */
  predicate Rereads(m: Moments, state: RunState, every: int) {
    && m.now - state.lastInspect >= every
    && Inspect(m.inspect, state.spec.sourceSchema, state.spec.sourceTable).Success?
    && Reread(m, state).captureInstance.Some?
  }

  function Reread(m: Moments, state: RunState): TableSpec
    requires Inspect(m.inspect, state.spec.sourceSchema, state.spec.sourceTable).Success?
  {
    Inspect(m.inspect, state.spec.sourceSchema, state.spec.sourceTable).value
  }

  /**
   A re-inspection stops a run exactly when its keys moved, or the schema of its frames did, or a
   captured column was retyped; otherwise the run goes on under the new spec. The case of a type name
   and a column's formula do not count.
   */
  lemma RefreshStopsExactlyOnDrift(m: Moments, state: RunState, every: int)
    requires Rereads(m, state, every)
    ensures RefreshSpec(m, state, Some(every)) == Failure(SchemaChanged) <==>
            || state.spec.pkColumns != Reread(m, state).pkColumns
            || RowSchema(state.spec) != RowSchema(Reread(m, state))
            || Retyped(state.spec.capturedColumns, Reread(m, state).capturedColumns)
    ensures RefreshSpec(m, state, Some(every)) != Failure(SchemaChanged) ==>
            RefreshSpec(m, state, Some(every)) == Success(state.(spec := Reread(m, state), lastInspect := m.now))
  {
    RereadDeclaresASchema(m, state);
    SameColumnsIffFramesAgree(state.spec.capturedColumns, Reread(m, state).capturedColumns);
  }

  lemma RereadDeclaresASchema(m: Moments, state: RunState)
    requires Inspect(m.inspect, state.spec.sourceSchema, state.spec.sourceTable).Success?
    requires Reread(m, state).captureInstance.Some?
    ensures RowSchema(Reread(m, state)).Success?
  {
    ValidateAcceptsExactlyTheReconcilable(Reread(m, state));
  }

  /** Columns compare equal exactly when they declare the same fields and none was retyped. */
  lemma SameColumnsIffFramesAgree(was: seq<ColumnSpec>, reread: seq<ColumnSpec>)
    requires Fields(reread).Success?
    ensures SameColumns(was, reread) <==> Fields(was) == Fields(reread) && !Retyped(was, reread)
  {
    if SameColumns(was, reread) {
      EqualColumnsDeclareOneSchema(was, reread);
      assert forall i | 0 <= i < |was| :: was[i].Same(reread[i]);
    } else if Fields(was) == Fields(reread) {
      FieldsKeepNames(was);
      FieldsKeepNames(reread);
      assert |was| == |Names(was)| == |Names(reread)| == |reread|;
      var i :| 0 <= i < |was| && !was[i].Same(reread[i]);
      assert Names(was)[i] == Names(reread)[i];
      assert was[i].Signature() != reread[i].Signature();
    }
  }

  /**
   Stricter than its purpose: with keys and frames as they were, a re-inspection still stops the run
   exactly when a column was retyped, within what reads back as one Arrow type.
   */
  lemma NeedlessStopIffRetyped(m: Moments, state: RunState, every: int)
    requires Rereads(m, state, every)
    requires state.spec.pkColumns == Reread(m, state).pkColumns
    requires RowSchema(state.spec) == RowSchema(Reread(m, state))
    ensures RefreshSpec(m, state, Some(every)) == Failure(SchemaChanged) <==>
            Retyped(state.spec.capturedColumns, Reread(m, state).capturedColumns)
  {
    RefreshStopsExactlyOnDrift(m, state, every);
  }

  /** Equal shapes declare one schema and one mask width. */
  lemma SameShapeSameSchema(a: TableSpec, b: TableSpec)
    requires SameShape(a, b)
    ensures EventSchema(a) == EventSchema(b) && MaskWidth(a) == MaskWidth(b)
  {
    EqualColumnsDeclareOneSchema(a.capturedColumns, b.capturedColumns);
  }

  /** The rows a frame read off the table carry masks of this width. */
  predicate MasksAre(rows: seq<Row>, width: nat) {
    forall r | r in rows && r.op.Dump? :: r.maskWidth == width
  }

  lemma MasksOfBatch(m: Moments, state: RunState, chunkSize: int, r: BatchResult)
    requires Valid(m.log) && Shaped(m, state, chunkSize, r)
    ensures MasksAre(RowsOf(r.frame), MaskWidth(state.spec))
  {
    EventsInMembers(m.log.log, state.lastLsn, r.state.lastLsn - 1);
  }

  /** A frame in the schema and mask width a spec declares */
  predicate Declared(spec: TableSpec, frame: Option<Frame>) {
    && (frame.Some? ==> EventSchema(spec) == Success(frame.value.schema))
    && MasksAre(RowsOf(frame), MaskWidth(spec))
  }

  /** The call returned, whatever then became of what it returned. */
  predicate WasAnswered(sys: System, t: Table, c: CallOf) {
    Answer(sys, t, c).Success?
  }

  /**
   The frame of any one call, opening or resumed, kept or lost, has the schema and mask width of the
   spec it returns; and, resumed, of the spec it was given.
   */
  lemma AnsweredFrameIsDeclared(sys: System, t: Table, c: CallOf, next: System)
    requires Step(sys, t, c, next) && WasAnswered(sys, t, c)
    ensures Declared(Answer(sys, t, c).value.state.spec, Answer(sys, t, c).value.frame)
    ensures sys.saved.Some? ==> Declared(sys.saved.value.spec, Answer(sys, t, c).value.frame)
  {
    AnswerUnfolds(sys, t, c);
    var begun, r := Began(sys, t, c).value, Answer(sys, t, c).value;
    BatchIsDeclared(sys.source, c.m, c.at, begun, c.chunkSize, r);
    if sys.saved.Some? {
      RefreshKeepsShape(c.m, t, sys.saved.value, c.inspectEvery);
      SameShapeSameSchema(sys.saved.value.spec, begun.spec);
    }
  }

  lemma BatchIsDeclared(
    before: Source, m: Moments, at: Key -> int, begun: RunState, chunkSize: int, r: BatchResult)
    requires Legal(before, m, at, begun, chunkSize) && 0 < chunkSize
    requires Batch(m, begun, chunkSize) == Success(r)
    ensures r.state.spec == begun.spec && Declared(begun.spec, r.frame)
  {
    ChronologyBounds(before, m);
    BatchIsShaped(m, begun, chunkSize);
    MasksOfBatch(m, begun, chunkSize, r);
  }

  /** The frame a call handed back to be written, kept or lost: none if it raised. */
  function Returned(sys: System, t: Table, c: CallOf): Option<Frame> {
    if WasAnswered(sys, t, c) then Answer(sys, t, c).value.frame else None
  }

  function SavedSpec(sys: System): Option<TableSpec> {
    if sys.saved.Some? then Some(sys.saved.value.spec) else None
  }

  /** One call, as far as specs and frames go. */
  predicate KeepsSchema(was: Option<TableSpec>, frame: Option<Frame>, next: Option<TableSpec>) {
    && (was.Some? ==> next.Some? && SameShape(was.value, next.value) && Declared(was.value, frame))
    && (was.None? && next.Some? ==> Declared(next.value, frame))
  }

  lemma StepKeepsSchema(sys: System, t: Table, c: CallOf, next: System)
    requires Step(sys, t, c, next)
    ensures KeepsSchema(SavedSpec(sys), Returned(sys, t, c), SavedSpec(next))
  {
    StepAdvances(sys, t, c, next);
    if WasAnswered(sys, t, c) {
      AnsweredFrameIsDeclared(sys, t, c, next);
    }
  }

  lemma {:induction false} KeepsSchemaChain(specs: seq<Option<TableSpec>>, frames: seq<Option<Frame>>, i: nat, j: nat)
    requires |specs| == |frames| + 1 && i <= j < |frames|
    requires forall k | 0 <= k < |frames| :: KeepsSchema(specs[k], frames[k], specs[k + 1])
    requires specs[i + 1].Some?
    ensures specs[j + 1].Some? && SameShape(specs[i + 1].value, specs[j + 1].value)
    ensures Declared(specs[i + 1].value, frames[j])
    decreases j
  {
    assert KeepsSchema(specs[j], frames[j], specs[j + 1]);
    if i == j {
      ShapeIsReflexive(specs[i + 1].value);
      if specs[i].Some? {
        SameShapeSameSchema(specs[i].value, specs[i + 1].value);
      }
    } else {
      KeepsSchemaChain(specs, frames, i, j - 1);
      SameShapeSameSchema(specs[i + 1].value, specs[j].value);
      ShapeIsTransitive(specs[i + 1].value, specs[j].value, specs[j + 1].value);
    }
  }

  /**
   Every frame of a run has the schema and mask width that the first state it saved declares: the
   opening call's frame too, frames whose state was lost, window and chunk and merged frames alike,
   across any number of re-inspections that let it go on and calls that raise in between.
   */
  lemma OneSchemaPerRun(run: seq<System>, t: Table, calls: seq<CallOf>, i: nat)
    requires IsRun(run, t, calls) && i < |calls| && run[i + 1].saved.Some?
    ensures forall j | i <= j < |calls| :: Declared(run[i + 1].saved.value.spec, Returned(run[j], t, calls[j]))
  {
    var specs := seq(|run|, k requires 0 <= k < |run| => SavedSpec(run[k]));
    var frames := seq(|calls|, k requires 0 <= k < |calls| => Returned(run[k], t, calls[k]));
    forall k | 0 <= k < |frames|
      ensures KeepsSchema(specs[k], frames[k], specs[k + 1])
    {
      StepKeepsSchema(run[k], t, calls[k], run[k + 1]);
    }
    forall j | i <= j < |calls|
      ensures Declared(run[i + 1].saved.value.spec, Returned(run[j], t, calls[j]))
    {
      KeepsSchemaChain(specs, frames, i, j);
    }
  }

  lemma ShapeIsReflexive(a: TableSpec)
    ensures SameShape(a, a)
  {
    assert forall c | c in a.capturedColumns :: c.Same(c);
  }

  lemma ShapeIsTransitive(a: TableSpec, b: TableSpec, c: TableSpec)
    requires SameShape(a, b) && SameShape(b, c)
    ensures SameShape(a, c)
  {
    forall i | 0 <= i < |a.capturedColumns|
      ensures a.capturedColumns[i].Same(c.capturedColumns[i])
    {
      assert a.capturedColumns[i].Same(b.capturedColumns[i]) && b.capturedColumns[i].Same(c.capturedColumns[i]);
    }
  }

  /** The spec a run opens with declares a schema, so its frames have one to share. */
  lemma SeededSpecDeclaresASchema(m: Moments, t: Table)
    requires Seed(m, t.schema, t.name).Success?
    ensures EventSchema(Seed(m, t.schema, t.name).value.spec).Success?
  {
    ValidateAcceptsExactlyTheReconcilable(Seed(m, t.schema, t.name).value.spec);
  }

  // ---- termination under concurrent writes ----

  /** A full page raises the walk's key by at least its size: its leading keys are that many distinct integers. */
  lemma FullPageRaisesKey(page: Page, start: int, n: nat)
    requires Sorted(page) && DistinctLeads(page) && |page| == n > 0
    requires forall row | row in page :: start <= Lead(row.key)
    ensures start + n <= Lead(page[n - 1].key) + 1
  {
    LeadsSpread(page, start, n - 1);
  }

  lemma {:induction false} LeadsSpread(page: Page, start: int, i: nat)
    requires Sorted(page) && DistinctLeads(page) && i < |page|
    requires forall row | row in page :: start <= Lead(row.key)
    ensures start + i <= Lead(page[i].key)
  {
    if i == 0 {
      assert page[0] in page;
    } else {
      LeadsSpread(page, start, i - 1);
      LeadFollowsOrder(page[i - 1].key, page[i].key);
    }
  }

  /** A full page of at least n rows, read from one key of the walk and leaving it at the next. */
  predicate Unfinished(page: Page, from: Option<int>, next: Option<int>, n: nat, lo: int, hi: int) {
    && 0 < n <= |page|
    && Sorted(page) && DistinctLeads(page)
    && (forall row | row in page :: lo <= Lead(row.key) <= hi && InRange(row.key, from, None))
    && next == Some(Lead(page[|page| - 1].key) + 1)
  }

  /** A backfill: pages read one after another, none of which finished it, of a table keyed within [lo, hi]. */
  predicate Backfill(pages: seq<Page>, keys: seq<Option<int>>, n: nat, lo: int, hi: int) {
    && |keys| == |pages| + 1
    && (keys[0].Some? ==> lo <= keys[0].value)
    && forall i | 0 <= i < |pages| :: Unfinished(pages[i], keys[i], keys[i + 1], n, lo, hi)
  }

  /**
   The backfill ends whatever writers insert or delete: k calls that have not finished it have
   raised the walk's key past k pages, so with leading keys in [lo, hi] and pages of at least n rows
   there are at most (hi - lo + 1) / n of them before the call that finishes.
   */
  lemma {:induction false} BackfillEnds(pages: seq<Page>, keys: seq<Option<int>>, n: nat, lo: int, hi: int)
    requires Backfill(pages, keys, n, lo, hi)
    ensures |pages| > 0 ==> keys[|pages|].Some? && keys[|pages|].value <= hi + 1
    ensures keys[|pages|].Some? ==> lo + |pages| * n <= keys[|pages|].value
    ensures |pages| > 0 ==> |pages| * n <= hi - lo + 1
    decreases |pages|
  {
    var k := |pages|;
    if k > 0 {
      assert Backfill(pages[..k - 1], keys[..k], n, lo, hi);
      BackfillEnds(pages[..k - 1], keys[..k], n, lo, hi);
      assert Unfinished(pages[k - 1], keys[k - 1], keys[k], n, lo, hi);
      assert (k - 1) * n + n == k * n;
      var page := pages[k - 1];
      FullPageRaisesKey(page, if keys[k - 1].Some? then keys[k - 1].value else lo, |page|);
      assert page[|page| - 1] in page;
    }
  }

  /** What a caller asked of every call, and where the table's leading keys lie */
  predicate Asks(calls: seq<CallOf>, n: nat, lo: int, hi: int) {
    forall i | 0 <= i < |calls| :: AsksFor(calls[i], n, lo, hi)
  }

  predicate AsksFor(c: CallOf, n: nat, lo: int, hi: int) {
    n <= c.chunkSize && forall row | row in c.m.page :: lo <= Lead(row.key) <= hi
  }

  function Trues(kept: seq<bool>): nat {
    if |kept| == 0 then 0 else Trues(kept[..|kept| - 1]) + (if kept[|kept| - 1] then 1 else 0)
  }

  /** Which of a run's calls were kept: the rest raised, or lost what they returned. */
  function WhichKept(run: seq<System>, t: Table, calls: seq<CallOf>): (kept: seq<bool>)
    requires |run| == |calls| + 1
    ensures |kept| == |calls| && forall i | 0 <= i < |kept| :: kept[i] == WasKept(run[i], t, calls[i])
  {
    seq(|calls|, i requires 0 <= i < |calls| => WasKept(run[i], t, calls[i]))
  }

  function KeptCalls(run: seq<System>, t: Table, calls: seq<CallOf>): nat
    requires |run| == |calls| + 1
  {
    Trues(WhichKept(run, t, calls))
  }

  /** Where a state, or the lack of one, has a call start the walk */
  function WalkKey(saved: Option<RunState>): Option<int> {
    if saved.Some? then saved.value.chunkKey else None
  }

  predicate StillWalking(saved: Option<RunState>) {
    saved.Some? && !saved.value.dumpDone
  }

  /** One call, as far as the walk goes. */
  predicate Walks(
    was: Option<RunState>, kept: bool, page: Page, next: Option<RunState>, n: nat, lo: int, hi: int)
  {
    && (!kept ==> next == was)
    && (kept ==> next.Some?)
    && (kept && StillWalking(next) ==>
          (was.Some? ==> StillWalking(was)) && Unfinished(page, WalkKey(was), WalkKey(next), n, lo, hi))
  }

  /** A kept call, opening or resumed, that leaves the walk unfinished read one page of a backfill. */
  lemma StepWalks(sys: System, t: Table, c: CallOf, next: System, n: nat, lo: int, hi: int)
    requires Step(sys, t, c, next) && 0 < n && AsksFor(c, n, lo, hi)
    ensures Walks(sys.saved, WasKept(sys, t, c), c.m.page, next.saved, n, lo, hi)
  {
    if WasKept(sys, t, c) && StillWalking(next.saved) {
      AnswerUnfolds(sys, t, c);
      UnfinishedBatch(sys.source, c.m, c.at, Began(sys, t, c).value, c.chunkSize, next.saved.value,
                      Answer(sys, t, c).value, n, lo, hi);
      if sys.saved.Some? {
        PrologueKeepsPosition(c.m, t, sys.saved.value, c.inspectEvery);
      } else {
        SeedOpensAtThePresent(c.m, t);
      }
    }
  }

  lemma UnfinishedBatch(
    before: Source, m: Moments, at: Key -> int, state: RunState, chunkSize: int, next: RunState, r: BatchResult,
    n: nat, lo: int, hi: int)
    requires Legal(before, m, at, state, chunkSize) && Batch(m, state, chunkSize) == Success(r)
    requires 0 < n <= chunkSize && forall row | row in m.page :: lo <= Lead(row.key) <= hi
    requires next == r.state && !next.dumpDone
    ensures !state.dumpDone && Unfinished(m.page, state.chunkKey, next.chunkKey, n, lo, hi)
  {
    ChronologyBounds(before, m);
    BatchIsShaped(m, state, chunkSize);
  }

  /** The kept calls of a run that has not finished the walk read the pages of a backfill. */
  lemma {:induction false} UnfinishedIsABackfill(
    saved: seq<Option<RunState>>, kept: seq<bool>, read: seq<Page>, n: nat, lo: int, hi: int)
    returns (pages: seq<Page>, keys: seq<Option<int>>)
    requires |saved| == |kept| + 1 == |read| + 1
    requires forall i | 0 <= i < |kept| :: Walks(saved[i], kept[i], read[i], saved[i + 1], n, lo, hi)
    requires saved[0].Some? ==> saved[0].value.chunkKey.None?
    requires saved[|kept|].Some? ==> StillWalking(saved[|kept|])
    ensures Backfill(pages, keys, n, lo, hi)
    ensures |pages| == Trues(kept) && keys[|pages|] == WalkKey(saved[|kept|])
    decreases |kept|
  {
    var k := |kept|;
    if k == 0 {
      pages, keys := [], [None];
    } else {
      assert Walks(saved[k - 1], kept[k - 1], read[k - 1], saved[k - 1 + 1], n, lo, hi);
      pages, keys := UnfinishedIsABackfill(saved[..k], kept[..k - 1], read[..k - 1], n, lo, hi);
      if kept[k - 1] {
        pages, keys := pages + [read[k - 1]], keys + [WalkKey(saved[k])];
      }
    }
  }

  /**
   So a run, whether it opened with no state or with one from state_at_lsn, that has kept k calls and
   still not finished the walk has k <= (hi - lo + 1) / n, the opening call counted, whatever writers
   did and however many other calls raised or lost their results: with pages of n rows or more the
   walk ends within (hi - lo + 1) / n + 1 kept calls.
   */
  lemma RunBackfillEnds(run: seq<System>, t: Table, calls: seq<CallOf>, n: nat, lo: int, hi: int)
    requires IsRun(run, t, calls) && Asks(calls, n, lo, hi) && 0 < n
    requires StillWalking(run[|calls|].saved)
    ensures KeptCalls(run, t, calls) > 0 ==> KeptCalls(run, t, calls) <= (hi - lo + 1) / n
  {
    var saved := seq(|run|, i requires 0 <= i < |run| => run[i].saved);
    var read := seq(|calls|, i requires 0 <= i < |calls| => calls[i].m.page);
    var kept := WhichKept(run, t, calls);
    forall i | 0 <= i < |calls|
      ensures Walks(saved[i], kept[i], read[i], saved[i + 1], n, lo, hi)
    {
      StepWalks(run[i], t, calls[i], run[i + 1], n, lo, hi);
    }
    var pages, keys := UnfinishedIsABackfill(saved, kept, read, n, lo, hi);
    BackfillIsBounded(pages, keys, n, lo, hi);
  }

  lemma BackfillIsBounded(pages: seq<Page>, keys: seq<Option<int>>, n: nat, lo: int, hi: int)
    requires Backfill(pages, keys, n, lo, hi) && 0 < n
    ensures |pages| > 0 ==> |pages| <= (hi - lo + 1) / n
  {
    BackfillEnds(pages, keys, n, lo, hi);
    if |pages| > 0 {
      Quotient(|pages|, n, hi - lo + 1);
    }
  }

  lemma Quotient(k: nat, n: nat, total: int)
    requires n > 0 && k * n <= total
    ensures k <= total / n
  {
    var q := total / n;
    assert total == q * n + total % n;
    assert q + 1 <= k ==> (q + 1) * n <= k * n;
  }

  // ---- a persisted position ----

  /** What a state carries when it is written out: its LSN as hex, the rest as it is. */
  datatype Persisted = Persisted(
    spec: TableSpec, lastLsn: string, lastInspect: int, chunkKey: Option<int>, dumpDone: bool)

  function Persist(state: RunState): Persisted
    requires state.lastLsn <= Lsn.MAX
  {
    Lsn.MaximumFitsTheWidth();
    Persisted(state.spec, Lsn.Hex(Lsn.Bytes(state.lastLsn, Lsn.WIDTH)),
              state.lastInspect, state.chunkKey, state.dumpDone)
  }

  function Restore(p: Persisted): Result<RunState> {
    var lsn :- Lsn.FromHex(p.lastLsn);
    Success(RunState(p.spec, Lsn.Number(lsn), p.lastInspect, p.chunkKey, p.dumpDone))
  }

  /** A state written and restored between two calls is the state, so the next call answers the same. */
  lemma PersistedRoundTrip(state: RunState)
    requires state.lastLsn <= Lsn.MAX
    ensures Restore(Persist(state)) == Success(state)
  {
    Lsn.MaximumFitsTheWidth();
    Lsn.HexRoundTrip(Lsn.Bytes(state.lastLsn, Lsn.WIDTH));
    Lsn.NumberOfBytes(state.lastLsn, Lsn.WIDTH);
  }

  /** One call, as far as positions and the database's end go. */
  predicate KeepsWithin(was: Option<RunState>, end: nat, next: Option<RunState>, end': nat) {
    && end <= end'
    && ((was.Some? ==> was.value.lastLsn <= Lsn.MAX) && end' <= Lsn.MAX ==>
          (next.Some? ==> next.value.lastLsn <= Lsn.MAX))
  }

  lemma CallSavesAFittingPosition(sys: System, t: Table, c: CallOf, next: System)
    requires Step(sys, t, c, next)
    ensures KeepsWithin(sys.saved, sys.source.end, next.saved, next.source.end)
  {
    ChronologyBounds(sys.source, c.m);
    if WasKept(sys, t, c) {
      AnswerUnfolds(sys, t, c);
      BatchStaysWithin(sys.source, c.m, c.at, Began(sys, t, c).value, c.chunkSize, Answer(sys, t, c).value);
      if sys.saved.Some? {
        PrologueKeepsPosition(c.m, t, sys.saved.value, c.inspectEvery);
      } else {
        SeedOpensAtThePresent(c.m, t);
      }
    }
  }

  lemma BatchStaysWithin(
    before: Source, m: Moments, at: Key -> int, state: RunState, chunkSize: int, r: BatchResult)
    requires Legal(before, m, at, state, chunkSize) && 0 < chunkSize
    requires Batch(m, state, chunkSize) == Success(r)
    ensures r.state.lastLsn == state.lastLsn || r.state.lastLsn <= Lsn.MAX
  {
    ChronologyBounds(before, m);
    BatchIsShaped(m, state, chunkSize);
  }

  lemma {:induction false} StaysWithin(saved: seq<Option<RunState>>, ends: seq<nat>, i: nat)
    requires |saved| == |ends| && i < |saved|
    requires forall k | 0 <= k < |saved| - 1 :: KeepsWithin(saved[k], ends[k], saved[k + 1], ends[k + 1])
    requires saved[0].Some? ==> saved[0].value.lastLsn <= Lsn.MAX
    requires ends[i] <= Lsn.MAX
    ensures saved[i].Some? ==> saved[i].value.lastLsn <= Lsn.MAX
    decreases i
  {
    if i > 0 {
      assert KeepsWithin(saved[i - 1], ends[i - 1], saved[i - 1 + 1], ends[i - 1 + 1]);
      StaysWithin(saved, ends, i - 1);
    }
  }

  /**
   As long as the database's LSNs fit the width so does every position a run saves, and the state that
   carries it comes back from its written form as itself.
   */
  lemma SavedPositionsFitTheWidth(run: seq<System>, t: Table, calls: seq<CallOf>, i: nat)
    requires IsRun(run, t, calls) && i <= |calls| && run[i].source.end <= Lsn.MAX
    requires run[0].saved.Some? ==> run[0].saved.value.lastLsn <= Lsn.MAX
    requires run[i].saved.Some?
    ensures run[i].saved.value.lastLsn <= Lsn.MAX
    ensures Restore(Persist(run[i].saved.value)) == Success(run[i].saved.value)
  {
    var saved := seq(|run|, k requires 0 <= k < |run| => run[k].saved);
    var ends := seq(|run|, k requires 0 <= k < |run| => run[k].source.end);
    forall k | 0 <= k < |saved| - 1
      ensures KeepsWithin(saved[k], ends[k], saved[k + 1], ends[k + 1])
    {
      CallSavesAFittingPosition(run[k], t, calls[k], run[k + 1]);
    }
    StaysWithin(saved, ends, i);
    PersistedRoundTrip(run[i].saved.value);
  }
}
