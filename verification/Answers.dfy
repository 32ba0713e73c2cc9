/**
 Exactly when a call answers, what it raises when it does not, and what every row and state it hands
 back says: as conditions on what the source answered and what the caller gave.
 */
module Answers {
  import opened Outcomes
  import opened Catalog
  import opened Schema
  import opened Rows
  import opened Source
  import opened Dblog
  import opened Call
  import opened Run
  import opened Reconstruction
  import Lsn

  // ---- inspect ----

  /** A column of that name is computed, in the change table's metadata or in the source's. */
  predicate ComputedSomewhere(catalog: TableSpec, name: string) {
    || (exists c | c in catalog.capturedColumns :: c.name == name && c.IsComputed())
    || (exists c | c in catalog.columns :: c.name == name && c.IsComputed())
  }

  /** A table with a key and a change log whose two reads can be given one schema */
  predicate Inspectable(catalog: TableSpec) {
    && catalog.pkColumns != [] && catalog.captureInstance.Some?
    && ReadsAgree(catalog.capturedColumns, catalog.columns)
    && (forall k | k in catalog.pkColumns :: k in Names(catalog.capturedColumns) && !ComputedSomewhere(catalog, k))
    && NoMetadataName(Names(catalog.capturedColumns))
  }

  lemma NamesMembers(columns: seq<ColumnSpec>, name: string)
    ensures name in Names(columns) <==> exists c | c in columns :: c.name == name
  {
    if c :| c in columns && c.name == name {
      var i :| 0 <= i < |columns| && columns[i] == c;
      assert Names(columns)[i] == name;
    }
  }

  lemma MarkedNames(captured: seq<ColumnSpec>, source: seq<ColumnSpec>)
    ensures Names(MarkComputed(captured, source)) == Names(captured)
    ensures ReadsAgree(MarkComputed(captured, source), source) <==> ReadsAgree(captured, source)
  {
    var marked := MarkComputed(captured, source);
    MarkingIsInvisibleToEquality(captured, source);
    forall i | 0 <= i < |captured|
      ensures marked[i].name == captured[i].name && ArrowTypeOf(marked[i]) == ArrowTypeOf(captured[i])
      ensures ColumnAgrees(marked[i], source) <==> ColumnAgrees(captured[i], source)
    {
      assert MarkedFrom(marked[i], captured[i], source);
    }
  }

  lemma MarkedIsComputed(catalog: TableSpec, name: string)
    requires name in Names(catalog.capturedColumns)
    ensures name in Names(Computed(MarkComputed(catalog.capturedColumns, catalog.columns))) <==>
            ComputedSomewhere(catalog, name)
  {
    var captured, source := catalog.capturedColumns, catalog.columns;
    var marked := MarkComputed(captured, source);
    MarkingIsInvisibleToEquality(captured, source);
    NamesMembers(Computed(marked), name);
    if c :| c in Computed(marked) && c.name == name {
      var i :| 0 <= i < |marked| && marked[i] == c;
      assert MarkedFrom(marked[i], captured[i], source) && captured[i] in captured;
    }
    if ComputedSomewhere(catalog, name) {
      var i := ComputedPosition(catalog, name);
      assert MarkedFrom(marked[i], captured[i], source);
      assert marked[i] in marked && marked[i].IsComputed();
    }
  }

  lemma ComputedPosition(catalog: TableSpec, name: string) returns (i: nat)
    requires name in Names(catalog.capturedColumns) && ComputedSomewhere(catalog, name)
    ensures i < |catalog.capturedColumns| && catalog.capturedColumns[i].name == name
    ensures
      catalog.capturedColumns[i].IsComputed() || exists c | c in catalog.columns :: c.IsComputed() && c.name == name
  {
    var captured := catalog.capturedColumns;
    if c :| c in captured && c.name == name && c.IsComputed() {
      i :| 0 <= i < |captured| && captured[i] == c;
    } else {
      i :| 0 <= i < |captured| && Names(captured)[i] == name;
    }
  }

  /**
   inspect() hands back the catalogue's answer about the table it was asked for, each captured column
   carrying the formula the source computes it by.
   */
  lemma InspectReturnsTheCatalogue(s: Source, schema: string, table: string)
    requires Inspect(s, schema, table).Success?
    ensures
      var spec := Inspect(s, schema, table).value;
      && spec.sourceSchema == schema && spec.sourceTable == table
      && spec.pkColumns == s.catalog.pkColumns && spec.columns == s.catalog.columns
      && spec.captureInstance == s.catalog.captureInstance
      && (spec.captureInstance.None? ==> spec.capturedColumns == s.catalog.columns)
      && (spec.captureInstance.Some? ==>
            && |spec.capturedColumns| == |s.catalog.capturedColumns|
            && (forall i | 0 <= i < |spec.capturedColumns| ::
                  MarkedFrom(spec.capturedColumns[i], s.catalog.capturedColumns[i], s.catalog.columns))
            && forall k | k in spec.pkColumns :: !ComputedSomewhere(s.catalog, k))
  {
    var catalog := s.catalog;
    MarkingIsInvisibleToEquality(catalog.capturedColumns, catalog.columns);
    if catalog.captureInstance.Some? {
      InspectAnswersIff(s, schema, table);
    }
  }

  lemma InspectAnswersIff(s: Source, schema: string, table: string)
    ensures
      Inspect(s, schema, table).Success? && Inspect(s, schema, table).value.captureInstance.Some? <==>
      Inspectable(s.catalog)
  {
    var catalog := s.catalog;
    if catalog.captureInstance.Some? {
      ValidateAcceptsExactlyTheReconcilable(Marked(catalog).(sourceSchema := schema, sourceTable := table));
      MarkedNames(catalog.capturedColumns, catalog.columns);
      forall k | k in catalog.pkColumns && k in Names(catalog.capturedColumns)
        ensures k in Names(Computed(MarkComputed(catalog.capturedColumns, catalog.columns))) <==>
                ComputedSomewhere(catalog, k)
      {
        MarkedIsComputed(catalog, k);
      }
    }
  }

  predicate CatalogueError(e: Error) {
    || e.NoPrimaryKey? || e.CapturedColumnGone? || e.CapturedColumnDrifted? || e.NoArrowType?
    || e.KeyNotCaptured? || e.KeyComputed? || e.MetadataNameClash?
  }

  lemma InspectRaisesItsOwn(s: Source, schema: string, table: string)
    requires Inspect(s, schema, table).Failure?
    ensures CatalogueError(Inspect(s, schema, table).error)
    ensures Inspect(s, schema, table) == Failure(NoPrimaryKey) <==> s.catalog.pkColumns == []
  {
    if s.catalog.pkColumns != [] {
      var i := ValidateNamesTheFirstOffender(Marked(s.catalog).(sourceSchema := schema, sourceTable := table));
    }
  }

  // ---- a window ----

  /** Changes of a window that cleanup has left */
  predicate SomeRetained(s: Source, from: int, to: int) {
    exists e | e in s.log :: from <= e.lsn <= to && s.floor <= e.lsn
  }

  /** A window can be read, and the position past it is one. */
  predicate WindowReadable(m: Moments, spec: TableSpec, from: nat) {
    && 0 < m.max.captured
    && (from <= m.max.captured ==>
          && spec.captureInstance.Some?
          && (m.log.guarded ==> m.log.floor <= from)
          && (SomeRetained(m.log, from, m.max.captured) ==> RowSchema(spec).Success?)
          && m.max.captured < Lsn.MAX)
  }

  lemma RetainedRows(s: Source, from: nat, to: int)
    ensures EventsIn(s.log, if from < s.floor then s.floor else from, to) != [] <==> SomeRetained(s, from, to)
  {
    var low := if from < s.floor then s.floor else from;
    EventsInMembers(s.log, low, to);
    if EventsIn(s.log, low, to) != [] {
      assert EventsIn(s.log, low, to)[0] in EventsIn(s.log, low, to);
    }
  }

  lemma WindowAnswersIff(m: Moments, state: RunState)
    ensures ReadWindow(m, state).Success? <==> WindowReadable(m, state.spec, state.lastLsn)
    ensures ReadWindow(m, state).Success? ==>
      ReadWindow(m, state).value.1
      == state.(lastLsn := if state.lastLsn <= m.max.captured then m.max.captured + 1 else state.lastLsn)
  {
    RetainedRows(m.log, state.lastLsn, m.max.captured);
  }

  /** What reading a window raises, in the order it looks. */
  lemma WindowRefusals(m: Moments, state: RunState)
    requires state.spec.captureInstance.Some? && RowSchema(state.spec).Success?
    requires !WindowReadable(m, state.spec, state.lastLsn)
    ensures ReadWindow(m, state) == Failure(
      if m.max.captured == 0 then NoMaximumLsn
      else if m.log.guarded && state.lastLsn < m.log.floor then LogBelowFloor
      else LsnOverflow)
  {
  }

  // ---- a page ----

  predicate Tabled(spec: TableSpec) {
    spec.pkColumns != [] && spec.capturedColumns != [] && RowSchema(spec).Success?
  }

  /** The last captured column of the leading key's name stores whole numbers wider than a bit. */
  predicate LeadIsWhole(spec: TableSpec) {
    && spec.pkColumns != [] && spec.pkColumns[0] in Names(spec.capturedColumns)
    && Lower(Lookup(spec.capturedColumns, spec.pkColumns[0]).value.typeName)
       in {"bigint", "int", "smallint", "tinyint"}
  }

  predicate PageReadable(page: Page, spec: TableSpec) {
    Tabled(spec) && (page != [] ==> DistinctLeads(page) && LeadIsWhole(spec))
  }

  lemma LeadIsWholeIffInteger(spec: TableSpec)
    ensures LeadingKeyIsInteger(spec) <==> LeadIsWhole(spec)
  {
    if spec.pkColumns != [] && Lookup(spec.capturedColumns, spec.pkColumns[0]).Some? {
      IntegersAreTheWholeNumberTypes(Lookup(spec.capturedColumns, spec.pkColumns[0]).value);
    }
  }

  lemma PageAnswersIff(page: Page, state: RunState, chunkSize: int)
    ensures NextChunk(page, state, chunkSize).Success? <==> PageReadable(page, state.spec)
  {
    LeadIsWholeIffInteger(state.spec);
  }

  /** What reading a page raises, in the order it looks. */
  lemma PageRefusals(page: Page, state: RunState, chunkSize: int)
    requires !PageReadable(page, state.spec)
    ensures state.spec.pkColumns == [] ==> NextChunk(page, state, chunkSize) == Failure(NoPrimaryKey)
    ensures state.spec.pkColumns != [] && state.spec.capturedColumns == [] ==>
            NextChunk(page, state, chunkSize) == Failure(NoBusinessColumns)
    ensures NextChunk(page, state, chunkSize).Failure?
    ensures NextChunk(page, state, chunkSize).error.NoArrowType? <==>
            state.spec.pkColumns != [] && state.spec.capturedColumns != [] && RowSchema(state.spec).Failure?
    ensures NextChunk(page, state, chunkSize) == Failure(LeadingKeyRepeats) <==>
            Tabled(state.spec) && !DistinctLeads(page)
    ensures NextChunk(page, state, chunkSize) == Failure(LeadingKeyNotInteger) <==>
            Tabled(state.spec) && DistinctLeads(page) && page != [] && !LeadIsWhole(state.spec)
  {
    LeadIsWholeIffInteger(state.spec);
    if RowSchema(state.spec).Failure? {
      var i := FirstUntypedIsRaised(state.spec.capturedColumns);
    }
  }

  // ---- a batch ----

  /** Capture has read everything committed by the high watermark. */
  predicate BarrierPassed(m: Moments) {
    forall r | r in m.await.log && r.commit <= m.high.clock :: r.lsn <= m.await.captured
  }

  predicate BatchReadable(m: Moments, spec: TableSpec, from: nat, dumpDone: bool) {
    && WindowReadable(m, spec, from)
    && (!dumpDone ==> PageReadable(m.page, spec) && BarrierPassed(m))
  }

  lemma BatchAnswersIff(m: Moments, state: RunState, chunkSize: int)
    ensures Batch(m, state, chunkSize).Success? <==> BatchReadable(m, state.spec, state.lastLsn, state.dumpDone)
  {
    WindowAnswersIff(m, state);
    if !state.dumpDone {
      PageAnswersIff(m.page, state, chunkSize);
      if PageReadable(m.page, state.spec) {
        DumpAnswersIff(m, state, chunkSize);
      }
    }
  }

  lemma DumpAnswersIff(m: Moments, state: RunState, chunkSize: int)
    requires !state.dumpDone && PageReadable(m.page, state.spec)
    ensures Batch(m, state, chunkSize).Success? <==>
            BarrierPassed(m) && WindowReadable(m, state.spec, state.lastLsn)
  {
    PageAnswersIff(m.page, state, chunkSize);
    var paged := NextChunk(m.page, state, chunkSize).value.1;
    assert paged.spec == state.spec && paged.lastLsn == state.lastLsn;
    WindowAnswersIff(m, paged);
  }

  /** What a batch of a run raises, in the order it looks: the page, the barrier, the window. */
  lemma BatchRefusals(m: Moments, state: RunState, chunkSize: int)
    requires !BatchReadable(m, state.spec, state.lastLsn, state.dumpDone)
    ensures Batch(m, state, chunkSize).Failure?
    ensures !state.dumpDone && !PageReadable(m.page, state.spec) ==>
            Batch(m, state, chunkSize).error == NextChunk(m.page, state, chunkSize).error
    ensures Batch(m, state, chunkSize) == Failure(WatermarkTimeout) <==>
            !state.dumpDone && PageReadable(m.page, state.spec) && !BarrierPassed(m)
    ensures state.dumpDone || (PageReadable(m.page, state.spec) && BarrierPassed(m)) ==>
            Batch(m, state, chunkSize).error == ReadWindow(m, state).error
  {
    BatchAnswersIff(m, state, chunkSize);
    WindowAnswersIff(m, state);
    PageAnswersIff(m.page, state, chunkSize);
    if ReadWindow(m, state).Failure? {
      WindowRaisesItsOwn(m, state);
    }
    if !state.dumpDone {
      if PageReadable(m.page, state.spec) {
        if BarrierPassed(m) {
          SameWindowError(m, state, NextChunk(m.page, state, chunkSize).value.1);
        }
      } else {
        PageRefusals(m.page, state, chunkSize);
      }
    }
  }

  lemma WindowRaisesItsOwn(m: Moments, state: RunState)
    requires ReadWindow(m, state).Failure?
    ensures WindowError(ReadWindow(m, state).error)
  {
    if RowSchema(state.spec).Failure? {
      var i := FirstUntypedIsRaised(state.spec.capturedColumns);
    }
  }

  predicate WindowError(e: Error) {
    e.NoMaximumLsn? || e.NoCaptureInstance? || e.LogBelowFloor? || e.NoArrowType? || e.LsnOverflow?
  }

  predicate PageError(e: Error) {
    e.NoPrimaryKey? || e.NoBusinessColumns? || e.NoArrowType? || e.LeadingKeyRepeats? || e.LeadingKeyNotInteger?
  }

  lemma PageRaisesItsOwn(page: Page, state: RunState, chunkSize: int)
    requires NextChunk(page, state, chunkSize).Failure?
    ensures PageError(NextChunk(page, state, chunkSize).error)
  {
    if RowSchema(state.spec).Failure? {
      var i := FirstUntypedIsRaised(state.spec.capturedColumns);
    }
  }

  /** What a window raises depends on the spec and the position alone. */
  lemma SameWindowError(m: Moments, a: RunState, b: RunState)
    requires a.spec == b.spec && a.lastLsn == b.lastLsn
    requires ReadWindow(m, a).Failure?
    ensures ReadWindow(m, b).Failure? && ReadWindow(m, b).error == ReadWindow(m, a).error
  {
  }

  lemma BatchRaisesItsOwn(m: Moments, state: RunState, chunkSize: int)
    requires Batch(m, state, chunkSize).Failure?
    ensures
      var e := Batch(m, state, chunkSize).error;
      WindowError(e) || PageError(e) || e.WatermarkTimeout?
  {
    BatchAnswersIff(m, state, chunkSize);
    BatchRefusals(m, state, chunkSize);
    WindowAnswersIff(m, state);
    if ReadWindow(m, state).Failure? {
      WindowRaisesItsOwn(m, state);
    }
    PageAnswersIff(m.page, state, chunkSize);
    if NextChunk(m.page, state, chunkSize).Failure? {
      PageRaisesItsOwn(m.page, state, chunkSize);
    }
  }

  // ---- a call ----

  /** Whether a state's spec is old enough to be read again */
  predicate Due(m: Moments, state: RunState, every: Option<int>) {
    every.Some? && every.value <= m.now - state.lastInspect
  }

  /** What the catalogue says of a table */
  function Described(m: Moments, schema: string, table: string): TableSpec {
    Marked(m.inspect.catalog).(sourceSchema := schema, sourceTable := table)
  }

  function SpecAfter(m: Moments, state: RunState, every: Option<int>): TableSpec {
    if Due(m, state, every) then Described(m, state.spec.sourceSchema, state.spec.sourceTable) else state.spec
  }

  /** The catalogue still has the keys and captured columns a state was opened with. */
  predicate Undrifted(m: Moments, state: RunState) {
    && state.spec.pkColumns == m.inspect.catalog.pkColumns
    && SameColumns(state.spec.capturedColumns, m.inspect.catalog.capturedColumns)
  }

  predicate Openable(m: Moments) {
    Inspectable(m.inspect.catalog) && 0 < m.floor.floor && 0 < m.seed.captured
  }

  predicate SpecStands(m: Moments, state: RunState, every: Option<int>) {
    && (Due(m, state, every) ==> Inspectable(m.inspect.catalog) && Undrifted(m, state))
    && SpecAfter(m, state, every).captureInstance.Some?
  }

  predicate Resumable(m: Moments, schema: string, table: string, state: RunState, every: Option<int>) {
    && state.spec.QualifiedName() == schema + "." + table
    && SpecStands(m, state, every)
    && 0 < m.floor.floor <= state.lastLsn
  }

  lemma SameAsMarked(columns: seq<ColumnSpec>, captured: seq<ColumnSpec>, source: seq<ColumnSpec>)
    ensures SameColumns(columns, MarkComputed(captured, source)) <==> SameColumns(columns, captured)
  {
    MarkingIsInvisibleToEquality(captured, source);
    var marked := MarkComputed(captured, source);
    assert forall i | 0 <= i < |captured| :: MarkedFrom(marked[i], captured[i], source);
  }

  /** Where an opening starts: at the present, and never below the floor. */
  lemma SeedAnswersIff(m: Moments, schema: string, table: string)
    ensures Seed(m, schema, table).Success? <==> Openable(m)
    ensures Openable(m) ==>
      Seed(m, schema, table).value
      == RunState(Described(m, schema, table), Max(m.seed.captured, m.floor.floor), m.now, None, false)
  {
    InspectAnswersIff(m.inspect, schema, table);
  }

  lemma RefreshAnswersIff(m: Moments, state: RunState, every: Option<int>)
    ensures RefreshSpec(m, state, every).Success? && RefreshSpec(m, state, every).value.spec.captureInstance.Some?
            <==> SpecStands(m, state, every)
    ensures SpecStands(m, state, every) ==>
      RefreshSpec(m, state, every).value
      == state.(spec := SpecAfter(m, state, every),
                lastInspect := if Due(m, state, every) then m.now else state.lastInspect)
    ensures RefreshSpec(m, state, every) == Failure(SchemaChanged) <==>
            Due(m, state, every) && Inspectable(m.inspect.catalog) && !Undrifted(m, state)
    ensures RefreshSpec(m, state, every).Failure? ==>
      var e := RefreshSpec(m, state, every).error;
      e.SchemaChanged? || e.NoCaptureInstance? || CatalogueError(e)
  {
    if Due(m, state, every) {
      var schema, table := state.spec.sourceSchema, state.spec.sourceTable;
      InspectAnswersIff(m.inspect, schema, table);
      SameAsMarked(state.spec.capturedColumns, m.inspect.catalog.capturedColumns, m.inspect.catalog.columns);
      if Inspect(m.inspect, schema, table).Failure? {
        InspectRaisesItsOwn(m.inspect, schema, table);
      }
    }
  }

  /** The state a batch starts from, and when there is one. */
  lemma ResumeAnswersIff(m: Moments, schema: string, table: string, state: RunState, every: Option<int>)
    ensures Prologue(m, schema, table, Some(state), every).Success? <==> Resumable(m, schema, table, state, every)
    ensures Resumable(m, schema, table, state, every) ==>
      Prologue(m, schema, table, Some(state), every).value
      == state.(spec := SpecAfter(m, state, every),
                lastInspect := if Due(m, state, every) then m.now else state.lastInspect)
  {
    RefreshAnswersIff(m, state, every);
  }

  /** All that a call needs of the source, the state and the caller. */
  predicate Answerable(
    m: Moments, schema: string, table: string, state: Option<RunState>, chunkSize: int, every: Option<int>)
  {
    && 0 < chunkSize
    && if state.None? then
         && Openable(m)
         && BatchReadable(m, Described(m, schema, table), Max(m.seed.captured, m.floor.floor), false)
       else
         && Resumable(m, schema, table, state.value, every)
         && BatchReadable(m, SpecAfter(m, state.value, every), state.value.lastLsn, state.value.dumpDone)
  }

  /** A call answers exactly when it can, opening or resuming, dumping or tailing. */
  lemma CallAnswersIff(
    m: Moments, schema: string, table: string, state: Option<RunState>, chunkSize: int, every: Option<int>)
    ensures Dblog.Dblog(m, schema, table, state, chunkSize, every).Success? <==>
            Answerable(m, schema, table, state, chunkSize, every)
  {
    if state.None? {
      SeedAnswersIff(m, schema, table);
    } else {
      ResumeAnswersIff(m, schema, table, state.value, every);
    }
    if Prologue(m, schema, table, state, every).Success? {
      BatchAnswersIff(m, Prologue(m, schema, table, state, every).value, chunkSize);
    }
  }

  /**
   The exceptions a caller acts on mean what they say: wrong state loaded, table changed under the run,
   position aged out, capture stalled. An opening call raises none of the first three.
   */
  lemma RefusalsMeanWhatTheySay(
    m: Moments, schema: string, table: string, state: Option<RunState>, chunkSize: int, every: Option<int>)
    ensures Dblog.Dblog(m, schema, table, state, chunkSize, every) == Failure(ChunkSizeBelowOne) <==> chunkSize < 1
    ensures Dblog.Dblog(m, schema, table, state, chunkSize, every) == Failure(WrongTable) <==>
            0 < chunkSize && state.Some? && state.value.spec.QualifiedName() != schema + "." + table
    ensures Dblog.Dblog(m, schema, table, state, chunkSize, every) == Failure(SchemaChanged) <==>
            && 0 < chunkSize && state.Some? && state.value.spec.QualifiedName() == schema + "." + table
            && Due(m, state.value, every) && Inspectable(m.inspect.catalog) && !Undrifted(m, state.value)
    ensures Dblog.Dblog(m, schema, table, state, chunkSize, every) == Failure(RetentionExpired) <==>
            && 0 < chunkSize && state.Some? && state.value.spec.QualifiedName() == schema + "." + table
            && SpecStands(m, state.value, every)
            && state.value.lastLsn < m.floor.floor
  {
    StartDecides(m, schema, table, state, chunkSize, every, WrongTable);
    StartDecides(m, schema, table, state, chunkSize, every, SchemaChanged);
    StartDecides(m, schema, table, state, chunkSize, every, RetentionExpired);
    StartDecides(m, schema, table, state, chunkSize, every, ChunkSizeBelowOne);
    StartRefusals(m, schema, table, state, every);
  }

  /** These four are raised before anything of the batch is read. */
  lemma StartDecides(
    m: Moments, schema: string, table: string, state: Option<RunState>, chunkSize: int, every: Option<int>, e: Error)
    requires e.WrongTable? || e.SchemaChanged? || e.RetentionExpired? || e.ChunkSizeBelowOne?
    ensures 0 < chunkSize ==>
      (Dblog.Dblog(m, schema, table, state, chunkSize, every) == Failure(e) <==>
       Prologue(m, schema, table, state, every) == Failure(e))
    ensures chunkSize < 1 ==> Dblog.Dblog(m, schema, table, state, chunkSize, every) == Failure(ChunkSizeBelowOne)
  {
    if Prologue(m, schema, table, state, every).Success? {
      var begun := Prologue(m, schema, table, state, every).value;
      if Batch(m, begun, chunkSize).Failure? {
        BatchRaisesItsOwn(m, begun, chunkSize);
      }
    }
  }

  lemma StartRefusals(m: Moments, schema: string, table: string, state: Option<RunState>, every: Option<int>)
    ensures Prologue(m, schema, table, state, every) != Failure(ChunkSizeBelowOne)
    ensures Prologue(m, schema, table, state, every) == Failure(WrongTable) <==>
            state.Some? && state.value.spec.QualifiedName() != schema + "." + table
    ensures Prologue(m, schema, table, state, every) == Failure(SchemaChanged) <==>
            && state.Some? && state.value.spec.QualifiedName() == schema + "." + table
            && Due(m, state.value, every) && Inspectable(m.inspect.catalog) && !Undrifted(m, state.value)
    ensures Prologue(m, schema, table, state, every) == Failure(RetentionExpired) <==>
            && state.Some? && state.value.spec.QualifiedName() == schema + "." + table
            && SpecStands(m, state.value, every) && state.value.lastLsn < m.floor.floor
  {
    if state.Some? {
      ResumptionRefusals(m, schema, table, state.value, every);
    } else if Seed(m, schema, table).Failure? {
      OpeningRaisesItsOwn(m, schema, table);
    }
  }

  lemma OpeningRaisesItsOwn(m: Moments, schema: string, table: string)
    requires Seed(m, schema, table).Failure?
    ensures
      var e := Seed(m, schema, table).error;
      CatalogueError(e) || e.NoCaptureInstance? || e.NoMinimumLsn? || e.NoMaximumLsn?
  {
    if Inspect(m.inspect, schema, table).Failure? {
      InspectRaisesItsOwn(m.inspect, schema, table);
    }
  }

  lemma ResumptionRefusals(m: Moments, schema: string, table: string, state: RunState, every: Option<int>)
    ensures Prologue(m, schema, table, Some(state), every) == Failure(WrongTable) <==>
            state.spec.QualifiedName() != schema + "." + table
    ensures Prologue(m, schema, table, Some(state), every) == Failure(SchemaChanged) <==>
            && state.spec.QualifiedName() == schema + "." + table
            && Due(m, state, every) && Inspectable(m.inspect.catalog) && !Undrifted(m, state)
    ensures Prologue(m, schema, table, Some(state), every) == Failure(RetentionExpired) <==>
            && state.spec.QualifiedName() == schema + "." + table
            && SpecStands(m, state, every) && state.lastLsn < m.floor.floor
    ensures Prologue(m, schema, table, Some(state), every).Failure? ==>
            !Prologue(m, schema, table, Some(state), every).error.ChunkSizeBelowOne?
  {
    RefreshAnswersIff(m, state, every);
  }

  // ---- what an answer says ----

  /**
   A state is as old as it says: an opening call, and one whose spec is due, returns the spec inspected
   in it under the time it was; any other returns the one it was given, under its own.
   */
  lemma SpecIsAsOldAsItSays(
    m: Moments, schema: string, table: string, state: Option<RunState>, chunkSize: int, every: Option<int>)
    requires Dblog.Dblog(m, schema, table, state, chunkSize, every).Success?
    ensures
      var next := Dblog.Dblog(m, schema, table, state, chunkSize, every).value.state;
      if state.None? then next.spec == Described(m, schema, table) && next.lastInspect == m.now
      else if Due(m, state.value, every)
      then next.spec == Described(m, state.value.spec.sourceSchema, state.value.spec.sourceTable)
           && next.lastInspect == m.now
      else next.spec == state.value.spec && next.lastInspect == state.value.lastInspect
  {
    if state.None? {
      SeedAnswersIff(m, schema, table);
    } else {
      ResumeAnswersIff(m, schema, table, state.value, every);
    }
    BatchKeepsSpec(m, Prologue(m, schema, table, state, every).value, chunkSize);
  }

  lemma BatchKeepsSpec(m: Moments, state: RunState, chunkSize: int)
    requires Batch(m, state, chunkSize).Success?
    ensures
      var next := Batch(m, state, chunkSize).value.state;
      && next.spec == state.spec && next.lastInspect == state.lastInspect
      && next.lastLsn == if state.lastLsn <= m.max.captured then m.max.captured + 1 else state.lastLsn
  {
    if state.dumpDone {
      WindowAnswersIff(m, state);
    } else {
      WindowAnswersIff(m, NextChunk(m.page, state, chunkSize).value.1);
    }
  }

  /** An answered call leaves the position one past what was captured, or where it was if it was past that. */
  lemma AnswerReachesWhatWasCaptured(
    m: Moments, schema: string, table: string, state: Option<RunState>, chunkSize: int, every: Option<int>)
    requires Dblog.Dblog(m, schema, table, state, chunkSize, every).Success?
    ensures
      var from := if state.None? then Max(m.seed.captured, m.floor.floor) else state.value.lastLsn;
      Dblog.Dblog(m, schema, table, state, chunkSize, every).value.state.lastLsn
      == if from <= m.max.captured then m.max.captured + 1 else from
  {
    if state.None? {
      SeedAnswersIff(m, schema, table);
    } else {
      ResumeAnswersIff(m, schema, table, state.value, every);
    }
    BatchKeepsSpec(m, Prologue(m, schema, table, state, every).value, chunkSize);
  }

  /** A row of a frame is a change of the window, or a row of the page marked as read off the table. */
  ghost predicate RowIsAccountedFor(m: Moments, state: RunState, next: RunState, row: Row) {
    if row.op.Dump? then
      && !state.dumpDone
      && row.lsn == 0 && row.seqval == 0
      && row.commit == m.low.clock
      && row.maskWidth == MaskWidth(state.spec)
      && TableRow(row.key, row.image) in m.page
    else row in m.log.log && state.lastLsn <= row.lsn < next.lastLsn
  }

  lemma RowsAreAccountedFor(m: Moments, state: RunState, chunkSize: int, r: BatchResult)
    requires Valid(m.log) && Shaped(m, state, chunkSize, r)
    ensures forall row | row in RowsOf(r.frame) :: RowIsAccountedFor(m, state, r.state, row)
  {
    var window := Window(m, state, r);
    EventsInMembers(m.log.log, state.lastLsn, r.state.lastLsn - 1);
    AntiJoinMembers(m.page, window);
    forall row | row in RowsOf(r.frame)
      ensures RowIsAccountedFor(m, state, r.state, row)
    {
      if row !in window {
        var chunk := AntiJoin(m.page, window);
        var stamped := Stamped(chunk, MaskWidth(state.spec), m.low.clock);
        var i :| 0 <= i < |stamped| && stamped[i] == row;
        assert chunk[i] in chunk;
      }
    }
  }

  /** So with every call of a run, whether its result was kept or lost. */
  lemma EveryRowIsAccountedFor(sys: System, t: Table, c: CallOf, next: System)
    requires Step(sys, t, c, next) && Answer(sys, t, c).Success?
    ensures forall row | row in RowsOf(Answer(sys, t, c).value.frame) ::
              RowIsAccountedFor(c.m, Began(sys, t, c).value, Answer(sys, t, c).value.state, row)
  {
    AnswerUnfolds(sys, t, c);
    ChronologyBounds(sys.source, c.m);
    BatchIsShaped(c.m, Began(sys, t, c).value, c.chunkSize);
    RowsAreAccountedFor(c.m, Began(sys, t, c).value, c.chunkSize, Answer(sys, t, c).value);
  }

  // ---- the right table ----

  predicate IsOf(state: RunState, t: Table) {
    state.spec.QualifiedName() == t.schema + "." + t.name
  }

  lemma StepIsOfItsTable(sys: System, t: Table, c: CallOf, next: System)
    requires Step(sys, t, c, next)
    ensures Answer(sys, t, c).Success? ==>
      && (sys.saved.Some? ==> IsOf(sys.saved.value, t))
      && IsOf(Answer(sys, t, c).value.state, t)
    ensures next.saved == sys.saved || (next.saved.Some? && IsOf(next.saved.value, t))
  {
    if Answer(sys, t, c).Success? {
      RefusalsMeanWhatTheySay(c.m, t.schema, t.name, sys.saved, c.chunkSize, c.inspectEvery);
      SpecIsAsOldAsItSays(c.m, t.schema, t.name, sys.saved, c.chunkSize, c.inspectEvery);
    }
  }

  /**
   A state only ever serves the table it is of: a run opened with no state saves none but states of the
   table asked for, and every answered call of any run returns one.
   */
  lemma {:induction false} StatesAreOfTheirTable(run: seq<System>, t: Table, calls: seq<CallOf>, i: nat)
    requires Follows(run, t, calls) && i <= |calls|
    requires run[0].saved.Some? ==> IsOf(run[0].saved.value, t)
    ensures run[i].saved.Some? ==> IsOf(run[i].saved.value, t)
    decreases i
  {
    if i > 0 {
      StatesAreOfTheirTable(run, t, calls, i - 1);
      StepIsOfItsTable(run[i - 1], t, calls[i - 1], run[i]);
    }
  }

  /** Names without a dot in them, as identifiers are, are told apart by the one name they are joined into. */
  lemma JoinedNamesTellTablesApart(a: Table, b: Table)
    requires '.' !in a.schema && '.' !in b.schema
    ensures a.schema + "." + a.name == b.schema + "." + b.name <==> a == b
  {
    var x, y := a.schema + "." + a.name, b.schema + "." + b.name;
    if x == y {
      NoDotBefore(a.schema, x, |b.schema|);
      NoDotBefore(b.schema, x, |a.schema|);
      assert a.schema == x[..|a.schema|] && b.schema == y[..|b.schema|];
      assert a.name == x[|a.schema| + 1..] && b.name == y[|b.schema| + 1..];
    }
  }

  lemma NoDotBefore(s: string, x: string, k: nat)
    requires '.' !in s && s <= x && k < |x| && x[k] == '.'
    ensures |s| <= k
  {
    forall i | 0 <= i < |s|
      ensures x[i] != '.'
    {
      assert s[i] in s;
    }
  }

  // ---- state_at_lsn ----

  /** state_at_lsn answers, with just that state, exactly when the table is inspected and the position retained. */
  lemma StateAtLsnAnswersIff(m: Moments, schema: string, table: string, from: nat, dumpDone: bool)
    ensures StateAtLsn(m, schema, table, from, dumpDone).Success? <==>
            Inspectable(m.inspect.catalog) && 0 < m.floor.floor <= from
    ensures StateAtLsn(m, schema, table, from, dumpDone).Success? ==>
            StateAtLsn(m, schema, table, from, dumpDone).value
            == RunState(Described(m, schema, table), from, m.now, None, dumpDone)
    ensures StateAtLsn(m, schema, table, from, dumpDone) == Failure(RetentionExpired) <==>
            Inspectable(m.inspect.catalog) && from < m.floor.floor
  {
    InspectAnswersIff(m.inspect, schema, table);
    if Inspect(m.inspect, schema, table).Failure? {
      InspectRaisesItsOwn(m.inspect, schema, table);
    }
  }
}
