/**
 Where the correctness claim ends. Each result below says exactly when it holds, over all runs, and
 the runs that break it otherwise are ones a caller can get into without an error being raised.
 */
module Limits {
  import opened Outcomes
  import opened Catalog
  import opened Schema
  import opened Rows
  import opened Source
  import opened Dblog
  import opened Call
  import opened Run
  import opened Reconstruction
  import opened Futures
  import Guarantees
  import Paging
  import Order
  import Lsn

  /** The last call of a run was answered and its result kept. */
  ghost predicate EndsKept(run: seq<System>, t: Table, calls: seq<CallOf>) {
    Follows(run, t, calls) && |calls| > 0 && WasKept(run[|calls| - 1], t, calls[|calls| - 1])
  }

  /** What a consumer was promised, once the table is walked. */
  predicate Reconstructed(sys: System) {
    sys.saved.Some? && sys.saved.value.dumpDone ==> Target(sys) == Truth(sys)
  }

  lemma KeptRunReconstructs(run: seq<System>, t: Table, calls: seq<CallOf>)
    requires IsRun(run, t, calls) && EndsKept(run, t, calls)
    requires run[|calls|].walks && run[|calls|].base == map[]
    ensures Reconstructed(run[|calls|])
  {
    var n := |calls|;
    EveryRunHolds(run, t, calls);
    KeptSettles(run[n - 1], t, calls[n - 1], run[n]);
    if run[n].saved.value.dumpDone {
      ReconstructedSoFar(run[n]);
    }
  }

  // ---- a catalogue answer to break it with ----

  const ID := ColumnSpec("id", "int", 10, 0, None)
  const SPEC := TableSpec("dbo", "orders", ["id"], [ID], [ID], Some("dbo_orders"))
  const ORDERS := Table("dbo", "orders")

  /** What inspect() makes of it, asked about a table */
  function SpecOf(t: Table): TableSpec {
    SPEC.(sourceSchema := t.schema, sourceTable := t.name)
  }

  lemma SpecIsSound(t: Table)
    ensures Validate(SpecOf(t)).Success?
    ensures RowSchema(SpecOf(t)) == Success([Field("id", Int32)])
    ensures SpecOf(t).BusinessColumns() == ["id"]
    ensures LeadingKeyIsInteger(SpecOf(t))
    ensures Marked(SPEC) == SPEC
  {
    IntReadsAsInt32(ID);
    assert [ID][1..] == [];
    var none: seq<Field> := [];
    assert Fields([ID][1..]) == Success(none);
    assert [Field("id", Int32)] + none == [Field("id", Int32)];
    assert Names([ID]) == ["id"];
    assert "id" in Names([ID]);
    var found := Lookup([ID], "id");
    assert found == Some(ID);
    assert Computed([ID]) == [];
    assert MarkComputed([ID], [ID]) == [ID];
    NotAMetadataName("id");
    ValidateAcceptsExactlyTheReconcilable(SpecOf(t));
  }

  lemma IntReadsAsInt32(column: ColumnSpec)
    requires column.typeName == "int"
    ensures ArrowTypeOf(column) == Success(Int32)
  {
    assert Lower("int") == "int";
  }

  lemma NotAMetadataName(name: string)
    requires |name| <= 4
    ensures name !in METADATA_COLUMNS
  {
    assert forall i | 0 <= i < |METADATA_COLUMNS| :: |METADATA_COLUMNS[i]| > 4;
  }

  /** A call during which nothing happened but, perhaps, after its last read but one. */
  function Still(s: Source, page: Page, last: Source): Moments {
    Moments(0, s, s, s, s, page, s, s, s, last)
  }

  function Asked(m: Moments, chunkSize: int, fate: Fate): CallOf {
    CallOf(m, (_: Key) => m.low.end, chunkSize, None, fate)
  }

  function Unopened(s: Source, base: Replica): System {
    System(s, None, base, 0, true, false, -1, [], [])
  }

  /** An emptied source whose catalogue gives that answer, with room for one more position */
  ghost predicate Ready(s: Source) {
    Emptied(s) && s.catalog == SPEC && s.end < Lsn.MAX
  }

  lemma EmptyCallAnswers(t: Table, s: Source)
    requires Ready(s)
    ensures
      var m, begun := Still(s, [], s), RunState(SpecOf(t), s.end, 0, None, false);
      && Seed(m, t.schema, t.name) == Success(begun)
      && Batch(m, begun, 2) == Success(BatchResult(None, RunState(SpecOf(t), s.end + 1, 0, None, true)))
  {
    var m, begun := Still(s, [], s), RunState(SpecOf(t), s.end, 0, None, false);
    SpecIsSound(t);
    assert Seed(m, t.schema, t.name) == Success(begun);
    assert NextChunk([], begun, 2) == Success((None, begun.(dumpDone := true)));
    var none: Option<Frame> := None;
    assert ReadWindow(m, begun.(dumpDone := true)) == Success((none, RunState(SpecOf(t), s.end + 1, 0, None, true)));
  }

  /** A run opened into any target over an emptied table reads one empty page and is done. */
  lemma EmptyCall(sys: System, t: Table, s: Source) returns (c: CallOf, next: System)
    requires sys.saved.None? && Evolves(sys.source, s) && Valid(sys.source) && Ready(s)
    ensures Step(sys, t, c, next) && WasKept(sys, t, c)
    ensures next.saved.Some? && next.saved.value.dumpDone
    ensures Target(next) == sys.base && Truth(next) == map[]
  {
    var m := Still(s, [], s);
    c := Asked(m, 2, Saved);
    EmptyCallAnswers(t, s);
    var begun := RunState(SpecOf(t), s.end, 0, None, false);
    var none: Option<Frame> := None;
    var r := BatchResult(none, RunState(SpecOf(t), s.end + 1, 0, None, true));
    assert Began(sys, t, c) == Success(begun);
    assert Answer(sys, t, c) == Success(r);
    EmptyCallIsLegal(sys.source, s, begun);
    next := Kept(Opened(sys, begun), s, r);
  }

  lemma EmptyCallIsLegal(before: Source, s: Source, state: RunState)
    requires Valid(before) && Evolves(before, s) && Ready(s)
    requires state.lastLsn == s.end && state.chunkKey.None?
    ensures Legal(before, Still(s, [], s), Asked(Still(s, [], s), 2, Saved).at, state, 2)
  {
    assert Evolves(s, s);
  }

  lemma OneCall(first: System, t: Table, c: CallOf, second: System)
    requires Step(first, t, c, second) && WasKept(first, t, c)
    ensures EndsKept([first, second], t, [c])
  {
  }

  lemma OneKeptRun(first: System, t: Table, c: CallOf, second: System)
    requires Begins(first) && first.saved.None? && Step(first, t, c, second) && WasKept(first, t, c)
    ensures OpensAndEndsKept([first, second], t, [c])
  {
    OneCall(first, t, c, second);
  }

  // ---- the target a run opens into ----

  /** Over any source there is a run whose finished target is what its opening found there, and whose table is empty. */
  lemma StaleRun(sys: System, t: Table) returns (run: seq<System>, calls: seq<CallOf>)
    requires sys.saved.None? && Valid(sys.source) && UniqueLeads(sys.source.log) && sys.source.end + 2 < Lsn.MAX
    ensures OpensAndEndsKept(run, t, calls) && run[0] == sys
    ensures run[|calls|].saved.Some? && run[|calls|].saved.value.dumpDone
    ensures Target(run[|calls|]) == sys.base && Truth(run[|calls|]) == map[]
  {
    var s := AnyTableCanBeEmptied(sys.source, SPEC);
    var c, next := EmptyCall(sys, t, s);
    OneKeptRun(sys, t, c, next);
    run, calls := [sys, next], [c];
  }

  /**
   From wherever a source stands, every run opened on it reconstructs its table, whatever happens, if and
   only if the target it opens into is empty, LSNs being left.
   */
  lemma EmptyTargetIsNeededAnywhere(sys: System, t: Table)
    requires sys.saved.None? && Valid(sys.source) && UniqueLeads(sys.source.log) && sys.source.end + 2 < Lsn.MAX
    ensures (forall run: seq<System>, calls: seq<CallOf> |
               OpensAndEndsKept(run, t, calls) && run[0] == sys ::
               Reconstructed(run[|calls|]))
            <==> sys.base == map[]
  {
    if sys.base == map[] {
      forall run: seq<System>, calls: seq<CallOf> | OpensAndEndsKept(run, t, calls) && run[0] == sys
        ensures Reconstructed(run[|calls|])
      {
        EveryRunReconstructs(run, t, calls);
      }
    } else {
      var run, calls := StaleRun(sys, t);
      assert !Reconstructed(run[|calls|]);
    }
  }

  /**
   Every run reconstructs its table, whatever happens, if and only if it opens into an empty target:
   state=None over a target that was ever written does not mend it, the target has to be emptied too.
   */
  lemma EmptyTargetIsNeeded(base: Replica)
    ensures (forall run: seq<System>, t: Table, calls: seq<CallOf> |
               OpensAndEndsKept(run, t, calls) && run[0].base == base ::
               Reconstructed(run[|calls|]))
            <==> base == map[]
  {
    if base == map[] {
      forall run: seq<System>, t: Table, calls: seq<CallOf> |
        OpensAndEndsKept(run, t, calls) && run[0].base == base
        ensures Reconstructed(run[|calls|])
      {
        EveryRunReconstructs(run, t, calls);
      }
    } else {
      var run, calls := StaleRun(Unopened(Source([], 1, 1, 1, true, 0, SPEC), base), ORDERS);
      assert !Reconstructed(run[|calls|]);
    }
  }

  // ---- an opening result that was written and lost ----

  /**
   A call that opened a run and lost its state is harmless, so that every run opened after it reconstructs
   the table whatever happens, if and only if what it wrote leaves the target empty.
   */
  lemma LostOpeningIsHarmlessIffNothingIsLeft(sys: System, t: Table, c: CallOf, next: System)
    requires Step(sys, t, c, next) && sys.saved.None?
    requires Answer(sys, t, c).Success? && c.fate.Lost?
    requires next.source.end + 2 < Lsn.MAX
    ensures c.fate.written <= |RowsOf(Answer(sys, t, c).value.frame)|
    ensures (forall run: seq<System>, calls: seq<CallOf> |
               OpensAndEndsKept(run, t, calls) && run[0] == next ::
               Reconstructed(run[|calls|]))
            <==> Apply(sys.base, RowsOf(Answer(sys, t, c).value.frame)[..c.fate.written]) == map[]
  {
    LostOpeningLeavesItsRows(sys, t, c, next);
    EmptyTargetIsNeededAnywhere(next, t);
  }

  lemma LostOpeningLeavesItsRows(sys: System, t: Table, c: CallOf, next: System)
    requires Step(sys, t, c, next) && sys.saved.None?
    requires Answer(sys, t, c).Success? && c.fate.Lost?
    ensures next.saved.None? && Valid(next.source) && UniqueLeads(next.source.log)
    ensures c.fate.written <= |RowsOf(Answer(sys, t, c).value.frame)|
    ensures next.base == Apply(sys.base, RowsOf(Answer(sys, t, c).value.frame)[..c.fate.written])
  {
    AnswerUnfolds(sys, t, c);
    SeedOpensAtThePresent(c.m, t);
    var rows := RowsOf(Answer(sys, t, c).value.frame)[..c.fate.written];
    assert [] + rows == rows;
  }

  const IMAGE: Image := [Number(1)]
  const INSERTED := Row(1, 1, Insert, 1, 0, [1], IMAGE)
  const DELETED := Row(2, 1, Delete, 1, 0, [1], IMAGE)

  /** A table of one row, and the same table after that row was deleted and other tables moved on */
  const BEFORE := Source([INSERTED], 1, 1, 1, true, 0, SPEC)
  const AFTER := Source([INSERTED, DELETED], 3, 3, 1, true, 0, SPEC)

  lemma SourcesAreValid()
    ensures Valid(BEFORE) && Valid(AFTER) && Evolves(BEFORE, AFTER)
    ensures UniqueLeads(BEFORE.log) && UniqueLeads(AFTER.log)
  {
    assert AFTER.log[..1] == BEFORE.log;
    OneKeyHasUniqueLeads(BEFORE.log);
    OneKeyHasUniqueLeads(AFTER.log);
  }

  lemma OneKeyHasUniqueLeads(log: seq<Row>)
    requires forall r | r in log :: r.key == [1]
    ensures UniqueLeads(log)
  {
    forall p: int, a: Key | a in TableAt(log, p)
      ensures a == [1]
    {
      EventsInMembers(log, 0, p);
      if a != [1] {
        ApplyUntouched(map[], EventsIn(log, 0, p), a);
      }
    }
  }

  lemma OpeningAnswers()
    ensures
      var m := Still(BEFORE, [TableRow([1], IMAGE)], BEFORE);
      var begun := RunState(SPEC, 1, 0, None, false);
      && Seed(m, "dbo", "orders") == Success(begun)
      && Batch(m, begun, 2).Success?
      && RowsOf(Batch(m, begun, 2).value.frame) == [INSERTED]
  {
    SpecIsSound(ORDERS);
    var page: Page := [TableRow([1], IMAGE)];
    var m := Still(BEFORE, page, BEFORE);
    var begun := RunState(SPEC, 1, 0, None, false);
    var paged := RunState(SPEC, 1, 0, Some(2), true);
    var window := Frame(METADATA_FIELDS + [Field("id", Int32)], [INSERTED]);
    assert Seed(m, "dbo", "orders") == Success(begun);
    assert NextChunk(page, begun, 2) == Success((Some(page), paged));
    assert EventsIn(BEFORE.log, 1, 1) == [INSERTED] by {
      assert BEFORE.log[..0] == [];
    }
    assert ReadWindow(m, paged) == Success((Some(window), paged.(lastLsn := 2)));
    assert INSERTED in window.rows;
    var at := SupersedeRefinesAntiJoin(page, Some(window));
    assert Supersede(page, Some(window)) == [];
    assert MergeChunk(page, Some(window), 0, SPEC).value.rows == [INSERTED] + [];
  }

  lemma OpeningIsLegal()
    ensures
      var m := Still(BEFORE, [TableRow([1], IMAGE)], BEFORE);
      Legal(BEFORE, m, Asked(m, 2, Lost(1)).at, RunState(SPEC, 1, 0, None, false), 2)
  {
    SourcesAreValid();
    BeforeHoldsOneRow();
    assert Evolves(BEFORE, BEFORE);
  }

  /** The opening call reads the row's insert; its frame is written and its state is lost. */
  lemma OpeningIsLost() returns (c: CallOf, next: System)
    ensures Step(Unopened(BEFORE, map[]), ORDERS, c, next)
    ensures Answer(Unopened(BEFORE, map[]), ORDERS, c).Success? && c.fate.Lost?
    ensures next.saved.None? && next.source == BEFORE && next.base == map[[1] := IMAGE]
  {
    OpeningAnswers();
    var sys := Unopened(BEFORE, map[]);
    var page: Page := [TableRow([1], IMAGE)];
    var m := Still(BEFORE, page, BEFORE);
    c := Asked(m, 2, Lost(1));
    var begun := RunState(SPEC, 1, 0, None, false);
    assert Began(sys, ORDERS, c) == Success(begun);
    assert Answer(sys, ORDERS, c) == Batch(m, begun, 2);
    OpeningIsLegal();
    var after := Dropped(Opened(sys, begun), BEFORE, Batch(m, begun, 2).value, 1);
    next := sys.(source := BEFORE, base := Target(after));
    LostOpeningLeavesItsRows(sys, ORDERS, c, next);
    assert [INSERTED][..1] == [INSERTED];
    assert Apply(map[], [INSERTED]) == map[[1] := IMAGE] by {
      assert [INSERTED][..0] == [];
    }
  }

  lemma EventsInAppend(log: seq<Row>, last: Row, lo: int, hi: int)
    ensures EventsIn(log + [last], lo, hi) == EventsIn(log, lo, hi) + (if lo <= last.lsn <= hi then [last] else [])
  {
    assert (log + [last])[..|log|] == log;
  }

  lemma ApplyAppend(m: Replica, rows: seq<Row>, last: Row)
    ensures Apply(m, rows + [last]) == ApplyRow(Apply(m, rows), last)
  {
    assert (rows + [last])[..|rows|] == rows;
  }

  lemma BeforeHoldsOneRow()
    ensures TableAt(BEFORE.log, 1) == map[[1] := IMAGE]
  {
    EventsInAppend([], INSERTED, 0, 1);
    ApplyAppend(map[], [], INSERTED);
    assert BEFORE.log == [] + [INSERTED];
    assert EventsIn(BEFORE.log, 0, 1) == [] + [INSERTED];
  }

  lemma AfterIsEmptied()
    ensures Ready(AFTER)
  {
    SourcesAreValid();
    AfterHoldsNothing();
    assert AFTER.log == ([] + [INSERTED]) + [DELETED];
    EventsInAppend([], INSERTED, 3, 3);
    EventsInAppend([] + [INSERTED], DELETED, 3, 3);
  }

  lemma AfterHoldsNothing()
    ensures TableAt(AFTER.log, 3) == map[]
  {
    assert AFTER.log == ([] + [INSERTED]) + [DELETED];
    EventsInAppend([], INSERTED, 0, 3);
    EventsInAppend([] + [INSERTED], DELETED, 0, 3);
    ApplyAppend(map[], [], INSERTED);
    ApplyAppend(map[], [] + [INSERTED], DELETED);
    assert TableAt(AFTER.log, 3) == Apply(map[], ([] + [INSERTED]) + [DELETED]);
  }

  lemma TwoCalls(first: System, c: CallOf, second: System, c': CallOf, third: System)
    requires Begins(first) && Step(first, ORDERS, c, second) && Step(second, ORDERS, c', third)
    ensures IsRun([first, second, third], ORDERS, [c, c'])
  {
    var run, calls := [first, second, third], [c, c'];
    forall i | 0 <= i < 2
      ensures Step(run[i], ORDERS, calls[i], run[i + 1])
    {
      if i == 0 {
        assert run[i] == first && calls[i] == c && run[i + 1] == second;
      } else {
        assert run[i] == second && calls[i] == c' && run[i + 1] == third;
      }
    }
  }

  /**
   The documentation calls a frame written without its state safe, to be read again. For the call that
   opened the run it is not: here the row it wrote is deleted before the next call opens the run anew,
   past the delete, and the finished target keeps a row the table no longer has, no error raised.
   */
  lemma LostOpeningIsNotAtLeastOnce() returns (run: seq<System>, calls: seq<CallOf>)
    ensures IsRun(run, ORDERS, calls) && EndsKept(run, ORDERS, calls) && |calls| == 2
    ensures run[0].saved.None? && run[0].base == map[] && calls[0].fate.Lost?
    ensures Answer(run[0], ORDERS, calls[0]).Success?
    ensures run[2].saved.Some? && run[2].saved.value.dumpDone
    ensures [1] in Target(run[2]) && [1] !in Truth(run[2]) && !Reconstructed(run[2])
  {
    SourcesAreValid();
    AfterIsEmptied();
    var lost, reopened := OpeningIsLost();
    var kept, done := EmptyCall(reopened, ORDERS, AFTER);
    TwoCalls(Unopened(BEFORE, map[]), lost, reopened, kept, done);
    run, calls := [Unopened(BEFORE, map[]), reopened, done], [lost, kept];
  }

  // ---- an opening the source has not reached ----

  /** A run that state_at_lsn opened, on a source as its first call finds it */
  function OpenedAt(s: Source, state: RunState): System {
    Opened(Unopened(s, map[]), state)
  }

  /** A state a walk can start from at a position: what state_at_lsn hands back, keyed by an integer. */
  predicate Walkable(state: RunState, t: Table) {
    && Paging.Readable(state.spec) && state.spec.captureInstance.Some?
    && state.spec.QualifiedName() == t.schema + "." + t.name
    && state.chunkKey.None? && !state.dumpDone
  }

  lemma BuiltStateIsWalkable(m: Moments, t: Table, position: nat)
    requires StateAtLsn(m, t.schema, t.name, position, false).Success?
    requires LeadingKeyIsInteger(StateAtLsn(m, t.schema, t.name, position, false).value.spec)
    ensures Walkable(StateAtLsn(m, t.schema, t.name, position, false).value, t)
    ensures StateAtLsn(m, t.schema, t.name, position, false).value.lastLsn == position
    ensures 0 < m.floor.floor <= position
  {
    var spec := StateAtLsn(m, t.schema, t.name, position, false).value.spec;
    ValidateAcceptsExactlyTheReconcilable(spec);
    assert spec.pkColumns[0] in spec.pkColumns;
  }

  /** The whole table as one page, read while nothing happened, from a position nothing has reached. */
  lemma WholePageAnswers(s: Source, page: Page, last: Source, t: Table, state: RunState) returns (r: BatchResult)
    requires Valid(s) && 0 < s.floor && s.captured == s.end && s.end + 1 < state.lastLsn
    requires Walkable(state, t) && DistinctLeads(page)
    ensures Prologue(Still(s, page, last), t.schema, t.name, Some(state), None) == Success(state)
    ensures Batch(Still(s, page, last), state, |page| + 1) == Success(r)
    ensures RowsOf(r.frame) == Stamped(page, MaskWidth(state.spec), s.clock)
    ensures r.state == state.(chunkKey := r.state.chunkKey, dumpDone := true)
  {
    var m := Still(s, page, last);
    var key := if page == [] then None else Some(Lead(page[|page| - 1].key) + 1);
    var paged := state.(chunkKey := key, dumpDone := true);
    var chunk := if page == [] then None else Some(page);
    assert NextChunk(page, state, |page| + 1) == Success((chunk, paged));
    var none: Option<Frame> := None;
    assert ReadWindow(m, paged) == Success((none, paged));
    r := Batch(m, state, |page| + 1).value;
  }

  lemma WholePageIsLegal(before: Source, s: Source, page: Page, last: Source, state: RunState)
    requires Valid(before) && Evolves(before, s)
    requires Valid(s) && Valid(last) && Evolves(s, last) && UniqueLeads(last.log)
    requires Paging.Lists(page, TableAt(s.log, s.end)) && last.floor <= state.lastLsn && state.chunkKey.None?
    ensures
      var m := Still(s, page, last);
      Legal(before, m, Asked(m, |page| + 1, Saved).at, state, |page| + 1)
  {
    assert Evolves(s, s);
    Paging.WithinEverything(page);
    Paging.SnapshotPageIsLegal(s.log, s.end, s.end, s.end, page, None, |page| + 1);
  }

  lemma ListedLeadsAreDistinct(log: seq<Row>, position: int, page: Page)
    requires UniqueLeads(log) && Paging.Lists(page, TableAt(log, position))
    ensures DistinctLeads(page)
  {
    forall i, j | 0 <= i < j < |page|
      ensures Lead(page[i].key) != Lead(page[j].key)
    {
      assert page[i] in page && page[j] in page;
      assert page[i].key in TableAt(log, position) && page[j].key in TableAt(log, position);
      Order.LessIsTotal(page[i].key, page[j].key);
    }
  }

  lemma CaughtUp(s: Source)
    requires Valid(s)
    ensures Valid(s.(captured := s.end)) && Evolves(s, s.(captured := s.end))
  {
    StepKeepsValid(s, s.(captured := s.end));
  }

  lemma AheadStep(s: Source, page: Page, last: Source, t: Table, state: RunState) returns (c: CallOf, next: System)
    requires Valid(s) && UniqueLeads(s.log) && 0 < s.floor && Walkable(state, t) && s.end + 1 < state.lastLsn
    requires Paging.Lists(page, TableAt(s.log, s.end))
    requires Valid(last) && Evolves(s.(captured := s.end), last) && UniqueLeads(last.log) && last.end == state.lastLsn
    ensures Step(OpenedAt(s, state), t, c, next) && WasKept(OpenedAt(s, state), t, c)
    ensures next.saved.Some? && next.saved.value.dumpDone && next.saved.value.lastLsn == state.lastLsn
    ensures next.source == last
    ensures exists width: nat, clock: int :: Target(next) == Apply(map[], Stamped(page, width, clock))
  {
    var now := s.(captured := s.end);
    var m := Still(now, page, last);
    c := Asked(m, |page| + 1, Saved);
    CaughtUp(s);
    ListedLeadsAreDistinct(s.log, s.end, page);
    var r := WholePageAnswers(now, page, last, t, state);
    WholePageIsLegal(s, now, page, last, state);
    next := Kept(OpenedAt(s, state), last, r);
    FirstFrameIsTheTarget(s, state, last, r);
    assert Target(next) == Apply(map[], Stamped(page, MaskWidth(state.spec), s.clock));
  }

  lemma FirstFrameIsTheTarget(s: Source, state: RunState, last: Source, r: BatchResult)
    ensures Target(Kept(OpenedAt(s, state), last, r)) == Apply(map[], RowsOf(r.frame))
  {
    assert [] + RowsOf(r.frame) == RowsOf(r.frame);
  }

  lemma UnreadKeyIsAbsent(page: Page, width: nat, clock: int, key: Key)
    requires forall row | row in page :: row.key != key
    ensures key !in Apply(map[], Stamped(page, width, clock))
  {
    var rows := Stamped(page, width, clock);
    forall r | r in rows
      ensures r.key != key
    {
      var i :| 0 <= i < |rows| && rows[i] == r;
      assert page[i] in page;
    }
    ApplyUntouched(map[], rows, key);
  }

  /**
   One call from a position ahead of the source: it reads the table whole, and a row is committed between
   its page and its end. The walk ends without the row and the next window opens past it, so no later
   call brings it.
   */
  lemma AheadLosesARow(s: Source, t: Table, state: RunState) returns (run: seq<System>, calls: seq<CallOf>)
    requires Valid(s) && UniqueLeads(s.log) && 0 < s.floor && Walkable(state, t) && s.end + 1 < state.lastLsn
    ensures EndsKept(run, t, calls) && run[0] == OpenedAt(s, state)
    ensures !Reconstructed(run[|calls|])
  {
    var page := SortedListing(TableAt(s.log, s.end));
    CaughtUp(s);
    var last := ARowCanBeAdded(s.(captured := s.end), page, state.lastLsn);
    var c, next := AheadStep(s, page, last, t, state);
    MissesTheRow(s, page, next);
    OneCall(OpenedAt(s, state), t, c, next);
    run, calls := [OpenedAt(s, state), next], [c];
  }

  lemma MissesTheRow(s: Source, page: Page, sys: System)
    requires sys.saved.Some? && sys.saved.value.dumpDone && s.end + 1 < sys.saved.value.lastLsn
    requires Sorted(page)
    requires forall p: int | s.end < p :: FreshKey(page) in TableAt(sys.source.log, p)
    requires exists width: nat, clock: int :: Target(sys) == Apply(map[], Stamped(page, width, clock))
    ensures !Reconstructed(sys)
  {
    FreshKeyIsPastAll(page);
    var width: nat, clock: int :| Target(sys) == Apply(map[], Stamped(page, width, clock));
    UnreadKeyIsAbsent(page, width, clock, FreshKey(page));
    assert FreshKey(page) in Truth(sys);
  }

  /**
   state_at_lsn accepts any position above the floor. Whatever the source and whatever its table holds, a
   run that walks the table from one is right, whatever happens, if and only if the position is at most one
   past the committed end as the first call finds it: further on, changes committed before it and after
   their page was read are in no page and no window.
   */
  lemma OpeningMustNotLieAhead(m: Moments, t: Table, position: nat, s: Source)
    requires StateAtLsn(m, t.schema, t.name, position, false).Success?
    requires LeadingKeyIsInteger(StateAtLsn(m, t.schema, t.name, position, false).value.spec)
    requires Valid(s) && UniqueLeads(s.log) && Evolves(m.floor, s)
    ensures
      var first := OpenedAt(s, StateAtLsn(m, t.schema, t.name, position, false).value);
      (forall run: seq<System>, calls: seq<CallOf> |
         EndsKept(run, t, calls) && run[0] == first :: Reconstructed(run[|calls|]))
      <==> position <= s.end + 1
  {
    BuiltStateIsWalkable(m, t, position);
    var state := StateAtLsn(m, t.schema, t.name, position, false).value;
    if position <= s.end + 1 {
      forall run: seq<System>, calls: seq<CallOf> | EndsKept(run, t, calls) && run[0] == OpenedAt(s, state)
        ensures Reconstructed(run[|calls|])
      {
        OpeningIsFixed(run, t, calls, 0, |calls|);
        KeptRunReconstructs(run, t, calls);
      }
    } else {
      var run, calls := AheadLosesARow(s, t, state);
    }
  }

  // ---- a column retyped within one Arrow type ----

  function Named(typeName: string): TableSpec {
    var columns := [ID, ColumnSpec("name", typeName, 0, 0, None)];
    TableSpec("dbo", "orders", ["id"], columns, columns, Some("dbo_orders"))
  }

  lemma FieldsGain(column: ColumnSpec, rest: seq<ColumnSpec>, arrow: ArrowType, fields: seq<Field>)
    requires ArrowTypeOf(column) == Success(arrow) && Fields(rest) == Success(fields)
    ensures Fields([column] + rest) == Success([Field(column.name, arrow)] + fields)
  {
    assert ([column] + rest)[1..] == rest;
  }

  lemma NamedReadsAsText(typeName: string)
    requires typeName == "varchar" || typeName == "nvarchar"
    ensures RowSchema(Named(typeName)) == Success([Field("id", Int32), Field("name", LargeString)])
  {
    var name := ColumnSpec("name", typeName, 0, 0, None);
    assert Lower(typeName) == typeName;
    IntReadsAsInt32(ID);
    var none: seq<Field> := [];
    assert Fields([]) == Success(none);
    assert [name] + [] == [name] && [Field("name", LargeString)] + none == [Field("name", LargeString)];
    FieldsGain(name, [], LargeString, none);
    FieldsGain(ID, [name], Int32, [Field("name", LargeString)]);
    assert [ID] + [name] == [ID, name];
    assert [Field("id", Int32)] + [Field("name", LargeString)] == [Field("id", Int32), Field("name", LargeString)];
  }

  lemma NamedAreLookedUp(name: ColumnSpec)
    requires name.name == "name"
    ensures Lookup([ID, name], "id") == Some(ID) && Lookup([ID, name], "name") == Some(name)
  {
    assert |"id"| != |"name"|;
    assert [ID, name][..1] == [ID];
    assert Names([ID])[0] == "id";
    assert Lookup([ID], "id") == Some(ID);
  }

  lemma NamedIsSound(typeName: string)
    requires typeName == "varchar" || typeName == "nvarchar"
    ensures Validate(Named(typeName)).Success? && Marked(Named(typeName)) == Named(typeName)
    ensures RowSchema(Named(typeName)) == Success([Field("id", Int32), Field("name", LargeString)])
  {
    var name := ColumnSpec("name", typeName, 0, 0, None);
    NamedReadsAsText(typeName);
    assert Lower(typeName) == typeName;
    IntReadsAsInt32(ID);
    assert Names([ID, name])[0] == "id" && Names([ID, name])[1] == "name";
    assert |"id"| != |"name"|;
    assert [ID, name][1..] == [name];
    NamedAreLookedUp(name);
    assert Computed([name]) == [] && Computed([ID, name]) == [];
    assert MarkComputed([ID, name], [ID, name]) == [ID, name];
    NotAMetadataName("id");
    NotAMetadataName("name");
    ValidateAcceptsExactlyTheReconcilable(Named(typeName));
  }

  /**
   A varchar column altered to nvarchar: inspect() accepts the table before and after, both declare the
   same frames, and the next call that re-inspects it raises.
   */
  lemma RetypingWithinOneArrowTypeStopsARun(before: Source, after: Source, position: nat, page: Page)
    requires before.catalog == Named("varchar") && after.catalog == Named("nvarchar")
    ensures Inspect(before, "dbo", "orders") == Success(Named("varchar"))
    ensures Inspect(after, "dbo", "orders") == Success(Named("nvarchar"))
    ensures EventSchema(Named("varchar")) == EventSchema(Named("nvarchar"))
    ensures
      var state := RunState(Named("varchar"), position, -1, None, false);
      && RefreshSpec(Still(after, page, after), state, Some(1)) == Failure(SchemaChanged)
      && Dblog.Dblog(Still(after, page, after), "dbo", "orders", Some(state), 2, Some(1)) == Failure(SchemaChanged)
  {
    NamedIsSound("varchar");
    NamedIsSound("nvarchar");
    var m, state := Still(after, page, after), RunState(Named("varchar"), position, -1, None, false);
    assert Named("varchar").capturedColumns[1].Signature() != Named("nvarchar").capturedColumns[1].Signature() by {
      assert |Lower("varchar")| != |Lower("nvarchar")|;
    }
    Guarantees.NeedlessStopIffRetyped(m, state, 1);
  }
}
