/** The algorithm's correctness claim, for every run. */
module Reconstruction {
  import opened Outcomes
  import opened Rows
  import opened Source
  import opened Dblog
  import opened Call
  import opened Run

  /** One call of a run: what the source answered, what the caller asked for, what became of the result. */
  datatype CallOf = CallOf(m: Moments, at: Key -> int, chunkSize: int, inspectEvery: Option<int>, fate: Fate)

  datatype Table = Table(schema: string, name: string)

  function Began(sys: System, t: Table, c: CallOf): Result<RunState> {
    Prologue(c.m, t.schema, t.name, sys.saved, c.inspectEvery)
  }

  function Answer(sys: System, t: Table, c: CallOf): Result<BatchResult> {
    Dblog.Dblog(c.m, t.schema, t.name, sys.saved, c.chunkSize, c.inspectEvery)
  }

  /** What a batch leaves, whether its result was kept or dropped. */
  function Aftermath(begun: System, source: Source, r: BatchResult, fate: Fate): System
    requires fate.Lost? ==> fate.written <= |RowsOf(r.frame)|
  {
    match fate
    case Saved => Kept(begun, source, r)
    case Lost(written) => Dropped(begun, source, r, written)
  }

  /**
   A call that raises leaves everything but the source as it was. One that returns is kept, or
   some of its rows are written and its state is lost; without an older state to fall back on, the
   next call opens a new run into whatever the target now holds.
   */
  ghost predicate Step(sys: System, t: Table, c: CallOf, next: System) {
    && Chronological(sys.source, c.m)
    && match Answer(sys, t, c) {
         case Failure(_) => next == sys.(source := c.m.log)
         case Success(r) =>
           && Legal(sys.source, c.m, c.at, Began(sys, t, c).value, c.chunkSize)
           && (c.fate.Lost? ==> c.fate.written <= |RowsOf(r.frame)|)
           && var after := Aftermath(Opened(sys, Began(sys, t, c).value), c.m.log, r, c.fate);
              next == if c.fate.Saved? then after
                      else if sys.saved.Some? then after.(saved := sys.saved)
                      else sys.(source := c.m.log, base := Target(after))
       }
  }

  /** A run begins with no state, or with one from state_at_lsn at a position the source has reached. */
  ghost predicate Begins(sys: System) {
    && Valid(sys.source)
    && (sys.saved.Some? ==>
          && sys == Opened(sys.(saved := None), sys.saved.value)
          && sys.saved.value.chunkKey.None?
          && sys.saved.value.lastLsn <= sys.source.end + 1)
  }

  /** One call after another, wherever they began */
  ghost predicate Follows(run: seq<System>, t: Table, calls: seq<CallOf>) {
    && |run| == |calls| + 1
    && forall i | 0 <= i < |calls| :: Step(run[i], t, calls[i], run[i + 1])
  }

  ghost predicate IsRun(run: seq<System>, t: Table, calls: seq<CallOf>) {
    Follows(run, t, calls) && Begins(run[0])
  }

  /** Both halves of a call's result were kept. */
  predicate WasKept(sys: System, t: Table, c: CallOf) {
    Answer(sys, t, c).Success? && c.fate.Saved?
  }

  /** A run opened with no state whose first and last results were kept, whatever became of those between. */
  ghost predicate OpensAndEndsKept(run: seq<System>, t: Table, calls: seq<CallOf>) {
    && IsRun(run, t, calls) && |calls| > 0 && run[0].saved.None?
    && forall i {:trigger WasKept(run[i], t, calls[i])} | 0 <= i < |calls| && (i == 0 || i == |calls| - 1) ::
         WasKept(run[i], t, calls[i])
  }

  // ---- every step keeps the invariant ----

  lemma BeginningHolds(sys: System)
    requires Begins(sys)
    ensures Holds(sys)
  {
    if sys.saved.Some? {
      NoneInBackwardWindow(sys.source.log, sys.opening, sys.opening - 1);
      EventsInMembers(sys.source.log, sys.opening, sys.opening - 1);
    }
  }

  /** What the checks before a batch leave alone. */
  lemma PrologueKeepsPosition(m: Moments, t: Table, state: RunState, inspectEvery: Option<int>)
    requires Prologue(m, t.schema, t.name, Some(state), inspectEvery).Success?
    ensures
      var begun := Prologue(m, t.schema, t.name, Some(state), inspectEvery).value;
      && begun == state.(spec := begun.spec, lastInspect := begun.lastInspect)
      && m.floor.floor <= begun.lastLsn
  {
  }

  /** A fresh run opens at a position the source has reached, with nothing walked. */
  lemma SeedOpensAtThePresent(m: Moments, t: Table)
    requires Seed(m, t.schema, t.name).Success?
    ensures
      var begun := Seed(m, t.schema, t.name).value;
      && begun.chunkKey.None? && !begun.dumpDone
      && begun.lastLsn == Max(m.seed.captured, m.floor.floor)
  {
  }

  /** The system a batch starts from, on the source as the batch leaves it. */
  lemma OpenedHolds(sys: System, t: Table, c: CallOf)
    requires Valid(sys.source) && Holds(sys) && Chronological(sys.source, c.m)
    requires Began(sys, t, c).Success?
    ensures
      var begun := Opened(sys, Began(sys, t, c).value).(source := c.m.log);
      && Holds(begun)
      && begun.saved.value.lastLsn <= c.m.low.end + 1
      && (begun.reach == begun.saved.value.lastLsn - 1 || begun.reach <= sys.source.captured)
  {
    ChronologyReaches(sys.source, c.m);
    ChronologyBounds(sys.source, c.m);
    if sys.saved.Some? {
      ResumedHolds(sys, t, c, c.m.log);
    } else {
      SeedOpensAtThePresent(c.m, t);
      BeginningHolds(Opened(sys.(source := c.m.log), Began(sys, t, c).value));
    }
  }

  lemma ResumedHolds(sys: System, t: Table, c: CallOf, later: Source)
    requires sys.saved.Some? && Holds(sys) && Evolves(sys.source, later) && Valid(later)
    requires Began(sys, t, c).Success?
    ensures
      var begun := Opened(sys, Began(sys, t, c).value).(source := later);
      && Holds(begun)
      && begun.saved.value.lastLsn <= sys.source.end + 1
      && (begun.reach == begun.saved.value.lastLsn - 1 || begun.reach <= sys.source.captured)
  {
    PrologueKeepsPosition(c.m, t, sys.saved.value, c.inspectEvery);
    EnvironmentKeeps(sys, later);
    RestatedHolds(sys.(source := later), Began(sys, t, c).value);
  }

  /** The invariant does not depend on the spec a state carries. */
  lemma RestatedHolds(sys: System, state: RunState)
    requires sys.saved.Some? && Holds(sys)
    requires state == sys.saved.value.(spec := state.spec, lastInspect := state.lastInspect)
    ensures Holds(sys.(saved := Some(state)))
  {
    var restated := sys.(saved := Some(state));
    assert TargetHolds(restated) by {
      RestatedTargetHolds(sys, state);
    }
    assert DeliveredHolds(restated) by {
      RestatedDeliveredHolds(sys, state);
    }
  }

  lemma RestatedTargetHolds(sys: System, state: RunState)
    requires sys.saved.Some? && TargetHolds(sys)
    requires state == sys.saved.value.(spec := state.spec, lastInspect := state.lastInspect)
    ensures TargetHolds(sys.(saved := Some(state)))
  {
    assert forall key: Key :: Walked(state, key) == Walked(sys.saved.value, key);
  }

  lemma RestatedDeliveredHolds(sys: System, state: RunState)
    requires sys.saved.Some? && DeliveredHolds(sys)
    requires state == sys.saved.value.(spec := state.spec, lastInspect := state.lastInspect)
    ensures DeliveredHolds(sys.(saved := Some(state)))
  {
    assert forall key: Key :: Walked(state, key) == Walked(sys.saved.value, key);
  }

  lemma AnswerUnfolds(sys: System, t: Table, c: CallOf)
    requires Answer(sys, t, c).Success?
    ensures 0 < c.chunkSize && Began(sys, t, c).Success?
    ensures Batch(c.m, Began(sys, t, c).value, c.chunkSize) == Answer(sys, t, c)
  {
  }

  lemma FailureKeeps(sys: System, m: Moments)
    requires Holds(sys) && Chronological(sys.source, m)
    ensures Valid(m.log) && Holds(sys.(source := m.log))
  {
    ChronologyReaches(sys.source, m);
    if sys.saved.Some? {
      EnvironmentKeeps(sys, m.log);
    }
  }

  lemma BatchKeeps(
    begun: System, before: Source, m: Moments, at: Key -> int, chunkSize: int, r: BatchResult, fate: Fate)
    requires begun.saved.Some? && Holds(begun) && begun.source == m.log && 0 < chunkSize
    requires Legal(before, m, at, begun.saved.value, chunkSize)
    requires begun.saved.value.lastLsn <= m.low.end + 1
    requires begun.reach == begun.saved.value.lastLsn - 1 || begun.reach <= before.captured
    requires Batch(m, begun.saved.value, chunkSize) == Success(r)
    requires fate.Lost? ==> fate.written <= |RowsOf(r.frame)|
    ensures Holds(Aftermath(begun, m.log, r, fate))
  {
    var dumped := BatchDelivers(before, m, at, begun.saved.value, chunkSize, r);
    if fate.Saved? {
      KeptHolds(begun, r, dumped);
    } else {
      DroppedHolds(begun, r, dumped, fate.written);
    }
  }

  lemma StepKeeps(sys: System, t: Table, c: CallOf, next: System)
    requires Valid(sys.source) && Holds(sys) && Step(sys, t, c, next)
    ensures Valid(next.source) && Holds(next)
  {
    FailureKeeps(sys, c.m);
    if Answer(sys, t, c).Success? {
      AnswerUnfolds(sys, t, c);
      OpenedHolds(sys, t, c);
      var begun := Opened(sys, Began(sys, t, c).value).(source := c.m.log);
      var r := Answer(sys, t, c).value;
      BatchKeeps(begun, sys.source, c.m, c.at, c.chunkSize, r, c.fate);
      if c.fate.Lost? && sys.saved.Some? {
        PrologueKeepsPosition(c.m, t, sys.saved.value, c.inspectEvery);
        RestatedHolds(Dropped(begun, c.m.log, r, c.fate.written), sys.saved.value);
      }
    }
  }

  /** The invariant of every run, whatever is committed, captured, cleaned, lost or raised meanwhile. */
  lemma {:induction false} EveryRunHolds(run: seq<System>, t: Table, calls: seq<CallOf>)
    requires IsRun(run, t, calls)
    ensures Valid(run[|calls|].source) && Holds(run[|calls|])
    decreases |calls|
  {
    var n := |calls|;
    if n == 0 {
      BeginningHolds(run[0]);
    } else {
      var earlier := run[..n];
      assert IsRun(earlier, t, calls[..n - 1]) by {
        forall i | 0 <= i < n - 1
          ensures Step(earlier[i], t, calls[..n - 1][i], earlier[i + 1])
        {
          assert Step(run[i], t, calls[i], run[i + 1]);
        }
      }
      EveryRunHolds(earlier, t, calls[..n - 1]);
      assert Step(run[n - 1], t, calls[n - 1], run[n]);
      StepKeeps(run[n - 1], t, calls[n - 1], run[n]);
    }
  }

  // ---- what the invariant means ----

  /** Nothing written is ahead of the saved state: so it is after every call that was kept. */
  predicate Settled(sys: System) {
    sys.saved.Some? && sys.reach == sys.saved.value.lastLsn - 1
  }

  /** The table just before the run's next window opens. */
  function Truth(sys: System): Replica
    requires sys.saved.Some?
  {
    TableAt(sys.source.log, sys.saved.value.lastLsn - 1)
  }

  /** Whether one of the run's windows, from its opening to where it stands, carries the key. */
  ghost predicate Windowed(sys: System, key: Key)
    requires sys.saved.Some?
  {
    Mentions(EventsIn(sys.source.log, sys.opening, sys.saved.value.lastLsn - 1), key)
  }

  lemma KeyMeaning(sys: System, key: Key)
    requires Settled(sys) && Holds(sys)
    ensures KeyHolds(sys.source.log, sys.opening, sys.saved.value.lastLsn,
                     sys.walks && Walked(sys.saved.value, key), sys.lossy && sys.walks,
                     Get(Target(sys), key), Get(sys.base, key), key)
  {
    var last: int := sys.saved.value.lastLsn;
    NoneInBackwardWindow(sys.source.log, last, last - 1);
  }

  /**
   Into an empty target: every key below the walk is what the table holds, and so is every key a
   window carried. The others are absent, or right early if a lost frame brought them.
   */
  lemma ReconstructedSoFar(sys: System)
    requires Settled(sys) && Holds(sys) && sys.walks && sys.base == map[]
    ensures forall key: Key :: Walked(sys.saved.value, key) || Windowed(sys, key) ==>
              Get(Target(sys), key) == Get(Truth(sys), key)
    ensures forall key: Key :: !Walked(sys.saved.value, key) && !Windowed(sys, key) ==>
              Get(Target(sys), key) == None || (sys.lossy && Get(Target(sys), key) == Get(Truth(sys), key))
    ensures sys.saved.value.dumpDone ==> Target(sys) == Truth(sys)
  {
    forall key: Key
      ensures Walked(sys.saved.value, key) || Windowed(sys, key) ==> Get(Target(sys), key) == Get(Truth(sys), key)
      ensures !Walked(sys.saved.value, key) && !Windowed(sys, key) ==>
                Get(Target(sys), key) == None || (sys.lossy && Get(Target(sys), key) == Get(Truth(sys), key))
    {
      KeyMeaning(sys, key);
    }
    if sys.saved.value.dumpDone {
      SameReplica(Target(sys), Truth(sys));
    }
  }

  /**
   Into a target that already held something: once the table is walked the target is the table if
   and only if every key it held at the opening is in the table or was carried by a window since.
   */
  lemma ReconstructedIffNothingStaleIsLeft(sys: System)
    requires Settled(sys) && Holds(sys) && sys.walks && sys.saved.value.dumpDone
    ensures Target(sys) == Truth(sys) <==>
            forall key: Key :: key in sys.base ==> key in Truth(sys) || Windowed(sys, key)
  {
    forall key: Key
      ensures Get(Target(sys), key) ==
              if key in sys.base && key !in Truth(sys) && !Windowed(sys, key) then Get(sys.base, key)
              else Get(Truth(sys), key)
    {
      StaleOrTrue(sys, key);
    }
    EqualIffNoneStale(Target(sys), Truth(sys), sys.base, iset key: Key | Windowed(sys, key));
  }

  lemma StaleOrTrue(sys: System, key: Key)
    requires Settled(sys) && Holds(sys) && sys.walks && sys.saved.value.dumpDone
    ensures Get(Target(sys), key) ==
            if key in sys.base && key !in Truth(sys) && !Windowed(sys, key) then Get(sys.base, key)
            else Get(Truth(sys), key)
  {
    KeyMeaning(sys, key);
    WalkedKeyMeaning(sys.source.log, sys.opening, sys.saved.value.lastLsn, sys.lossy && sys.walks,
                     Get(Target(sys), key), Get(sys.base, key), key);
  }

  lemma WalkedKeyMeaning(
    log: seq<Row>, opening: int, last: int, early: bool, now: Option<Image>, was: Option<Image>, key: Key)
    requires KeyHolds(log, opening, last, true, early, now, was, key)
    ensures now ==
            if was.Some? && Get(TableAt(log, last - 1), key).None? && !Touched(log, opening, last - 1, key) then was
            else Get(TableAt(log, last - 1), key)
  {
  }

  lemma EqualIffNoneStale(target: Replica, truth: Replica, base: Replica, carried: iset<Key>)
    requires forall key: Key ::
      Get(target, key) ==
      if key in base && key !in truth && key !in carried then Get(base, key) else Get(truth, key)
    ensures target == truth <==> forall key: Key :: key in base ==> key in truth || key in carried
  {
    if forall key: Key :: key in base ==> key in truth || key in carried {
      SameReplica(target, truth);
    } else {
      var stale: Key :| stale in base && stale !in truth && stale !in carried;
      assert Get(target, stale) != Get(truth, stale);
    }
  }

  /**
   A run of the log alone: the target is the table if and only if it was right, at the opening,
   about every key no window has carried since.
   */
  lemma TailIsRightIffTargetWas(sys: System)
    requires Settled(sys) && Holds(sys) && !sys.walks
    ensures Target(sys) == Truth(sys) <==>
            forall key: Key :: !Windowed(sys, key) ==>
              Get(sys.base, key) == Get(TableAt(sys.source.log, sys.opening - 1), key)
  {
    forall key: Key
      ensures Get(Target(sys), key) == if Windowed(sys, key) then Get(Truth(sys), key) else Get(sys.base, key)
      ensures !Windowed(sys, key) ==> Get(Truth(sys), key) == Get(TableAt(sys.source.log, sys.opening - 1), key)
    {
      TailKeyMeaning(sys, key);
    }
    if forall key: Key :: !Windowed(sys, key) ==>
         Get(sys.base, key) == Get(TableAt(sys.source.log, sys.opening - 1), key)
    {
      SameReplica(Target(sys), Truth(sys));
    }
  }

  lemma TailKeyMeaning(sys: System, key: Key)
    requires Settled(sys) && Holds(sys) && !sys.walks
    ensures Get(Target(sys), key) == if Windowed(sys, key) then Get(Truth(sys), key) else Get(sys.base, key)
    ensures !Windowed(sys, key) ==> Get(Truth(sys), key) == Get(TableAt(sys.source.log, sys.opening - 1), key)
  {
    KeyMeaning(sys, key);
    UnwalkedKeyMeaning(sys.source.log, sys.opening, sys.saved.value.lastLsn,
                       false, false, Get(Target(sys), key), Get(sys.base, key), key);
  }

  lemma UnwalkedKeyMeaning(
    log: seq<Row>, opening: nat, last: int, walked: bool, early: bool,
    now: Option<Image>, was: Option<Image>, key: Key)
    requires Ordered(log) && opening <= last && !walked && !early
    requires KeyHolds(log, opening, last, walked, early, now, was, key)
    ensures now == if Touched(log, opening, last - 1, key) then Get(TableAt(log, last - 1), key) else was
    ensures !Touched(log, opening, last - 1, key) ==>
            Get(TableAt(log, last - 1), key) == Get(TableAt(log, opening - 1), key)
  {
    if !Touched(log, opening, last - 1, key) {
      UntouchedIsConstant(log, opening - 1, last - 1, key);
    }
  }

  // ---- over whole runs ----

  /** Once a state is saved, the run keeps its opening and what the target held then. */
  lemma {:induction false} OpeningIsFixed(run: seq<System>, t: Table, calls: seq<CallOf>, i: nat, j: nat)
    requires IsRun(run, t, calls) && i <= j <= |calls|
    requires run[i].saved.Some?
    ensures run[j].saved.Some?
    ensures run[j].base == run[i].base && run[j].opening == run[i].opening && run[j].walks == run[i].walks
    decreases j
  {
    if i < j {
      OpeningIsFixed(run, t, calls, i, j - 1);
      assert Step(run[j - 1], t, calls[j - 1], run[j]);
    }
  }

  /**
   The correctness claim. A run opened with no state into an empty target, whose opening result was
   kept: after any later call that is kept, whatever writers, capture and cleanup did between any
   two reads, whatever page sizes were asked for and whatever frames were lost in between, every key
   the walk has passed or a window has carried reads in the target as in the table just before the
   position saved, every other is absent or right early, and once the walk is done the target is the
   table. No lock is taken and no snapshot read.
   */
  lemma EveryRunReconstructs(run: seq<System>, t: Table, calls: seq<CallOf>)
    requires OpensAndEndsKept(run, t, calls) && run[0].base == map[]
    ensures run[|calls|].saved.Some?
    ensures forall key: Key :: Walked(run[|calls|].saved.value, key) || Windowed(run[|calls|], key) ==>
              Get(Target(run[|calls|]), key) == Get(Truth(run[|calls|]), key)
    ensures forall key: Key :: !Walked(run[|calls|].saved.value, key) && !Windowed(run[|calls|], key) ==>
              Get(Target(run[|calls|]), key) == None
              || Get(Target(run[|calls|]), key) == Get(Truth(run[|calls|]), key)
    ensures run[|calls|].saved.value.dumpDone ==> Target(run[|calls|]) == Truth(run[|calls|])
  {
    KeptRunsSettle(run, t, calls);
    ReconstructedSoFar(run[|calls|]);
  }

  lemma KeptRunsSettle(run: seq<System>, t: Table, calls: seq<CallOf>)
    requires OpensAndEndsKept(run, t, calls)
    ensures Settled(run[|calls|]) && Holds(run[|calls|])
    ensures run[|calls|].walks && run[|calls|].base == run[0].base
  {
    var n := |calls|;
    EveryRunHolds(run, t, calls);
    assert WasKept(run[n - 1], t, calls[n - 1]) && WasKept(run[0], t, calls[0]);
    KeptSettles(run[n - 1], t, calls[n - 1], run[n]);
    OpeningWalks(run[0], t, calls[0], run[1]);
    OpeningIsFixed(run, t, calls, 1, n);
  }

  lemma KeptSettles(sys: System, t: Table, c: CallOf, next: System)
    requires Step(sys, t, c, next) && WasKept(sys, t, c)
    ensures Settled(next)
  {
  }

  lemma OpeningWalks(sys: System, t: Table, c: CallOf, next: System)
    requires Step(sys, t, c, next) && WasKept(sys, t, c) && sys.saved.None?
    ensures next.saved.Some? && next.walks && next.base == sys.base
  {
    AnswerUnfolds(sys, t, c);
    SeedOpensAtThePresent(c.m, t);
  }

  /**
   Windows partition the log: over any run the log rows of the kept frames, in delivery order, are
   exactly the log from the opening to where the run stands, each change once.
   */
  lemma WindowsPartitionTheLog(run: seq<System>, t: Table, calls: seq<CallOf>)
    requires IsRun(run, t, calls) && run[|calls|].saved.Some?
    ensures
      var sys := run[|calls|];
      && sys.windows == EventsIn(sys.source.log, sys.opening, sys.saved.value.lastLsn - 1)
      && (forall i, j | 0 <= i < j < |sys.windows| :: Before(sys.windows[i], sys.windows[j]))
      && (forall r :: r in sys.windows <==>
            r in sys.source.log && sys.opening <= r.lsn < sys.saved.value.lastLsn)
  {
    EveryRunHolds(run, t, calls);
    var sys := run[|calls|];
    EventsInMembers(sys.source.log, sys.opening, sys.saved.value.lastLsn - 1);
    WindowIsOrdered(sys.source.log, sys.opening, sys.saved.value.lastLsn - 1);
  }

  lemma {:induction false} WindowIsOrdered(log: seq<Row>, lo: int, hi: int)
    requires Ordered(log)
    ensures Ordered(EventsIn(log, lo, hi))
  {
    if |log| != 0 {
      var n := |log| - 1;
      WindowIsOrdered(log[..n], lo, hi);
      EventsInMembers(log[..n], lo, hi);
      var front := EventsIn(log[..n], lo, hi);
      forall r | r in front
        ensures Before(r, log[n])
      {
        var i :| 0 <= i < n && log[..n][i] == r;
      }
    }
  }

  /** No row of the key has a greater (start_lsn, seqval). */
  predicate Greatest(rows: seq<Row>, w: Row) {
    w in rows && forall r | r in rows && r.key == w.key :: !Before(w, r)
  }

  /**
   A consumer that appends every row, any number of times and in any order, and keeps per key the
   row with the greatest (start_lsn, seqval) ends up with the table too: such a row is right, ties
   between dump rows included, and a key with no row is not in the table.
   */
  lemma GreatestRowPerKeyIsTheTable(sys: System, appended: seq<Row>, key: Key)
    requires Settled(sys) && Holds(sys) && sys.walks && sys.saved.value.dumpDone
    requires forall r :: r in appended <==> r in sys.delivered
    ensures !Mentions(appended, key) ==> key !in Truth(sys)
    ensures forall w | Greatest(appended, w) && w.key == key :: Effect(w) == Get(Truth(sys), key)
  {
    EventsInMembers(sys.source.log, sys.opening, sys.saved.value.lastLsn - 1);
    if !Mentions(appended, key) {
      assert !Mentions(sys.delivered, key);
      assert !Windowed(sys, key);
      assert Get(Truth(sys), key) == None;
    }
    forall w | Greatest(appended, w) && w.key == key
      ensures Effect(w) == Get(Truth(sys), key)
    {
      GreatestIsTrue(sys, w);
    }
  }

  /**
   So such a consumer of the rows written since a kept opening reconstructs the table. Rows written
   before it, by an opening call whose state was lost, are another run's and must not be among them.
   */
  lemma EveryRunReconstructsOrderFree(run: seq<System>, t: Table, calls: seq<CallOf>, appended: seq<Row>, key: Key)
    requires OpensAndEndsKept(run, t, calls)
    requires run[|calls|].saved.Some? && run[|calls|].saved.value.dumpDone
    requires forall r :: r in appended <==> r in run[|calls|].delivered
    ensures !Mentions(appended, key) ==> key !in Truth(run[|calls|])
    ensures forall w | Greatest(appended, w) && w.key == key :: Effect(w) == Get(Truth(run[|calls|]), key)
  {
    KeptRunsSettle(run, t, calls);
    GreatestRowPerKeyIsTheTable(run[|calls|], appended, key);
  }

  lemma GreatestIsTrue(sys: System, w: Row)
    requires Settled(sys) && Holds(sys)
    requires Greatest(sys.delivered, w)
    ensures Effect(w) == Get(Truth(sys), w.key)
  {
    var last: int := sys.saved.value.lastLsn;
    if w.op.Dump? {
      GreatestDumpIsTrue(sys, w);
    } else {
      GreatestChangeIsTrue(sys.source.log, sys.opening, last, sys.delivered, w);
    }
  }

  lemma GreatestDumpIsTrue(sys: System, w: Row)
    requires Settled(sys) && Positioned(sys) && DeliveredHolds(sys)
    requires Greatest(sys.delivered, w) && w.op.Dump?
    ensures Effect(w) == Get(Truth(sys), w.key)
  {
    var last: int := sys.saved.value.lastLsn;
    assert DumpRowIsTrue(sys.source.log, sys.opening, last, sys.reach, w);
    if Windowed(sys, w.key) {
      DumpRowIsNotGreatest(sys.source.log, sys.opening, last, sys.reach, sys.delivered, w);
    }
  }

  lemma DumpRowIsNotGreatest(log: seq<Row>, opening: nat, last: int, reach: int, delivered: seq<Row>, w: Row)
    requires LogRowsAreDelivered(log, opening, last, reach, delivered)
    requires forall r | r in log :: 0 < r.lsn
    requires w.lsn == 0 && w in delivered && Touched(log, opening, last - 1, w.key)
    ensures !Greatest(delivered, w)
  {
    EventsInMembers(log, opening, last - 1);
    var touching :| touching in EventsIn(log, opening, last - 1) && touching.key == w.key;
    assert Before(w, touching);
  }

  lemma GreatestChangeIsTrue(log: seq<Row>, opening: nat, last: int, delivered: seq<Row>, w: Row)
    requires Ordered(log) && opening <= last
    requires LogRowsAreDelivered(log, opening, last, last - 1, delivered)
    requires Greatest(delivered, w) && !w.op.Dump?
    ensures Effect(w) == Get(TableAt(log, last - 1), w.key)
  {
    GreatestInWindow(log, opening, last, delivered, w);
    WindowIsOrdered(log, opening, last - 1);
    TableMoves(log, opening - 1, last - 1);
    GreatestComesLast(TableAt(log, opening - 1), EventsIn(log, opening, last - 1), w);
  }

  lemma GreatestInWindow(log: seq<Row>, opening: nat, last: int, delivered: seq<Row>, w: Row)
    requires LogRowsAreDelivered(log, opening, last, last - 1, delivered)
    requires Greatest(delivered, w) && !w.op.Dump?
    ensures Greatest(EventsIn(log, opening, last - 1), w)
  {
    EventsInMembers(log, opening, last - 1);
  }

  lemma GreatestComesLast(m: Replica, window: seq<Row>, w: Row)
    requires Ordered(window) && Greatest(window, w)
    ensures Get(Apply(m, window), w.key) == Effect(w)
  {
    var i :| 0 <= i < |window| && window[i] == w;
    assert !Mentions(window[i + 1..], w.key) by {
      forall r | r in window[i + 1..]
        ensures r.key != w.key
      {
        var j :| 0 <= j < |window[i + 1..]| && window[i + 1..][j] == r;
        assert Before(window[i], window[i + 1 + j]);
      }
    }
    ApplyEndsOnLast(m, window, i);
  }
}
