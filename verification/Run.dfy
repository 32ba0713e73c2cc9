/**
 Whole runs: calls threaded through saved states, frames folded into a target, writers and capture
 and cleanup acting throughout, and frames written whose state never was.
 */
module Run {
  import opened Outcomes
  import opened Rows
  import opened Source
  import opened Dblog
  import opened Call

  /** What became of a call's result: both halves kept, or some rows written and the state lost. */
  datatype Fate = Saved | Lost(written: nat)

  datatype System = System(
    source: Source,
    saved: Option<RunState>,  // the state the next call is given
    base: Replica,            // what the target held when the run opened
    opening: nat,             // where the run's first window opened
    walks: bool,              // whether the run walks the table at all
    lossy: bool,              // whether a result has been lost since the opening
    reach: int,               // the furthest position any written frame closed at
    delivered: seq<Row>,      // every row written since the opening, in order
    windows: seq<Row>)        // the log rows of saved frames alone

  function Target(sys: System): Replica {
    Apply(sys.base, sys.delivered)
  }

  /** The rows of a frame that came out of the log. */
  function LogRows(rows: seq<Row>): seq<Row> {
    if |rows| == 0 then []
    else LogRows(rows[..|rows| - 1]) + (if rows[|rows| - 1].op.Dump? then [] else [rows[|rows| - 1]])
  }

  /** The system a call starts its batch from: a fresh run if there was no state. */
  function Opened(sys: System, begun: RunState): System {
    if sys.saved.Some? then sys.(saved := Some(begun))
    else System(sys.source, Some(begun), sys.base, begun.lastLsn, !begun.dumpDone, false,
                begun.lastLsn - 1, [], [])
  }

  function Max(a: int, b: int): int {
    if a < b then b else a
  }

  /** After a batch whose frame and state were both kept. */
  function Kept(sys: System, source: Source, r: BatchResult): System {
    sys.(
      source := source,
      saved := Some(r.state),
      reach := r.state.lastLsn - 1,
      delivered := sys.delivered + RowsOf(r.frame),
      windows := sys.windows + LogRows(RowsOf(r.frame)))
  }

  /** After a batch of which some rows were written and the state lost: the older state stands. */
  function Dropped(sys: System, source: Source, r: BatchResult, written: nat): System
    requires written <= |RowsOf(r.frame)|
  {
    sys.(
      source := source,
      lossy := true,
      reach := Max(sys.reach, r.state.lastLsn - 1),
      delivered := sys.delivered + RowsOf(r.frame)[..written])
  }

  // ---- the invariant ----

  ghost predicate Touched(log: seq<Row>, from: int, to: int, key: Key) {
    Mentions(EventsIn(log, from, to), key)
  }

  /**
   What the target holds under one key, against the table just before the next window. A key the
   run's windows touched is right. One they did not is left as it was if the table lacks it, and
   otherwise right once the walk has gone past it.
   */
  ghost predicate KeyHolds(
    log: seq<Row>, opening: int, last: int, walked: bool, early: bool,
    now: Option<Image>, was: Option<Image>, key: Key)
  {
    var truth := Get(TableAt(log, last - 1), key);
    if Touched(log, opening, last - 1, key) then now == truth
    else if truth.None? then now == was
    else if walked then now == truth
    else now == was || (early && now == truth)
  }

  ghost predicate TargetHolds(sys: System)
    requires sys.saved.Some?
  {
    forall key: Key | !Touched(sys.source.log, sys.saved.value.lastLsn, sys.reach, key) ::
      KeyHolds(sys.source.log, sys.opening, sys.saved.value.lastLsn,
               sys.walks && Walked(sys.saved.value, key), sys.lossy && sys.walks,
               Get(Target(sys), key), Get(sys.base, key), key)
  }

  /** Where the run stands in the log. */
  ghost predicate Positioned(sys: System)
    requires sys.saved.Some?
  {
    var last := sys.saved.value.lastLsn;
    && Valid(sys.source)
    && sys.opening <= last <= sys.source.end + 1
    && last - 1 <= sys.reach
    && (sys.reach == last - 1 || sys.reach <= sys.source.captured)
    && sys.windows == EventsIn(sys.source.log, sys.opening, last - 1)
    && (!sys.lossy ==> sys.reach == last - 1)
    && (!sys.walks ==> sys.saved.value.dumpDone)
  }

  /** Every log row written is one of the run's, and every one up to the saved position was written. */
  ghost predicate LogRowsAreDelivered(log: seq<Row>, opening: int, last: int, reach: int, delivered: seq<Row>) {
    && (forall r | r in delivered && !r.op.Dump? :: r in log && opening <= r.lsn <= reach)
    && (forall r | r in log && opening <= r.lsn < last :: r in delivered)
  }

  /** Every dump row written is stamped all-zero and true, unless its key was touched since the opening. */
  ghost predicate DumpRowsAreTrue(log: seq<Row>, opening: int, last: int, reach: int, delivered: seq<Row>) {
    forall r | r in delivered && r.op.Dump? :: DumpRowIsTrue(log, opening, last, reach, r)
  }

  ghost predicate DumpRowIsTrue(log: seq<Row>, opening: int, last: int, reach: int, r: Row) {
    && r.lsn == 0 && r.seqval == 0
    && (!Touched(log, opening, reach, r.key) ==> Get(TableAt(log, last - 1), r.key) == Some(r.image))
  }

  /** A key of the table the walk has gone past and no change touched was dumped. */
  ghost predicate WalkedKeysAreDelivered(log: seq<Row>, opening: int, state: RunState, delivered: seq<Row>) {
    forall key: Key |
      && Walked(state, key) && Get(TableAt(log, state.lastLsn - 1), key).Some?
      && !Touched(log, opening, state.lastLsn - 1, key) ::
      Mentions(delivered, key)
  }

  ghost predicate RowsHold(
    log: seq<Row>, opening: int, state: RunState, reach: int, walks: bool, delivered: seq<Row>)
  {
    && LogRowsAreDelivered(log, opening, state.lastLsn, reach, delivered)
    && DumpRowsAreTrue(log, opening, state.lastLsn, reach, delivered)
    && (walks ==> WalkedKeysAreDelivered(log, opening, state, delivered))
  }

  /** What has been delivered, as a set of rows: for a consumer that appends rather than applies. */
  ghost predicate DeliveredHolds(sys: System)
    requires sys.saved.Some?
  {
    RowsHold(sys.source.log, sys.opening, sys.saved.value, sys.reach, sys.walks, sys.delivered)
  }

  ghost predicate Holds(sys: System) {
    sys.saved.Some? ==> Positioned(sys) && TargetHolds(sys) && DeliveredHolds(sys)
  }

  // ---- one key through one batch ----

  /**
   What a whole frame does to one key: it reads as the log has it if the window carries it, as the table
   did before the window if the chunk does, and as it did before otherwise; and the chunk carries every
   key of the table the walk newly passed.
   */
  ghost predicate FrameEffect(
    log: seq<Row>, from: int, to: int, walked: bool, walked': bool,
    now: Option<Image>, now': Option<Image>, dumped: bool, key: Key)
  {
    && (walked ==> walked')
    && (Touched(log, from, to - 1, key) ==> now' == Get(TableAt(log, to - 1), key))
    && (!Touched(log, from, to - 1, key) ==>
          && now' == (if dumped then Get(TableAt(log, from - 1), key) else now)
          && (dumped ==> walked' && Get(TableAt(log, from - 1), key).Some?)
          && (walked' && !walked && Get(TableAt(log, from - 1), key).Some? ==> dumped))
  }

  lemma KeyKept(
    log: seq<Row>, opening: int, from: int, to: int, reach: int, walked: bool, walked': bool,
    early: bool, now: Option<Image>, was: Option<Image>, now': Option<Image>, dumped: bool, key: Key)
    requires Ordered(log) && 0 <= opening <= from <= to && reach <= to - 1
    requires !Touched(log, from, reach, key) ==> KeyHolds(log, opening, from, walked, early, now, was, key)
    requires FrameEffect(log, from, to, walked, walked', now, now', dumped, key)
    ensures KeyHolds(log, opening, to, walked', early, now', was, key)
  {
    if Touched(log, from, to - 1, key) {
      TouchSplits(log, opening, from - 1, to - 1, key);
    } else {
      NarrowerIsUntouched(log, from, reach, to - 1, key);
      LongerHolds(log, opening, from, to, walked, early, now, was, key);
    }
  }

  /** A window that leaves a key alone may be added to what the key is held against. */
  lemma LongerHolds(
    log: seq<Row>, opening: int, from: int, to: int, walked: bool, early: bool,
    now: Option<Image>, was: Option<Image>, key: Key)
    requires Ordered(log) && 0 <= opening <= from <= to
    requires !Touched(log, from, to - 1, key)
    ensures KeyHolds(log, opening, from, walked, early, now, was, key)
        <==> KeyHolds(log, opening, to, walked, early, now, was, key)
    ensures Get(TableAt(log, from - 1), key) == Get(TableAt(log, to - 1), key)
    ensures Touched(log, opening, from - 1, key) <==> Touched(log, opening, to - 1, key)
  {
    TouchSplits(log, opening, from - 1, to - 1, key);
    UntouchedIsConstant(log, from - 1, to - 1, key);
  }

  lemma NarrowerIsUntouched(log: seq<Row>, from: int, narrow: int, wide: int, key: Key)
    requires narrow <= wide && !Touched(log, from, wide, key)
    ensures !Touched(log, from, narrow, key)
  {
    EventsInMembers(log, from, narrow);
    EventsInMembers(log, from, wide);
  }

  /** The effect of a whole frame, or of the first rows of one, on one key. */
  lemma FrameOnKey(
    log: seq<Row>, state: RunState, next: RunState, rows: seq<Row>, dumped: seq<Row>, target: Replica, key: Key)
    requires Ordered(log) && Survivors(log, state, next, dumped)
    requires state.lastLsn <= next.lastLsn && rows == EventsIn(log, state.lastLsn, next.lastLsn - 1) + dumped
    ensures Touched(log, state.lastLsn, next.lastLsn - 1, key) ==>
            Get(Apply(target, rows), key) == Get(TableAt(log, next.lastLsn - 1), key)
    ensures !Touched(log, state.lastLsn, next.lastLsn - 1, key) ==>
            Get(Apply(target, rows), key) ==
            (if Mentions(dumped, key) then Get(TableAt(log, state.lastLsn - 1), key) else Get(target, key))
    ensures Mentions(dumped, key) ==> Walked(next, key) && Get(TableAt(log, state.lastLsn - 1), key).Some?
  {
    var window := EventsIn(log, state.lastLsn, next.lastLsn - 1);
    ApplyConcat(target, window, dumped);
    DumpedOnKey(log, state, next, dumped, Apply(target, window), key);
    if Touched(log, state.lastLsn, next.lastLsn - 1, key) {
      ReplayedIsTrue(log, state.lastLsn - 1, next.lastLsn - 1, target, key);
    } else {
      ApplyUntouched(target, window, key);
    }
  }

  lemma DumpedOnKey(
    log: seq<Row>, state: RunState, next: RunState, dumped: seq<Row>, target: Replica, key: Key)
    requires Survivors(log, state, next, dumped)
    ensures Get(Apply(target, dumped), key) ==
            (if Mentions(dumped, key) then Get(TableAt(log, state.lastLsn - 1), key) else Get(target, key))
    ensures Mentions(dumped, key) ==>
      && Walked(next, key) && Get(TableAt(log, state.lastLsn - 1), key).Some?
      && !Touched(log, state.lastLsn, next.lastLsn - 1, key)
  {
    if Mentions(dumped, key) {
      var r :| r in dumped && r.key == key;
      ApplySteady(target, dumped, key, r.image);
    } else {
      ApplyUntouched(target, dumped, key);
    }
  }

  /** However much of a frame was written, a key its window leaves alone keeps its value or gets the table's. */
  lemma PartOfFrameOnKey(
    log: seq<Row>, state: RunState, next: RunState, rows: seq<Row>, dumped: seq<Row>, written: nat,
    target: Replica, key: Key)
    requires Survivors(log, state, next, dumped) && written <= |rows|
    requires rows == EventsIn(log, state.lastLsn, next.lastLsn - 1) + dumped
    requires !Touched(log, state.lastLsn, next.lastLsn - 1, key)
    ensures
      var now := Get(Apply(target, rows[..written]), key);
      var truth := Get(TableAt(log, state.lastLsn - 1), key);
      now == Get(target, key) || (!state.dumpDone && truth.Some? && now == truth)
  {
    var part := rows[..written];
    forall s | s in part && s.key == key
      ensures s in dumped
    {
      assert s in rows;
    }
    SurvivorsOnKey(log, state, next, dumped, part, target, key);
  }

  lemma SurvivorsOnKey(
    log: seq<Row>, state: RunState, next: RunState, dumped: seq<Row>, part: seq<Row>, target: Replica, key: Key)
    requires Survivors(log, state, next, dumped)
    requires forall s | s in part && s.key == key :: s in dumped
    ensures
      var now := Get(Apply(target, part), key);
      var truth := Get(TableAt(log, state.lastLsn - 1), key);
      now == Get(target, key) || (!state.dumpDone && truth.Some? && now == truth)
  {
    if Mentions(part, key) {
      var r :| r in part && r.key == key;
      assert SurvivorRow(log, state, next, r);
      ApplySteady(target, part, key, r.image);
    } else {
      ApplyUntouched(target, part, key);
    }
  }

  // ---- the environment moves ----

  lemma EnvironmentKeeps(sys: System, later: Source)
    requires sys.saved.Some? && Holds(sys)
    requires Evolves(sys.source, later) && Valid(later)
    ensures Holds(sys.(source := later))
  {
    EvolutionKeepsWindows(sys, later);
    StaysPositioned(sys, later);
    assert TargetHolds(sys.(source := later)) by {
      SameWindowsSameTarget(sys, later);
    }
    assert DeliveredHolds(sys.(source := later)) by {
      SameWindowsSameRows(sys, later);
    }
  }

  lemma StaysPositioned(sys: System, later: Source)
    requires sys.saved.Some? && Positioned(sys) && Evolves(sys.source, later) && Valid(later)
    requires SameWindows(sys, later)
    ensures Positioned(sys.(source := later))
  {
  }

  lemma EvolutionKeepsWindows(sys: System, later: Source)
    requires sys.saved.Some? && Positioned(sys) && Evolves(sys.source, later)
    ensures SameWindows(sys, later)
  {
    var last: int := sys.saved.value.lastLsn;
    EvolutionKeepsWindow(sys.source, later, 0, last - 1);
    EvolutionKeepsWindow(sys.source, later, sys.opening, last - 1);
    EvolutionKeepsWindow(sys.source, later, last, sys.reach);
    EvolutionKeepsWindow(sys.source, later, sys.opening, sys.reach);
  }

  /** Two logs that agree on the windows the invariant looks at */
  ghost predicate SameWindows(sys: System, later: Source)
    requires sys.saved.Some?
  {
    var last: int := sys.saved.value.lastLsn;
    && EventsIn(later.log, 0, last - 1) == EventsIn(sys.source.log, 0, last - 1)
    && EventsIn(later.log, sys.opening, last - 1) == EventsIn(sys.source.log, sys.opening, last - 1)
    && EventsIn(later.log, last, sys.reach) == EventsIn(sys.source.log, last, sys.reach)
    && EventsIn(later.log, sys.opening, sys.reach) == EventsIn(sys.source.log, sys.opening, sys.reach)
  }

  lemma SameWindowsSameTarget(sys: System, later: Source)
    requires sys.saved.Some? && TargetHolds(sys) && SameWindows(sys, later)
    ensures TargetHolds(sys.(source := later))
  {
  }

  lemma SameWindowsSameRows(sys: System, later: Source)
    requires sys.saved.Some? && DeliveredHolds(sys) && SameWindows(sys, later)
    ensures DeliveredHolds(sys.(source := later))
  {
    SameRowsHold(sys.source.log, later.log, sys.opening, sys.saved.value, sys.reach, sys.walks, sys.delivered);
  }

  lemma SameRowsHold(
    log: seq<Row>, log': seq<Row>, opening: int, state: RunState, reach: int, walks: bool, delivered: seq<Row>)
    requires TableAt(log, state.lastLsn - 1) == TableAt(log', state.lastLsn - 1)
    requires EventsIn(log, opening, state.lastLsn - 1) == EventsIn(log', opening, state.lastLsn - 1)
    requires EventsIn(log, opening, reach) == EventsIn(log', opening, reach)
    requires RowsHold(log, opening, state, reach, walks, delivered)
    ensures RowsHold(log', opening, state, reach, walks, delivered)
  {
    SameLogRows(log, log', opening, state.lastLsn, reach, delivered);
    forall r | r in delivered && r.op.Dump?
      ensures DumpRowIsTrue(log', opening, state.lastLsn, reach, r)
    {
      assert DumpRowIsTrue(log, opening, state.lastLsn, reach, r);
    }
    if walks {
      SameWalkedKeys(log, log', opening, state, delivered);
    }
  }

  lemma SameWalkedKeys(log: seq<Row>, log': seq<Row>, opening: int, state: RunState, delivered: seq<Row>)
    requires TableAt(log, state.lastLsn - 1) == TableAt(log', state.lastLsn - 1)
    requires EventsIn(log, opening, state.lastLsn - 1) == EventsIn(log', opening, state.lastLsn - 1)
    requires WalkedKeysAreDelivered(log, opening, state, delivered)
    ensures WalkedKeysAreDelivered(log', opening, state, delivered)
  {
  }

  lemma SameLogRows(log: seq<Row>, log': seq<Row>, opening: int, last: int, reach: int, delivered: seq<Row>)
    requires EventsIn(log, opening, last - 1) == EventsIn(log', opening, last - 1)
    requires EventsIn(log, opening, reach) == EventsIn(log', opening, reach)
    requires LogRowsAreDelivered(log, opening, last, reach, delivered)
    ensures LogRowsAreDelivered(log', opening, last, reach, delivered)
  {
    EventsInMembers(log, opening, last - 1);
    EventsInMembers(log', opening, last - 1);
    EventsInMembers(log, opening, reach);
    EventsInMembers(log', opening, reach);
  }

  // ---- one batch ----

  lemma {:induction false} LogRowsConcat(a: seq<Row>, b: seq<Row>)
    ensures LogRows(a + b) == LogRows(a) + LogRows(b)
  {
    if |b| == 0 {
      assert a + b == a;
    } else {
      LogRowsConcat(a, b[..|b| - 1]);
      assert (a + b)[..|a + b| - 1] == a + b[..|b| - 1];
    }
  }

  lemma {:induction false} AllLogRows(rows: seq<Row>)
    requires forall i | 0 <= i < |rows| :: !rows[i].op.Dump?
    ensures LogRows(rows) == rows
  {
    if |rows| != 0 {
      var n := |rows| - 1;
      var front := rows[..n];
      assert LogRows(rows) == LogRows(front) + [rows[n]];
      AllLogRows(front);
      assert rows == front + [rows[n]];
    }
  }

  lemma {:induction false} NoLogRows(rows: seq<Row>)
    requires forall i | 0 <= i < |rows| :: rows[i].op.Dump?
    ensures LogRows(rows) == []
  {
    if |rows| != 0 {
      NoLogRows(rows[..|rows| - 1]);
    }
  }

  lemma LogRowsOfFrame(s: Source, state: RunState, next: RunState, rows: seq<Row>, dumped: seq<Row>)
    requires Valid(s) && Delivers(s.log, state, next, rows, dumped)
    ensures LogRows(rows) == EventsIn(s.log, state.lastLsn, next.lastLsn - 1)
  {
    var window := EventsIn(s.log, state.lastLsn, next.lastLsn - 1);
    EventsInMembers(s.log, state.lastLsn, next.lastLsn - 1);
    LogRowsConcat(window, dumped);
    assert forall i | 0 <= i < |window| :: window[i] in window;
    assert forall i | 0 <= i < |dumped| :: dumped[i] in dumped;
    AllLogRows(window);
    NoLogRows(dumped);
  }

  lemma KeptStaysPositioned(sys: System, r: BatchResult, dumped: seq<Row>)
    requires sys.saved.Some? && Positioned(sys)
    requires Delivers(sys.source.log, sys.saved.value, r.state, RowsOf(r.frame), dumped)
    requires r.state.lastLsn - 1 <= sys.source.end
    ensures Positioned(Kept(sys, sys.source, r))
  {
    LogRowsOfFrame(sys.source, sys.saved.value, r.state, RowsOf(r.frame), dumped);
    WindowsConcatenate(sys.source.log, sys.opening, sys.saved.value.lastLsn - 1, r.state.lastLsn - 1);
  }

  lemma KeptTargetHolds(sys: System, r: BatchResult, dumped: seq<Row>)
    requires sys.saved.Some? && Positioned(sys) && TargetHolds(sys)
    requires Delivers(sys.source.log, sys.saved.value, r.state, RowsOf(r.frame), dumped)
    requires sys.reach <= r.state.lastLsn - 1
    ensures TargetHolds(Kept(sys, sys.source, r))
  {
    forall key: Key
      ensures KeyHolds(sys.source.log, sys.opening, r.state.lastLsn, sys.walks && Walked(r.state, key),
                       sys.lossy && sys.walks, Get(Target(Kept(sys, sys.source, r)), key), Get(sys.base, key), key)
    {
      KeptKeyHolds(sys, r, dumped, key);
    }
  }

  lemma KeptKeyHolds(sys: System, r: BatchResult, dumped: seq<Row>, key: Key)
    requires sys.saved.Some? && Positioned(sys) && TargetHolds(sys)
    requires Delivers(sys.source.log, sys.saved.value, r.state, RowsOf(r.frame), dumped)
    requires sys.reach <= r.state.lastLsn - 1
    ensures KeyHolds(sys.source.log, sys.opening, r.state.lastLsn, sys.walks && Walked(r.state, key),
                     sys.lossy && sys.walks, Get(Target(Kept(sys, sys.source, r)), key), Get(sys.base, key), key)
  {
    var now' := Get(Apply(Target(sys), RowsOf(r.frame)), key);
    FrameHasEffect(sys.source.log, sys.walks, sys.saved.value, r.state, RowsOf(r.frame), dumped, Target(sys), key);
    KeyKept(sys.source.log, sys.opening, sys.saved.value.lastLsn, r.state.lastLsn, sys.reach,
            sys.walks && Walked(sys.saved.value, key), sys.walks && Walked(r.state, key), sys.lossy && sys.walks,
            Get(Target(sys), key), Get(sys.base, key), now', Mentions(dumped, key), key);
    ApplyConcat(sys.base, sys.delivered, RowsOf(r.frame));
  }

  lemma FrameHasEffect(
    log: seq<Row>, walks: bool, state: RunState, next: RunState,
    rows: seq<Row>, dumped: seq<Row>, target: Replica, key: Key)
    requires Ordered(log) && Delivers(log, state, next, rows, dumped)
    requires !walks ==> state.dumpDone
    ensures FrameEffect(log, state.lastLsn, next.lastLsn, walks && Walked(state, key), walks && Walked(next, key),
                        Get(target, key), Get(Apply(target, rows), key), Mentions(dumped, key), key)
  {
    FrameOnKey(log, state, next, rows, dumped, target, key);
    NewlyWalkedIsDumped(log, state, next, rows, dumped, key);
  }

  lemma NewlyWalkedIsDumped(
    log: seq<Row>, state: RunState, next: RunState, rows: seq<Row>, dumped: seq<Row>, key: Key)
    requires Delivers(log, state, next, rows, dumped)
    ensures Walked(state, key) ==> Walked(next, key)
    ensures state.dumpDone ==> !Mentions(dumped, key)
    ensures Walked(next, key) && !Walked(state, key) && Get(TableAt(log, state.lastLsn - 1), key).Some? ==>
              Touched(log, state.lastLsn, next.lastLsn - 1, key) || Mentions(dumped, key)
  {
  }

  lemma DroppedTargetHolds(sys: System, r: BatchResult, dumped: seq<Row>, written: nat)
    requires sys.saved.Some? && Positioned(sys) && TargetHolds(sys)
    requires Delivers(sys.source.log, sys.saved.value, r.state, RowsOf(r.frame), dumped)
    requires written <= |RowsOf(r.frame)|
    ensures TargetHolds(Dropped(sys, sys.source, r, written))
  {
    var log, state := sys.source.log, sys.saved.value;
    var rows := RowsOf(r.frame);
    var after := Dropped(sys, sys.source, r, written);
    ApplyConcat(sys.base, sys.delivered, rows[..written]);
    forall key: Key | !Touched(log, state.lastLsn, after.reach, key)
      ensures KeyHolds(log, sys.opening, state.lastLsn, sys.walks && Walked(state, key),
                       sys.walks, Get(Target(after), key), Get(sys.base, key), key)
    {
      NarrowerIsUntouched(log, state.lastLsn, sys.reach, after.reach, key);
      NarrowerIsUntouched(log, state.lastLsn, r.state.lastLsn - 1, after.reach, key);
      PartOfFrameOnKey(log, state, r.state, rows, dumped, written, Target(sys), key);
    }
  }

  lemma KeptDeliveredHolds(sys: System, kept: System, rows: seq<Row>, dumped: seq<Row>)
    requires sys.saved.Some? && kept.saved.Some? && Valid(sys.source) && DeliveredHolds(sys)
    requires Delivers(sys.source.log, sys.saved.value, kept.saved.value, rows, dumped)
    requires sys.opening <= sys.saved.value.lastLsn && sys.reach <= kept.reach == kept.saved.value.lastLsn - 1
    requires kept.source == sys.source && kept.opening == sys.opening && kept.walks == sys.walks
    requires kept.delivered == sys.delivered + rows
    ensures DeliveredHolds(kept)
  {
    KeptRowsHold(kept.source, kept.opening, sys.saved.value, kept.saved.value, sys.reach, kept.reach, kept.walks,
                 sys.delivered, rows, dumped, kept.delivered);
  }

  lemma KeptRowsHold(
    s: Source, opening: int, state: RunState, next: RunState, reach: int, reach': int, walks: bool,
    delivered: seq<Row>, rows: seq<Row>, dumped: seq<Row>, delivered': seq<Row>)
    requires Valid(s) && Delivers(s.log, state, next, rows, dumped)
    requires RowsHold(s.log, opening, state, reach, walks, delivered)
    requires opening <= state.lastLsn && reach <= reach' == next.lastLsn - 1
    requires delivered' == delivered + rows
    ensures RowsHold(s.log, opening, next, reach', walks, delivered')
  {
    KeptLogRows(s, opening, reach, state, next, delivered, rows, dumped);
    KeptDumpRows(s, opening, reach, state, next, delivered, rows, dumped);
    if walks {
      KeptKeysAreDelivered(s.log, opening, state, next, delivered, rows, dumped);
    }
  }

  lemma KeptDumpRows(
    s: Source, opening: int, reach: int, state: RunState, next: RunState,
    delivered: seq<Row>, rows: seq<Row>, dumped: seq<Row>)
    requires Valid(s) && Delivers(s.log, state, next, rows, dumped)
    requires DumpRowsAreTrue(s.log, opening, state.lastLsn, reach, delivered)
    requires opening <= state.lastLsn && reach <= next.lastLsn - 1
    ensures DumpRowsAreTrue(s.log, opening, next.lastLsn, next.lastLsn - 1, delivered + rows)
  {
    forall x | x in delivered + rows && x.op.Dump?
      ensures DumpRowIsTrue(s.log, opening, next.lastLsn, next.lastLsn - 1, x)
    {
      DumpRowsComeFrom(s, state, next, rows, dumped, x);
      KeptDumpRow(s.log, opening, reach, state, next, rows, dumped, x);
    }
  }

  lemma KeptLogRows(
    s: Source, opening: int, reach: int, state: RunState, next: RunState,
    delivered: seq<Row>, rows: seq<Row>, dumped: seq<Row>)
    requires Valid(s) && Delivers(s.log, state, next, rows, dumped)
    requires LogRowsAreDelivered(s.log, opening, state.lastLsn, reach, delivered)
    requires opening <= state.lastLsn && reach <= next.lastLsn - 1
    ensures LogRowsAreDelivered(s.log, opening, next.lastLsn, next.lastLsn - 1, delivered + rows)
  {
    EventsInMembers(s.log, state.lastLsn, next.lastLsn - 1);
  }

  /** Dump rows of a frame are the ones stamped from its chunk. */
  lemma DumpRowsComeFrom(
    s: Source, state: RunState, next: RunState, rows: seq<Row>, dumped: seq<Row>, x: Row)
    requires Valid(s) && Delivers(s.log, state, next, rows, dumped)
    ensures x in rows && x.op.Dump? ==> x in dumped
    ensures x in rows && !x.op.Dump? ==> x in s.log && state.lastLsn <= x.lsn < next.lastLsn
  {
    EventsInMembers(s.log, state.lastLsn, next.lastLsn - 1);
  }

  lemma KeptDumpRow(
    log: seq<Row>, opening: int, reach: int, state: RunState, next: RunState,
    rows: seq<Row>, dumped: seq<Row>, x: Row)
    requires Ordered(log) && Delivers(log, state, next, rows, dumped)
    requires opening <= state.lastLsn && reach <= next.lastLsn - 1
    requires x in dumped || DumpRowIsTrue(log, opening, state.lastLsn, reach, x)
    ensures DumpRowIsTrue(log, opening, next.lastLsn, next.lastLsn - 1, x)
  {
    if !Touched(log, opening, next.lastLsn - 1, x.key) {
      NarrowerIsUntouched(log, opening, reach, next.lastLsn - 1, x.key);
      TouchSplits(log, opening, state.lastLsn - 1, next.lastLsn - 1, x.key);
      UntouchedIsConstant(log, state.lastLsn - 1, next.lastLsn - 1, x.key);
    }
  }

  lemma KeptKeysAreDelivered(
    log: seq<Row>, opening: int, state: RunState, next: RunState,
    delivered: seq<Row>, rows: seq<Row>, dumped: seq<Row>)
    requires Ordered(log) && Delivers(log, state, next, rows, dumped) && opening <= state.lastLsn
    requires WalkedKeysAreDelivered(log, opening, state, delivered)
    ensures WalkedKeysAreDelivered(log, opening, next, delivered + rows)
  {
    forall key: Key |
      && Walked(next, key) && Get(TableAt(log, next.lastLsn - 1), key).Some?
      && !Touched(log, opening, next.lastLsn - 1, key)
      ensures Mentions(delivered + rows, key)
    {
      TouchSplits(log, opening, state.lastLsn - 1, next.lastLsn - 1, key);
      UntouchedIsConstant(log, state.lastLsn - 1, next.lastLsn - 1, key);
      MentionsSplits(delivered, rows, key);
      MentionsSplits(EventsIn(log, state.lastLsn, next.lastLsn - 1), dumped, key);
    }
  }

  lemma DroppedDeliveredHolds(
    sys: System, dropped: System, next: RunState, rows: seq<Row>, dumped: seq<Row>, part: seq<Row>)
    requires sys.saved.Some? && Valid(sys.source) && DeliveredHolds(sys) && sys.opening <= sys.saved.value.lastLsn
    requires Delivers(sys.source.log, sys.saved.value, next, rows, dumped) && part <= rows
    requires dropped.source == sys.source && dropped.opening == sys.opening && dropped.walks == sys.walks
    requires dropped.saved == sys.saved && sys.reach <= dropped.reach && next.lastLsn - 1 <= dropped.reach
    requires dropped.delivered == sys.delivered + part
    ensures DeliveredHolds(dropped)
  {
    PartComesFrom(dropped.source, sys.saved.value, next, rows, dumped, part);
    DroppedRowsHold(dropped.source.log, dropped.opening, dropped.saved.value, next, sys.reach, dropped.reach,
                    dropped.walks, sys.delivered, dumped, part, dropped.delivered);
  }

  /** Rows a batch may have brought: changes of its window, and rows of its dump. */
  predicate Brought(log: seq<Row>, state: RunState, next: RunState, dumped: seq<Row>, part: seq<Row>) {
    forall x | x in part ::
      if x.op.Dump? then x in dumped else x in log && state.lastLsn <= x.lsn < next.lastLsn
  }

  lemma PartComesFrom(
    s: Source, state: RunState, next: RunState, rows: seq<Row>, dumped: seq<Row>, part: seq<Row>)
    requires Valid(s) && Delivers(s.log, state, next, rows, dumped) && part <= rows
    ensures Brought(s.log, state, next, dumped, part)
    ensures Survivors(s.log, state, next, dumped)
  {
    forall x | x in part
      ensures if x.op.Dump? then x in dumped else x in s.log && state.lastLsn <= x.lsn < next.lastLsn
    {
      assert x in rows;
      DumpRowsComeFrom(s, state, next, rows, dumped, x);
    }
  }

  lemma DroppedRowsHold(
    log: seq<Row>, opening: int, state: RunState, next: RunState, reach: int, reach': int, walks: bool,
    delivered: seq<Row>, dumped: seq<Row>, part: seq<Row>, delivered': seq<Row>)
    requires RowsHold(log, opening, state, reach, walks, delivered)
    requires Brought(log, state, next, dumped, part) && Survivors(log, state, next, dumped)
    requires opening <= state.lastLsn && reach <= reach' && next.lastLsn - 1 <= reach'
    requires delivered' == delivered + part
    ensures RowsHold(log, opening, state, reach', walks, delivered')
  {
    forall x | x in delivered' && x.op.Dump?
      ensures DumpRowIsTrue(log, opening, state.lastLsn, reach', x)
    {
      DroppedDumpRow(log, opening, state, next, reach, reach', dumped, x);
    }
    forall key: Key | Mentions(delivered, key)
      ensures Mentions(delivered', key)
    {
      MentionsSplits(delivered, part, key);
    }
  }

  lemma DroppedDumpRow(
    log: seq<Row>, opening: int, state: RunState, next: RunState, reach: int, reach': int, dumped: seq<Row>, x: Row)
    requires Survivors(log, state, next, dumped) && reach <= reach'
    requires x in dumped || DumpRowIsTrue(log, opening, state.lastLsn, reach, x)
    ensures DumpRowIsTrue(log, opening, state.lastLsn, reach', x)
  {
    if !Touched(log, opening, reach', x.key) {
      NarrowerIsUntouched(log, opening, reach, reach', x.key);
    }
  }

  lemma KeptHolds(sys: System, r: BatchResult, dumped: seq<Row>)
    requires sys.saved.Some? && Holds(sys)
    requires Delivers(sys.source.log, sys.saved.value, r.state, RowsOf(r.frame), dumped)
    requires sys.reach <= r.state.lastLsn - 1 <= sys.source.end
    ensures Holds(Kept(sys, sys.source, r))
  {
    KeptStaysPositioned(sys, r, dumped);
    KeptTargetHolds(sys, r, dumped);
    KeptDeliveredHolds(sys, Kept(sys, sys.source, r), RowsOf(r.frame), dumped);
  }

  lemma DroppedHolds(sys: System, r: BatchResult, dumped: seq<Row>, written: nat)
    requires sys.saved.Some? && Holds(sys)
    requires Delivers(sys.source.log, sys.saved.value, r.state, RowsOf(r.frame), dumped)
    requires r.state.lastLsn == sys.saved.value.lastLsn || r.state.lastLsn - 1 <= sys.source.captured
    requires written <= |RowsOf(r.frame)|
    ensures Holds(Dropped(sys, sys.source, r, written))
  {
    DroppedTargetHolds(sys, r, dumped, written);
    DroppedDeliveredHolds(sys, Dropped(sys, sys.source, r, written), r.state, RowsOf(r.frame), dumped,
                          RowsOf(r.frame)[..written]);
  }
}
