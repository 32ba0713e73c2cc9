/**
 The source as the algorithm sees it: the table's committed changes, how far capture has read
 them, how much of them cleanup has left, and a clock. Writers commit, capture advances, cleanup
 raises the floor and somebody may alter the table between any two reads.
 */
module Source {
  import opened Outcomes
  import opened Catalog
  import opened Rows

  datatype Source = Source(
    log: seq<Row>,       // every change ever committed to the table, in commit order
    end: nat,            // the highest LSN committed anywhere in the database
    captured: nat,       // get_max_lsn: how far the capture job has read, 0 before its first scan
    floor: nat,          // get_min_lsn: the oldest LSN the change table retains, 0 for none
    guarded: bool,       // whether the server refuses a window that opens below the floor
    clock: int,          // the source's own clock
    catalog: TableSpec)  // what the catalogue says about the table

  predicate Before(a: Row, b: Row) {
    a.lsn < b.lsn || (a.lsn == b.lsn && a.seqval < b.seqval)
  }

  ghost predicate Ordered(log: seq<Row>) {
    forall i, j | 0 <= i < j < |log| :: Before(log[i], log[j])
  }

  /** The changes at positions lo to hi, both included, in log order. */
  function EventsIn(log: seq<Row>, lo: int, hi: int): seq<Row> {
    if |log| == 0 then []
    else
      var last := log[|log| - 1];
      EventsIn(log[..|log| - 1], lo, hi) + (if lo <= last.lsn <= hi then [last] else [])
  }

  /** The table as of a position: the fold of every change up to it. */
  function TableAt(log: seq<Row>, position: int): Replica {
    Apply(map[], EventsIn(log, 0, position))
  }

  ghost predicate Valid(s: Source) {
    && Ordered(s.log)
    && (forall r | r in s.log :: 0 < r.lsn <= s.end && !r.op.Dump? && r.commit <= s.clock)
    && s.captured <= s.end
    && s.floor <= s.end
  }

  /** At every position, no two rows of the table share a leading key. */
  ghost predicate UniqueLeads(log: seq<Row>) {
    forall p: int, a: Key, b: Key {:trigger a in TableAt(log, p), b in TableAt(log, p)} ::
      a in TableAt(log, p) && b in TableAt(log, p) && Lead(a) == Lead(b) ==> a == b
  }

  // ---- what the environment does ----

  /** One transaction commits, to this table or to another one of the database. */
  ghost predicate Commit(s: Source, s': Source) {
    && s.end < s'.end
    && s.log <= s'.log
    && s' == s.(log := s'.log, end := s'.end)
    && (forall i | |s.log| <= i < |s'.log| ::
          s'.log[i].lsn == s'.end && !s'.log[i].op.Dump? && s'.log[i].commit == s.clock)
    && (forall i, j | |s.log| <= i < j < |s'.log| :: s'.log[i].seqval < s'.log[j].seqval)
  }

  ghost predicate Capture(s: Source, s': Source) {
    s.captured <= s'.captured <= s.end && s' == s.(captured := s'.captured)
  }

  ghost predicate Cleanup(s: Source, s': Source) {
    s.floor <= s'.floor <= s.end && s' == s.(floor := s'.floor)
  }

  ghost predicate Tick(s: Source, s': Source) {
    s.clock <= s'.clock && s' == s.(clock := s'.clock)
  }

  ghost predicate Alter(s: Source, s': Source) {
    s' == s.(catalog := s'.catalog)
  }

  ghost predicate EnvironmentStep(s: Source, s': Source) {
    Commit(s, s') || Capture(s, s') || Cleanup(s, s') || Tick(s, s') || Alter(s, s')
  }

  /** What any number of environment steps can do, in one relation. */
  ghost predicate Evolves(s: Source, s': Source) {
    && s.log <= s'.log
    && (forall i | |s.log| <= i < |s'.log| :: s.end < s'.log[i].lsn)
    && s.end <= s'.end && s.captured <= s'.captured && s.floor <= s'.floor && s.clock <= s'.clock
    && s.guarded == s'.guarded
  }

  lemma EvolvesIsTransitive(a: Source, b: Source, c: Source)
    requires Evolves(a, b) && Evolves(b, c)
    ensures Evolves(a, c)
  {
    forall i | |a.log| <= i < |c.log|
      ensures a.end < c.log[i].lsn
    {
      if i < |b.log| {
        assert c.log[i] == b.log[i];
      }
    }
  }

  lemma StepKeepsValid(s: Source, s': Source)
    requires Valid(s) && EnvironmentStep(s, s')
    ensures Valid(s') && Evolves(s, s')
  {
    if Commit(s, s') {
      assert s.log == s'.log[..|s.log|];
      forall i, j | 0 <= i < j < |s'.log|
        ensures Before(s'.log[i], s'.log[j])
      {
        if i < |s.log| {
          assert s'.log[i] == s.log[i] && s.log[i] in s.log;
        }
      }
      forall r | r in s'.log
        ensures 0 < r.lsn <= s'.end && !r.op.Dump? && r.commit <= s'.clock
      {
        var i :| 0 <= i < |s'.log| && s'.log[i] == r;
        if i < |s.log| {
          assert r == s.log[i] && s.log[i] in s.log;
        }
      }
    }
  }

  /** Any interleaving of commits, captures, cleanups, ticks and alterations */
  ghost predicate Interleaving(trace: seq<Source>) {
    forall n | 0 <= n < |trace| - 1 :: EnvironmentStep(trace[n], trace[n + 1])
  }

  /** Every interleaving is an evolution, whose sources stay valid. */
  lemma {:induction false} InterleavingsEvolve(trace: seq<Source>)
    requires |trace| > 0 && Valid(trace[0]) && Interleaving(trace)
    ensures Valid(trace[|trace| - 1]) && Evolves(trace[0], trace[|trace| - 1])
  {
    var n := |trace| - 1;
    if n > 0 {
      var front := trace[..n];
      assert Interleaving(front) by {
        assert forall i | 0 <= i < n :: front[i] == trace[i];
      }
      InterleavingsEvolve(front);
      assert EnvironmentStep(trace[n - 1], trace[n]);
      StepKeepsValid(trace[n - 1], trace[n]);
      EvolvesIsTransitive(trace[0], trace[n - 1], trace[n]);
    }
  }

  // ---- windows of the log ----

  lemma {:induction false} EventsInMembers(log: seq<Row>, lo: int, hi: int)
    ensures forall r :: r in EventsIn(log, lo, hi) <==> r in log && lo <= r.lsn <= hi
  {
    if |log| != 0 {
      EventsInMembers(log[..|log| - 1], lo, hi);
      assert log == log[..|log| - 1] + [log[|log| - 1]];
    }
  }

  lemma NoneInBackwardWindow(log: seq<Row>, lo: int, hi: int)
    requires hi < lo
    ensures EventsIn(log, lo, hi) == []
  {
    EventsInMembers(log, lo, hi);
  }

  lemma NoneInLaterWindow(log: seq<Row>, lo: int, hi: int)
    requires forall r | r in log :: r.lsn < lo
    ensures EventsIn(log, lo, hi) == []
  {
    EventsInMembers(log, lo, hi);
  }

  /** Two windows that abut concatenate to the window over both. */
  lemma {:induction false} WindowsConcatenate(log: seq<Row>, lo: int, middle: int, hi: int)
    requires Ordered(log)
    requires lo <= middle + 1 && middle <= hi
    ensures EventsIn(log, lo, middle) + EventsIn(log, middle + 1, hi) == EventsIn(log, lo, hi)
  {
    if |log| != 0 {
      var n := |log| - 1;
      var last := log[n];
      WindowsConcatenate(log[..n], lo, middle, hi);
      var left, right := EventsIn(log[..n], lo, middle), EventsIn(log[..n], middle + 1, hi);
      var extra := if lo <= last.lsn <= hi then [last] else [];
      assert EventsIn(log, lo, hi) == (left + right) + extra;
      if last.lsn <= middle {
        NoneInLaterWindow(log[..n], middle + 1, hi);
        assert EventsIn(log, middle + 1, hi) == [];
        assert EventsIn(log, lo, middle) == left + extra;
      } else {
        assert EventsIn(log, lo, middle) == left;
        assert EventsIn(log, middle + 1, hi) == right + extra;
      }
    }
  }

  /** Later commits do not show in a window that closes at or before the end they came after. */
  lemma {:induction false} WindowIsStable(log: seq<Row>, log': seq<Row>, lo: int, hi: int)
    requires log <= log'
    requires forall i | |log| <= i < |log'| :: hi < log'[i].lsn
    ensures EventsIn(log', lo, hi) == EventsIn(log, lo, hi)
    decreases |log'|
  {
    if |log| < |log'| {
      WindowIsStable(log, log'[..|log'| - 1], lo, hi);
    } else {
      assert log == log';
    }
  }

  lemma EvolutionKeepsWindow(s: Source, s': Source, lo: int, hi: int)
    requires Evolves(s, s') && hi <= s.end
    ensures EventsIn(s'.log, lo, hi) == EventsIn(s.log, lo, hi)
  {
    WindowIsStable(s.log, s'.log, lo, hi);
  }

  /** Moving a position forward applies the changes in between. */
  lemma TableMoves(log: seq<Row>, from: int, to: int)
    requires Ordered(log) && -1 <= from <= to
    ensures TableAt(log, to) == Apply(TableAt(log, from), EventsIn(log, from + 1, to))
  {
    WindowsConcatenate(log, 0, from, to);
    ApplyConcat(map[], EventsIn(log, 0, from), EventsIn(log, from + 1, to));
  }

  /** A key no change in between touched has one value throughout. */
  lemma UntouchedIsConstant(log: seq<Row>, from: int, to: int, key: Key)
    requires Ordered(log) && -1 <= from <= to
    requires !Mentions(EventsIn(log, from + 1, to), key)
    ensures Get(TableAt(log, to), key) == Get(TableAt(log, from), key)
  {
    TableMoves(log, from, to);
    ApplyUntouched(TableAt(log, from), EventsIn(log, from + 1, to), key);
  }

  /** A key some change in between touched ends on the log's value, whatever it is replayed onto. */
  lemma ReplayedIsTrue(log: seq<Row>, from: int, to: int, m: Replica, key: Key)
    requires Ordered(log) && -1 <= from <= to
    requires Mentions(EventsIn(log, from + 1, to), key)
    ensures Get(Apply(m, EventsIn(log, from + 1, to)), key) == Get(TableAt(log, to), key)
  {
    TableMoves(log, from, to);
    ApplyForgets(m, TableAt(log, from), EventsIn(log, from + 1, to), key);
  }

  lemma MentionsSplits(a: seq<Row>, b: seq<Row>, key: Key)
    ensures Mentions(a + b, key) <==> Mentions(a, key) || Mentions(b, key)
  {
    assert forall r :: r in a + b <==> r in a || r in b;
  }

  /** Touched in a wider window means touched in one of the two it is made of. */
  lemma TouchSplits(log: seq<Row>, lo: int, middle: int, hi: int, key: Key)
    requires Ordered(log) && lo <= middle + 1 && middle <= hi
    ensures Mentions(EventsIn(log, lo, hi), key) <==>
            Mentions(EventsIn(log, lo, middle), key) || Mentions(EventsIn(log, middle + 1, hi), key)
  {
    WindowsConcatenate(log, lo, middle, hi);
    MentionsSplits(EventsIn(log, lo, middle), EventsIn(log, middle + 1, hi), key);
  }
}
