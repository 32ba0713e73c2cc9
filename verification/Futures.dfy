/**
 Things that can come of any source from where it stands: somebody empties the table, or commits one
 row just past the end. Both are interleavings of the environment's own steps.
 */
module Futures {
  import opened Outcomes
  import opened Catalog
  import opened Rows
  import opened Source
  import opened Dblog
  import Paging
  import Order

  lemma {:induction false} EventsInConcat(a: seq<Row>, b: seq<Row>, lo: int, hi: int)
    ensures EventsIn(a + b, lo, hi) == EventsIn(a, lo, hi) + EventsIn(b, lo, hi)
  {
    if |b| == 0 {
      assert a + b == a;
    } else {
      EventsInConcat(a, b[..|b| - 1], lo, hi);
      assert (a + b)[..|a + b| - 1] == a + b[..|b| - 1];
    }
  }

  lemma {:induction false} AllInWindow(rows: seq<Row>, lo: int, hi: int)
    requires forall i | 0 <= i < |rows| :: lo <= rows[i].lsn <= hi
    ensures EventsIn(rows, lo, hi) == rows
  {
    if |rows| != 0 {
      var n := |rows| - 1;
      var front := rows[..n];
      assert EventsIn(rows, lo, hi) == EventsIn(front, lo, hi) + [rows[n]];
      AllInWindow(front, lo, hi);
      assert rows == front + [rows[n]];
    }
  }

  /** Rows committed in one transaction just past the end of a source are the whole of a later window. */
  lemma NewRowsAreTheWindow(s: Source, rows: seq<Row>, hi: int)
    requires Valid(s) && s.end + 1 <= hi
    requires forall i | 0 <= i < |rows| :: rows[i].lsn == s.end + 1
    ensures EventsIn(s.log + rows, s.end + 1, hi) == rows
  {
    EventsInConcat(s.log, rows, s.end + 1, hi);
    NoneInLaterWindow(s.log, s.end + 1, hi);
    AllInWindow(rows, s.end + 1, hi);
  }

  // ---- one transaction, and other tables moving on ----

  /** Rows one transaction may commit at a position */
  ghost predicate Transaction(rows: seq<Row>, lsn: nat, clock: int) {
    && (forall i | 0 <= i < |rows| :: rows[i].lsn == lsn && !rows[i].op.Dump? && rows[i].commit == clock)
    && (forall i, j | 0 <= i < j < |rows| :: rows[i].seqval < rows[j].seqval)
  }

  /** The source after such a commit, with others up to a position, all captured and retention on. */
  function Later(s: Source, rows: seq<Row>, end: nat, catalog: TableSpec): Source {
    Source(s.log + rows, end, end, if s.floor == 0 then 1 else s.floor, s.guarded, s.clock, catalog)
  }

  lemma LaterIsReached(s: Source, rows: seq<Row>, end: nat, catalog: TableSpec)
    requires Valid(s) && Transaction(rows, s.end + 1, s.clock) && s.end + 1 < end
    ensures Valid(Later(s, rows, end, catalog)) && Evolves(s, Later(s, rows, end, catalog))
  {
    var written := s.(log := s.log + rows, end := s.end + 1);
    var moved := written.(end := end);
    var captured := moved.(captured := end);
    var retained := captured.(floor := if s.floor == 0 then 1 else s.floor);
    var later := retained.(catalog := catalog);
    assert Commit(s, written);
    StepKeepsValid(s, written);
    StepKeepsValid(written, moved);
    StepKeepsValid(moved, captured);
    StepKeepsValid(captured, retained);
    StepKeepsValid(retained, later);
    assert Evolves(s, later);
  }

  /** A source that evolved by just these changes to the table */
  ghost predicate Gains(s: Source, later: Source, rows: seq<Row>) {
    && Evolves(s, later) && Ordered(later.log)
    && forall hi: int | s.end < hi :: Since(s, later, hi, rows)
  }

  ghost predicate Since(s: Source, later: Source, hi: int, rows: seq<Row>) {
    EventsIn(later.log, s.end + 1, hi) == rows
  }

  /** Any source can gain the changes of a transaction and then fall quiet, all of it captured. */
  lemma Reach(s: Source, rows: seq<Row>, end: nat, catalog: TableSpec) returns (later: Source)
    requires Valid(s) && Transaction(rows, s.end + 1, s.clock) && s.end + 1 < end
    ensures Valid(later) && Gains(s, later, rows)
    ensures later.captured == later.end == end && 0 < later.floor && later.catalog == catalog
    ensures EventsIn(later.log, end, end) == []
  {
    later := Later(s, rows, end, catalog);
    LaterIsReached(s, rows, end, catalog);
    forall hi: int | s.end < hi
      ensures Since(s, later, hi, rows)
    {
      NewRowsAreTheWindow(s, rows, hi);
    }
    LatestIsQuiet(s, rows, end);
  }

  lemma LatestIsQuiet(s: Source, rows: seq<Row>, end: nat)
    requires Valid(s) && Transaction(rows, s.end + 1, s.clock) && s.end + 1 < end
    ensures EventsIn(s.log + rows, end, end) == []
  {
    EventsInConcat(s.log, rows, end, end);
    NoneInLaterWindow(s.log, end, end);
    NoneInLaterWindow(rows, end, end);
  }

  /** The table later: as it was up to the end, and with the new rows applied past it. */
  lemma TableLater(s: Source, later: Source, rows: seq<Row>, position: int)
    requires Gains(s, later, rows)
    ensures TableAt(later.log, position) ==
            if position <= s.end then TableAt(s.log, position) else Apply(TableAt(s.log, s.end), rows)
  {
    if position <= s.end {
      EvolutionKeepsTable(s, later, position);
    } else {
      EvolutionKeepsTable(s, later, s.end);
      assert Since(s, later, position, rows);
      TableMoves(later.log, s.end, position);
    }
  }

  lemma EvolutionKeepsTable(s: Source, later: Source, position: int)
    requires Evolves(s, later) && position <= s.end
    ensures TableAt(later.log, position) == TableAt(s.log, position)
  {
    EvolutionKeepsWindow(s, later, 0, position);
  }

  // ---- the table is read as it stands ----

  /** Every table has a listing in key order. */
  lemma {:induction false} SortedListing(m: Replica) returns (rows: Page)
    ensures Paging.Lists(rows, m)
    decreases |m|
  {
    if m == map[] {
      rows := [];
    } else {
      var key: Key :| key in m;
      assert |m - {key}| < |m| by {
        assert (m - {key}).Keys == m.Keys - {key};
      }
      var rest := SortedListing(m - {key});
      rows := Inserted(rest, TableRow(key, m[key]));
      ListsOneMore(m, key, rest, rows);
    }
  }

  lemma ListsOneMore(m: Replica, key: Key, rest: Page, rows: Page)
    requires key in m && Paging.Lists(rest, m - {key})
    requires Sorted(rows) && forall x :: x in rows <==> x in rest || x == TableRow(key, m[key])
    ensures Paging.Lists(rows, m)
  {
    forall k: Key | k in m
      ensures exists row | row in rows :: row.key == k
    {
      if k == key {
        assert TableRow(key, m[key]) in rows;
      } else {
        assert k in m - {key};
        var row :| row in rest && row.key == k;
        assert row in rows;
      }
    }
    forall row | row in rows
      ensures Get(m, row.key) == Some(row.image)
    {
      if row in rest {
        assert Get(m - {key}, row.key) == Some(row.image);
      }
    }
  }

  /** A row put in its place among rows in key order. */
  lemma {:induction false} Inserted(rows: Page, row: TableRow<Image>) returns (all: Page)
    requires Sorted(rows) && forall x | x in rows :: x.key != row.key
    ensures Sorted(all) && forall x :: x in all <==> x in rows || x == row
    decreases |rows|
  {
    if |rows| == 0 {
      all := [row];
    } else {
      var n := |rows| - 1;
      var last := rows[n];
      assert rows == rows[..n] + [last] && last in rows;
      Order.LessIsTotal(last.key, row.key);
      if Order.Less(last.key, row.key) {
        EndsBelow(rows, row.key);
        SortedAppend(rows, row);
        all := rows + [row];
      } else {
        var front := Inserted(rows[..n], row);
        forall x | x in front
          ensures Order.Less(x.key, last.key)
        {
          if x != row {
            var i :| 0 <= i < n && rows[..n][i] == x;
          }
        }
        SortedAppend(front, last);
        all := front + [last];
      }
    }
  }

  lemma EndsBelow(rows: Page, key: Key)
    requires Sorted(rows) && |rows| > 0 && Order.Less(rows[|rows| - 1].key, key)
    ensures forall x | x in rows :: Order.Less(x.key, key)
  {
    forall x | x in rows
      ensures Order.Less(x.key, key)
    {
      var i :| 0 <= i < |rows| && rows[i] == x;
      if i < |rows| - 1 {
        Order.LessIsTransitive(x.key, rows[|rows| - 1].key, key);
      }
    }
  }

  // ---- the table is emptied ----

  /** Deletes of every row of a page, in one transaction */
  function Deletions(page: Page, lsn: nat, clock: int): (rows: seq<Row>)
    ensures Transaction(rows, lsn, clock)
    ensures |rows| == |page| && forall i | 0 <= i < |rows| :: rows[i].op.Delete? && rows[i].key == page[i].key
  {
    seq(|page|, i requires 0 <= i < |page| => Row(lsn, i, Delete, 0, clock, page[i].key, []))
  }

  lemma {:induction false} DeletedIsGone(m: Replica, rows: seq<Row>, key: Key)
    requires forall i | 0 <= i < |rows| :: rows[i].op.Delete?
    ensures Get(Apply(m, rows), key) == if Mentions(rows, key) then None else Get(m, key)
  {
    if |rows| != 0 {
      var n := |rows| - 1;
      DeletedIsGone(m, rows[..n], key);
      assert rows == rows[..n] + [rows[n]];
      MentionsSplits(rows[..n], [rows[n]], key);
      assert rows[n] in [rows[n]];
    }
  }

  lemma AllDeleted(m: Replica, page: Page, lsn: nat, clock: int)
    requires Paging.Lists(page, m)
    ensures Apply(m, Deletions(page, lsn, clock)) == map[]
  {
    var rows := Deletions(page, lsn, clock);
    forall key: Key
      ensures Get(Apply(m, rows), key) == Get(map[], key)
    {
      DeletedIsGone(m, rows, key);
      if key in m {
        var row :| row in page && row.key == key;
        var i :| 0 <= i < |page| && page[i] == row;
        assert rows[i] in rows && rows[i].key == key;
      }
    }
    SameReplica(Apply(m, rows), map[]);
  }

  /** A source somebody emptied the table of before its latest position, all of it captured */
  ghost predicate Emptied(s: Source) {
    && Valid(s) && UniqueLeads(s.log)
    && 0 < s.floor && 0 < s.captured == s.end
    && EventsIn(s.log, s.end, s.end) == []
    && TableAt(s.log, s.end) == map[]
  }

  /** Any table can be emptied, and the catalogue answer anything after. */
  lemma AnyTableCanBeEmptied(s: Source, catalog: TableSpec) returns (later: Source)
    requires Valid(s) && UniqueLeads(s.log)
    ensures Evolves(s, later) && Emptied(later) && later.catalog == catalog && later.end == s.end + 2
  {
    var page := SortedListing(TableAt(s.log, s.end));
    var rows := Deletions(page, s.end + 1, s.clock);
    later := Reach(s, rows, s.end + 2, catalog);
    AllDeleted(TableAt(s.log, s.end), page, s.end + 1, s.clock);
    TableOnceEmptied(s, later, rows);
    EmptyingKeepsLeadsUnique(s.log, later.log, s.end);
  }

  lemma TableOnceEmptied(s: Source, later: Source, rows: seq<Row>)
    requires Gains(s, later, rows) && Apply(TableAt(s.log, s.end), rows) == map[]
    ensures forall p: int :: TableAt(later.log, p) == if p <= s.end then TableAt(s.log, p) else map[]
  {
    forall p: int
      ensures TableAt(later.log, p) == if p <= s.end then TableAt(s.log, p) else map[]
    {
      TableLater(s, later, rows, p);
    }
  }

  lemma EmptyingKeepsLeadsUnique(log: seq<Row>, log': seq<Row>, end: int)
    requires UniqueLeads(log)
    requires forall p: int :: TableAt(log', p) == if p <= end then TableAt(log, p) else map[]
    ensures UniqueLeads(log')
  {
  }

  // ---- a row is added ----

  /** A key past every other of a page in key order */
  function FreshKey(page: Page): Key {
    [if page == [] then 0 else Lead(page[|page| - 1].key) + 1]
  }

  lemma FreshKeyIsPastAll(page: Page)
    requires Sorted(page)
    ensures forall row | row in page :: Lead(row.key) < Lead(FreshKey(page))
  {
    forall row | row in page
      ensures Lead(row.key) < Lead(FreshKey(page))
    {
      var i :| 0 <= i < |page| && page[i] == row;
      if i < |page| - 1 {
        LeadFollowsOrder(row.key, page[|page| - 1].key);
      }
    }
  }

  function Added(page: Page, lsn: nat, clock: int): Row {
    Row(lsn, 0, Insert, 0, clock, FreshKey(page), [])
  }

  /** A row under a fresh key can be added to any table just past the end. */
  lemma ARowCanBeAdded(s: Source, page: Page, end: nat) returns (later: Source)
    requires Valid(s) && UniqueLeads(s.log) && s.end + 1 < end
    requires Paging.Lists(page, TableAt(s.log, s.end))
    ensures Evolves(s, later) && Valid(later) && UniqueLeads(later.log) && later.end == end
    ensures forall p: int | s.end < p :: FreshKey(page) in TableAt(later.log, p)
  {
    var row := Added(page, s.end + 1, s.clock);
    later := Reach(s, [row], end, s.catalog);
    FreshKeyIsPastAll(page);
    TableOnceAdded(s, later, row);
    forall key: Key | key in TableAt(s.log, s.end)
      ensures Lead(key) < Lead(row.key)
    {
      var listed :| listed in page && listed.key == key;
    }
    AddingKeepsLeadsUnique(s.log, later.log, s.end, row);
  }

  lemma TableOnceAdded(s: Source, later: Source, row: Row)
    requires Gains(s, later, [row]) && row.op.Insert?
    ensures forall p: int ::
      TableAt(later.log, p) == if p <= s.end then TableAt(s.log, p) else TableAt(s.log, s.end)[row.key := row.image]
  {
    assert [row][..0] == [];
    assert Apply(TableAt(s.log, s.end), [row]) == TableAt(s.log, s.end)[row.key := row.image];
    forall p: int
      ensures TableAt(later.log, p) ==
              if p <= s.end then TableAt(s.log, p) else TableAt(s.log, s.end)[row.key := row.image]
    {
      TableLater(s, later, [row], p);
    }
  }

  lemma AddingKeepsLeadsUnique(log: seq<Row>, log': seq<Row>, end: int, row: Row)
    requires UniqueLeads(log)
    requires forall p: int ::
      TableAt(log', p) == if p <= end then TableAt(log, p) else TableAt(log, end)[row.key := row.image]
    requires forall key: Key | key in TableAt(log, end) :: Lead(key) < Lead(row.key)
    ensures UniqueLeads(log')
  {
    forall p: int, a: Key, b: Key |
      a in TableAt(log', p) && b in TableAt(log', p) && Lead(a) == Lead(b)
      ensures a == b
    {
      var q := if p <= end then p else end;
      if a in TableAt(log, q) && b in TableAt(log, q) {
        assert a == b;
      }
    }
  }
}
