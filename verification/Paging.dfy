/** Walking a quiescent table page by page. */
module Paging {
  import opened Outcomes
  import opened Catalog
  import opened Schema
  import opened Rows
  import opened Source
  import opened Dblog
  import Call
  import Order

  /** read_table on rows in key order: the first limit rows from start on. */
  function ReadPage(rows: Page, start: Option<int>, limit: nat): Page {
    Capped(Within(rows, start, None), limit)
  }

  /** These rows, in key order, are this table. */
  ghost predicate Lists(rows: Page, table: Replica) {
    && Sorted(rows)
    && (forall row | row in rows :: Get(table, row.key) == Some(row.image))
    && (forall key: Key | key in table :: exists row | row in rows :: row.key == key)
  }

  /** A page read at one instant is one of the pages a call may be given. */
  lemma SnapshotPageIsLegal(
    log: seq<Row>, position: int, from: int, to: int, rows: Page, start: Option<int>, limit: nat)
    requires from <= position <= to && 0 < limit
    requires Lists(rows, TableAt(log, position))
    ensures Call.PageOf(log, (_: Key) => position, from, to, start, limit, ReadPage(rows, start, limit))
  {
    WithinMembers(rows, start, None);
    WithinIsSorted(rows, start, None);
    CappedPage(Within(rows, start, None), limit);
    var page := ReadPage(rows, start, limit);
    forall key: Key | InRange(key, start, None) && key in TableAt(log, position)
      ensures Call.Reads(page, key)
              || (|page| == limit && |page| > 0 && Order.Less(page[|page| - 1].key, key))
    {
      var row :| row in rows && row.key == key;
      assert row in Within(rows, start, None);
    }
  }

  /** Capping sorted rows keeps a sorted prefix, and every row cut off comes after its last. */
  lemma CappedPage(all: Page, limit: nat)
    requires Sorted(all) && 0 < limit
    ensures
      var page := Capped(all, limit);
      && Sorted(page) && |page| <= limit
      && (forall row | row in page :: row in all)
      && (forall row | row in all && row !in page ::
            |page| == limit && Order.Less(page[|page| - 1].key, row.key))
  {
    var page := Capped(all, limit);
    forall row | row in all && row !in page
      ensures |page| == limit && Order.Less(page[|page| - 1].key, row.key)
    {
      var i :| 0 <= i < |all| && all[i] == row;
      if i < |page| {
        assert false;
      }
    }
  }

  /** A spec the walk can read by: what read_table and _key_after ask of it. */
  predicate Readable(spec: TableSpec) {
    && spec.pkColumns != [] && spec.BusinessColumns() != []
    && RowSchema(spec).Success? && LeadingKeyIsInteger(spec)
  }

  /** A read of at most so many rows from where a state stands, and the state past them */
  type Reader = (RunState, nat) -> Result<(Option<Page>, RunState)>

  function PagesOf(rows: Page): Reader {
    (state: RunState, n: nat) => NextChunk(ReadPage(rows, state.chunkKey, n), state, n)
  }

  function RowsRead(chunk: Option<Page>): Page {
    if chunk.None? then [] else chunk.value
  }

  /** One page after another, at sizes the caller may change call to call, until the walk is done. */
  function Walk(read: Reader, state: RunState, sizes: seq<nat>): Result<(Page, RunState)>
    decreases |sizes|
  {
    if sizes == [] || state.dumpDone then Success(([], state))
    else
      var (chunk, next) :- read(state, sizes[0]);
      var (rest, last) :- Walk(read, next, sizes[1..]);
      Success((RowsRead(chunk) + rest, last))
  }

  /** What the walk has still to read. */
  function Remaining(rows: Page, state: RunState): Page {
    if state.dumpDone then [] else Within(rows, state.chunkKey, None)
  }

  predicate Positive(sizes: seq<nat>) {
    forall i | 0 <= i < |sizes| :: 0 < sizes[i]
  }

  // ---- one page ----

  lemma SortedLeads(rows: Page, i: nat, j: nat)
    requires Sorted(rows) && i <= j < |rows|
    ensures Lead(rows[i].key) <= Lead(rows[j].key)
  {
    if i < j {
      LeadFollowsOrder(rows[i].key, rows[j].key);
    }
  }

  /**
   A full page leaves a suffix of what was left, after the page or later: rows that share the leading
   key the page ended on are passed over with it.
   */
  lemma FullPageLeavesSuffix(rows: Page, start: Option<int>, n: nat)
    requires Sorted(rows) && 0 < n <= |Within(rows, start, None)|
    ensures
      var left := Within(rows, start, None);
      var after := Within(rows, Some(Lead(left[n - 1].key) + 1), None);
      && |after| <= |left| - n
      && after == left[|left| - |after|..]
      && (forall row | row in after :: Lead(left[n - 1].key) < Lead(row.key))
  {
    var left := Within(rows, start, None);
    var key := Lead(left[n - 1].key) + 1;
    WithinMembers(rows, start, None);
    WithinIsSorted(rows, start, None);
    assert left[n - 1] in left;
    WithinSplits(rows, start, key, None);
    var passed, after := Within(rows, start, Some(key)), Within(rows, Some(key), None);
    WithinMembers(rows, start, Some(key));
    WithinMembers(rows, Some(key), None);
    assert left == passed + after;
    if |passed| < n {
      assert false;
    }
  }

  /** With leading keys unique, a full page leaves exactly the rows after it. */
  lemma FullPageLeavesRest(rows: Page, start: Option<int>, n: nat)
    requires Sorted(rows) && DistinctLeads(rows) && 0 < n <= |Within(rows, start, None)|
    ensures
      var left := Within(rows, start, None);
      Within(rows, Some(Lead(left[n - 1].key) + 1), None) == left[n..]
  {
    var left := Within(rows, start, None);
    var key := Lead(left[n - 1].key) + 1;
    FullPageLeavesSuffix(rows, start, n);
    var after := Within(rows, Some(key), None);
    WithinMembers(rows, start, None);
    WithinMembers(rows, Some(key), None);
    WithinIsSorted(rows, start, None);
    WithinKeepsLeadsDistinct(rows, start);
    if n < |left| {
      SortedLeads(left, n - 1, n);
      assert left[n] in left && left[n] in after;
    }
  }

  lemma WithinKeepsLeadsDistinct(rows: Page, start: Option<int>)
    requires Sorted(rows) && DistinctLeads(rows)
    ensures DistinctLeads(Within(rows, start, None))
  {
    var left := Within(rows, start, None);
    WithinMembers(rows, start, None);
    WithinIsSorted(rows, start, None);
    forall i, j | 0 <= i < j < |left|
      ensures Lead(left[i].key) != Lead(left[j].key)
    {
      assert left[i] in left && left[j] in left;
      var a :| 0 <= a < |rows| && rows[a] == left[i];
      var b :| 0 <= b < |rows| && rows[b] == left[j];
      Order.LessIsTotal(left[i].key, left[j].key);
    }
  }

  /** What a page of n rows takes of what was left. */
  predicate Takes(left: Page, n: nat, chunk: Page, next: RunState) {
    && (next.dumpDone <==> |left| < n)
    && (next.dumpDone ==> chunk == left)
    && (!next.dumpDone ==> n > 0 && chunk == left[..n] && next.chunkKey == Some(Lead(left[n - 1].key) + 1))
    && DistinctLeads(chunk)
  }

  /** The dump is over exactly when fewer rows were left than the call asked for. */
  lemma DoneWhenShort(rows: Page, state: RunState, n: nat)
    requires 0 < n && !state.dumpDone
    requires PagesOf(rows)(state, n).Success?
    ensures
      var (chunk, next) := PagesOf(rows)(state, n).value;
      Takes(Remaining(rows, state), n, RowsRead(chunk), next) && next.spec == state.spec
  {
    var left := Within(rows, state.chunkKey, None);
    if n <= |left| {
      assert ReadPage(rows, state.chunkKey, n) == left[..n];
    }
  }

  lemma DistinctPageIsRead(rows: Page, state: RunState, n: nat)
    requires Sorted(rows) && DistinctLeads(rows) && Readable(state.spec) && 0 < n
    ensures PagesOf(rows)(state, n).Success?
  {
    WithinKeepsLeadsDistinct(rows, state.chunkKey);
  }

  // ---- the whole walk ----

  /** All that the lemmas below need to know of a reader. */
  ghost predicate Pages(rows: Page, read: Reader) {
    forall state: RunState, n: nat | 0 < n && !state.dumpDone && read(state, n).Success? ::
      && Takes(Remaining(rows, state), n, RowsRead(read(state, n).value.0), read(state, n).value.1)
      && read(state, n).value.1.spec == state.spec
  }

  lemma PagesOfPages(rows: Page)
    ensures Pages(rows, PagesOf(rows))
  {
    forall state: RunState, n: nat | 0 < n && !state.dumpDone && PagesOf(rows)(state, n).Success?
      ensures Takes(Remaining(rows, state), n,
                    RowsRead(PagesOf(rows)(state, n).value.0), PagesOf(rows)(state, n).value.1)
      ensures PagesOf(rows)(state, n).value.1.spec == state.spec
    {
      DoneWhenShort(rows, state, n);
    }
  }

  /** A reader that leaves exactly what it does not read. */
  ghost predicate Lossless(rows: Page, read: Reader, spec: TableSpec) {
    forall state: RunState, n: nat | 0 < n && !state.dumpDone && state.spec == spec ::
      && read(state, n).Success?
      && read(state, n).value.1.spec == spec
      && RowsRead(read(state, n).value.0) + Remaining(rows, read(state, n).value.1) == Remaining(rows, state)
  }

  lemma PagesOfAreLossless(rows: Page, spec: TableSpec)
    requires Sorted(rows) && DistinctLeads(rows) && Readable(spec)
    ensures Lossless(rows, PagesOf(rows), spec)
  {
    forall state: RunState, n: nat | 0 < n && !state.dumpDone && state.spec == spec
      ensures PagesOf(rows)(state, n).Success?
      ensures PagesOf(rows)(state, n).value.1.spec == spec
      ensures RowsRead(PagesOf(rows)(state, n).value.0) + Remaining(rows, PagesOf(rows)(state, n).value.1)
              == Remaining(rows, state)
    {
      DistinctPageIsRead(rows, state, n);
      DoneWhenShort(rows, state, n);
      PageLeavesRest(rows, state, n, RowsRead(PagesOf(rows)(state, n).value.0), PagesOf(rows)(state, n).value.1);
    }
  }

  lemma PageLeavesRest(rows: Page, state: RunState, n: nat, chunk: Page, next: RunState)
    requires Sorted(rows) && DistinctLeads(rows) && 0 < n && !state.dumpDone
    requires Takes(Remaining(rows, state), n, chunk, next)
    ensures chunk + Remaining(rows, next) == Remaining(rows, state)
  {
    if !next.dumpDone {
      FullPageLeavesRest(rows, state.chunkKey, n);
    }
  }

  lemma {:induction false} WalkDeliversAll(rows: Page, read: Reader, state: RunState, sizes: seq<nat>)
    requires Lossless(rows, read, state.spec) && Positive(sizes)
    ensures Walk(read, state, sizes).Success?
    ensures Walk(read, state, sizes).value.0 + Remaining(rows, Walk(read, state, sizes).value.1)
            == Remaining(rows, state)
    decreases |sizes|
  {
    if sizes != [] && !state.dumpDone {
      WalkDeliversAll(rows, read, read(state, sizes[0]).value.1, sizes[1..]);
    }
  }

  lemma {:induction false} WalkIsBounded(rows: Page, read: Reader, state: RunState, sizes: seq<nat>)
    requires Sorted(rows) && Pages(rows, read) && Positive(sizes) && Walk(read, state, sizes).Success?
    ensures |Walk(read, state, sizes).value.0| <= |Remaining(rows, state)|
    ensures |sizes| > |Remaining(rows, state)| ==> Walk(read, state, sizes).value.1.dumpDone
    decreases |sizes|
  {
    if sizes != [] && !state.dumpDone {
      var n := sizes[0];
      var (chunk, next) := read(state, n).value;
      WalkIsBounded(rows, read, next, sizes[1..]);
      TakesShrink(rows, state, n, RowsRead(chunk), next);
    }
  }

  lemma TakesShrink(rows: Page, state: RunState, n: nat, chunk: Page, next: RunState)
    requires Sorted(rows) && 0 < n && !state.dumpDone
    requires Takes(Remaining(rows, state), n, chunk, next)
    ensures |chunk| + |Remaining(rows, next)| <= |Remaining(rows, state)|
    ensures !next.dumpDone ==> |chunk| > 0
  {
    if !next.dumpDone {
      FullPageLeavesSuffix(rows, state.chunkKey, n);
    }
  }

  /** A walk that delivered everything that was left had unique leading keys to walk by. */
  lemma {:induction false} CompleteWalkHadUniqueLeads(rows: Page, read: Reader, state: RunState, sizes: seq<nat>)
    requires Sorted(rows) && Pages(rows, read) && Positive(sizes) && Walk(read, state, sizes).Success?
    requires Walk(read, state, sizes).value.0 == Remaining(rows, state)
    requires Walk(read, state, sizes).value.1.dumpDone
    ensures DistinctLeads(Remaining(rows, state))
    decreases |sizes|
  {
    if sizes != [] && !state.dumpDone {
      var (chunk, next) := read(state, sizes[0]).value;
      if next.dumpDone {
        assert RowsRead(chunk) == Remaining(rows, state);
      } else {
        var rest := Walk(read, next, sizes[1..]).value.0;
        WalkIsBounded(rows, read, next, sizes[1..]);
        CompleteStep(rows, state, sizes[0], next, rest);
        CompleteWalkHadUniqueLeads(rows, read, next, sizes[1..]);
      }
    }
  }

  lemma CompleteStep(rows: Page, state: RunState, n: nat, next: RunState, rest: Page)
    requires Sorted(rows) && !state.dumpDone && !next.dumpDone && 0 < n <= |Remaining(rows, state)|
    requires DistinctLeads(Remaining(rows, state)[..n])
    requires next.chunkKey == Some(Lead(Remaining(rows, state)[n - 1].key) + 1)
    requires Remaining(rows, state) == Remaining(rows, state)[..n] + rest
    requires |rest| <= |Remaining(rows, next)|
    ensures rest == Remaining(rows, next)
    ensures DistinctLeads(rest) ==> DistinctLeads(Remaining(rows, state))
  {
    var left := Remaining(rows, state);
    FullPageLeavesSuffix(rows, state.chunkKey, n);
    SuffixIsRest(left, n, Remaining(rows, next), rest);
    if DistinctLeads(rest) {
      PageThenRestIsDistinct(rows, state.chunkKey, n, left, rest);
    }
  }

  lemma SuffixIsRest(left: Page, n: nat, after: Page, rest: Page)
    requires n <= |left| && left == left[..n] + rest
    requires |rest| <= |after| <= |left| - n && after == left[|left| - |after|..]
    ensures after == rest == left[n..]
  {
  }

  lemma PageThenRestIsDistinct(rows: Page, start: Option<int>, n: nat, left: Page, after: Page)
    requires Sorted(rows) && left == Within(rows, start, None)
    requires 0 < n <= |left| && after == left[n..]
    requires DistinctLeads(left[..n]) && DistinctLeads(after)
    requires forall row | row in after :: Lead(left[n - 1].key) < Lead(row.key)
    ensures DistinctLeads(left)
  {
    WithinIsSorted(rows, start, None);
    forall i, j | 0 <= i < j < |left|
      ensures Lead(left[i].key) != Lead(left[j].key)
    {
      if j < n {
        assert left[i] == left[..n][i] && left[j] == left[..n][j];
      } else if n <= i {
        assert left[i] == after[i - n] && left[j] == after[j - n];
      } else {
        SortedLeads(left, i, n - 1);
        assert left[j] == after[j - n] && after[j - n] in after;
      }
    }
  }

  /**
   Paging a quiescent table, at any page sizes, delivers the key-sorted table with each row once if
   and only if no two rows share a leading key. The guard inside a page does not see a leading key
   repeated across a page boundary: such a walk ends without an error and without those rows.
   */
  lemma PagingIsExactIffLeadsAreUnique(rows: Page, state: RunState, sizes: seq<nat>)
    requires Sorted(rows) && Readable(state.spec) && Positive(sizes) && |rows| < |sizes|
    requires state.chunkKey.None? && !state.dumpDone
    ensures (Walk(PagesOf(rows), state, sizes).Success?
             && Walk(PagesOf(rows), state, sizes).value.0 == rows
             && Walk(PagesOf(rows), state, sizes).value.1.dumpDone)
            <==> DistinctLeads(rows)
  {
    WithinEverything(rows);
    PagesOfPages(rows);
    var read := PagesOf(rows);
    if DistinctLeads(rows) {
      PagesOfAreLossless(rows, state.spec);
      WalkDeliversAll(rows, read, state, sizes);
      WalkIsBounded(rows, read, state, sizes);
      var (all, last) := Walk(read, state, sizes).value;
      assert all + [] == all;
    } else if Walk(read, state, sizes).Success? {
      var (all, last) := Walk(read, state, sizes).value;
      if all == rows && last.dumpDone {
        CompleteWalkHadUniqueLeads(rows, read, state, sizes);
      }
    }
  }

  lemma {:induction false} WithinEverything(rows: Page)
    ensures Within(rows, None, None) == rows
  {
    if |rows| != 0 {
      WithinEverything(rows[..|rows| - 1]);
    }
  }

  /** Keys (1, 1) and (1, 2), one row a page: the second row is never read and nothing is raised. */
  lemma RepeatedLeadAcrossPagesIsDropped(state: RunState, a: Image, b: Image)
    requires Readable(state.spec) && state.chunkKey.None? && !state.dumpDone
    ensures
      var rows := [TableRow([1, 1], a), TableRow([1, 2], b)];
      && Sorted(rows)
      && Walk(PagesOf(rows), state, [1, 1]).Success?
      && Walk(PagesOf(rows), state, [1, 1]).value.0 == [TableRow([1, 1], a)]
      && Walk(PagesOf(rows), state, [1, 1]).value.1.dumpDone
  {
    var first, second: TableRow<Image> := TableRow([1, 1], a), TableRow([1, 2], b);
    var rows := [first, second];
    assert rows[..1] == [first] && [first][..0] == [];
    var next := state.(chunkKey := Some(2));
    assert ReadPage(rows, None, 1) == [first] by {
      WithinEverything(rows);
    }
    assert PagesOf(rows)(state, 1) == Success((Some([first]), next));
    LastPageIsEmpty(rows, next);
    assert [1, 1][1..] == [1];
    assert [first] + [] == [first];
  }

  lemma LastPageIsEmpty(rows: Page, state: RunState)
    requires Readable(state.spec) && state.chunkKey == Some(2) && !state.dumpDone
    requires forall row | row in rows :: Lead(row.key) == 1
    ensures Walk(PagesOf(rows), state, [1]) == Success(([], state.(dumpDone := true)))
  {
    NothingWithin(rows, Some(2));
    var nothing: Page, last := [], state.(dumpDone := true);
    assert ReadPage(rows, state.chunkKey, 1) == nothing;
    assert PagesOf(rows)(state, 1) == Success((None, last));
    assert Walk(PagesOf(rows), last, [1][1..]) == Success((nothing, last));
    assert nothing + nothing == nothing;
  }

  lemma {:induction false} NothingWithin(rows: Page, start: Option<int>)
    requires forall row | row in rows :: !InRange(row.key, start, None)
    ensures Within(rows, start, None) == []
  {
    if |rows| != 0 {
      assert rows[|rows| - 1] in rows;
      NothingWithin(rows[..|rows| - 1], start);
    }
  }
}
