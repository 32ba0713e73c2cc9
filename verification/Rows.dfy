/**
 The rows a frame carries and the replica a consumer folds them into: an insert, an update or a
 dump row puts its image, a delete removes the key.
 */
module Rows {
  import opened Outcomes
  import Order

  /** A whole primary key, leading column first. */
  type Key = k: seq<int> | 0 < |k| witness [0]

  function Lead(key: Key): int {
    key[0]
  }

  datatype Cell = Null | Number(n: int) | Text(s: string)
  type Image = seq<Cell>

  /** A row as the table read returns it. */
  datatype TableRow<T> = TableRow(key: Key, image: T)

  /** __$operation, with 0 marking a row that came off the table: connector.py:19-23. */
  datatype Op = Dump | Delete | Insert | Update

  /** A row in the event schema. */
  datatype Row = Row(
    lsn: nat, seqval: nat, op: Op, maskWidth: nat, commit: int, key: Key, image: Image)

  type Replica = map<Key, Image>

  function Get(m: Replica, key: Key): Option<Image> {
    if key in m then Some(m[key]) else None
  }

  /** What a row leaves under its key. */
  function Effect(row: Row): Option<Image> {
    if row.op.Delete? then None else Some(row.image)
  }

  function ApplyRow(m: Replica, row: Row): Replica {
    if row.op.Delete? then m - {row.key} else m[row.key := row.image]
  }

  /** Folds rows into a replica, first to last. */
  function Apply(m: Replica, rows: seq<Row>): Replica {
    if |rows| == 0 then m else ApplyRow(Apply(m, rows[..|rows| - 1]), rows[|rows| - 1])
  }

  predicate Mentions(rows: seq<Row>, key: Key) {
    exists r | r in rows :: r.key == key
  }

  lemma {:induction false} ApplyConcat(m: Replica, a: seq<Row>, b: seq<Row>)
    ensures Apply(m, a + b) == Apply(Apply(m, a), b)
  {
    if |b| == 0 {
      assert a + b == a;
    } else {
      ApplyConcat(m, a, b[..|b| - 1]);
      assert (a + b)[..|a + b| - 1] == a + b[..|b| - 1];
    }
  }

  lemma {:induction false} ApplyUntouched(m: Replica, rows: seq<Row>, key: Key)
    requires !Mentions(rows, key)
    ensures Get(Apply(m, rows), key) == Get(m, key)
  {
    if |rows| != 0 {
      var n := |rows| - 1;
      assert rows == rows[..n] + [rows[n]];
      assert rows[n] in rows;
      ApplyUntouched(m, rows[..n], key);
    }
  }

  /** Per key, a fold ends on the last row that mentions it. */
  lemma ApplyEndsOnLast(m: Replica, rows: seq<Row>, i: int)
    requires 0 <= i < |rows| && !Mentions(rows[i + 1..], rows[i].key)
    ensures Get(Apply(m, rows), rows[i].key) == Effect(rows[i])
  {
    assert rows == rows[..i + 1] + rows[i + 1..];
    ApplyConcat(m, rows[..i + 1], rows[i + 1..]);
    ApplyUntouched(Apply(m, rows[..i + 1]), rows[i + 1..], rows[i].key);
    assert rows[..i + 1][..i] == rows[..i];
  }

  /** Once a key is mentioned, what the replica held before does not matter. */
  lemma {:induction false} ApplyForgets(m: Replica, m': Replica, rows: seq<Row>, key: Key)
    requires Mentions(rows, key)
    ensures Get(Apply(m, rows), key) == Get(Apply(m', rows), key)
  {
    var n := |rows| - 1;
    assert rows == rows[..n] + [rows[n]];
    if rows[n].key != key {
      ApplyForgets(m, m', rows[..n], key);
    }
  }

  /** Folding rows that all put the same image under a key, or do not mention it, ends on that image. */
  lemma {:induction false} ApplySteady(m: Replica, rows: seq<Row>, key: Key, image: Image)
    requires forall r | r in rows && r.key == key :: Effect(r) == Some(image)
    ensures Get(Apply(m, rows), key) ==
            if Mentions(rows, key) then Some(image) else Get(m, key)
  {
    if |rows| != 0 {
      var n := |rows| - 1;
      assert rows == rows[..n] + [rows[n]];
      assert rows[n] in rows;
      ApplySteady(m, rows[..n], key, image);
    }
  }

  /** Rows with disjoint keys may be applied in either order. */
  lemma ApplyCommutes(m: Replica, a: seq<Row>, b: seq<Row>)
    requires forall r, s | r in a && s in b :: r.key != s.key
    ensures Apply(m, a + b) == Apply(m, b + a)
  {
    ApplyConcat(m, a, b);
    ApplyConcat(m, b, a);
    var left, right := Apply(m, a + b), Apply(m, b + a);
    forall key: Key
      ensures Get(left, key) == Get(right, key)
    {
      if Mentions(a, key) {
        ApplyUntouched(Apply(m, a), b, key);
        ApplyForgets(m, Apply(m, b), a, key);
      } else {
        ApplyUntouched(Apply(m, b), a, key);
        ApplyUntouched(m, a, key);
        if Mentions(b, key) {
          ApplyForgets(m, Apply(m, a), b, key);
        } else {
          ApplyUntouched(Apply(m, a), b, key);
          ApplyUntouched(m, b, key);
        }
      }
    }
    SameReplica(left, right);
  }

  lemma SameReplica(a: Replica, b: Replica)
    requires forall key: Key :: Get(a, key) == Get(b, key)
    ensures a == b
  {
    forall key: Key
      ensures key in a <==> key in b
      ensures key in a ==> a[key] == b[key]
    {
      assert Get(a, key) == Get(b, key);
    }
  }

  // ---- ranges of the table ----

  /** Rows in strict order of the whole primary key. */
  predicate Sorted<T>(rows: seq<TableRow<T>>) {
    forall i, j | 0 <= i < j < |rows| :: Order.Less(rows[i].key, rows[j].key)
  }

  predicate InRange(key: Key, start: Option<int>, end: Option<int>) {
    && (start.Some? ==> start.value <= Lead(key))
    && (end.Some? ==> Lead(key) < end.value)
  }

  /** The rows whose leading key is in [start, end), in the order they come. */
  function Within<T>(rows: seq<TableRow<T>>, start: Option<int>, end: Option<int>): seq<TableRow<T>> {
    if |rows| == 0 then []
    else
      var last := rows[|rows| - 1];
      Within(rows[..|rows| - 1], start, end) + (if InRange(last.key, start, end) then [last] else [])
  }

  lemma {:induction false} WithinMembers<T(!new)>(rows: seq<TableRow<T>>, start: Option<int>, end: Option<int>)
    ensures forall x :: x in Within(rows, start, end) <==> x in rows && InRange(x.key, start, end)
  {
    if |rows| != 0 {
      WithinMembers(rows[..|rows| - 1], start, end);
      assert rows == rows[..|rows| - 1] + [rows[|rows| - 1]];
    }
  }

  function Capped<T>(rows: seq<T>, limit: nat): seq<T> {
    if 0 < limit < |rows| then rows[..limit] else rows
  }

  lemma SortedAppend<T>(rows: seq<TableRow<T>>, last: TableRow<T>)
    requires Sorted(rows)
    requires forall x | x in rows :: Order.Less(x.key, last.key)
    ensures Sorted(rows + [last])
  {
    var all := rows + [last];
    forall i, j | 0 <= i < j < |all|
      ensures Order.Less(all[i].key, all[j].key)
    {
      assert all[i] in rows;
    }
  }

  lemma {:induction false} WithinIsSorted<T(!new)>(rows: seq<TableRow<T>>, start: Option<int>, end: Option<int>)
    requires Sorted(rows)
    ensures Sorted(Within(rows, start, end))
  {
    if |rows| != 0 {
      var n := |rows| - 1;
      WithinIsSorted(rows[..n], start, end);
      WithinIsBelow(rows[..n], start, end, rows[n]);
      SortedAppend(Within(rows[..n], start, end), rows[n]);
    }
  }

  lemma WithinIsBelow<T(!new)>(rows: seq<TableRow<T>>, start: Option<int>, end: Option<int>, last: TableRow<T>)
    requires forall x | x in rows :: Order.Less(x.key, last.key)
    ensures forall x | x in Within(rows, start, end) :: Order.Less(x.key, last.key)
  {
    WithinMembers(rows, start, end);
  }

  lemma LeadFollowsOrder(a: Key, b: Key)
    requires Order.Less(a, b)
    ensures Lead(a) <= Lead(b)
  {
  }

  /** On rows sorted by key, splitting a range at any bound and concatenating gives the range back. */
  lemma {:induction false} WithinSplits<T(!new)>(
    rows: seq<TableRow<T>>, start: Option<int>, middle: int, end: Option<int>)
    requires Sorted(rows)
    requires start.Some? ==> start.value <= middle
    requires end.Some? ==> middle <= end.value
    ensures Within(rows, start, Some(middle)) + Within(rows, Some(middle), end) == Within(rows, start, end)
  {
    if |rows| != 0 {
      var n := |rows| - 1;
      WithinSplits(rows[..n], start, middle, end);
      var low, high := Within(rows[..n], start, Some(middle)), Within(rows[..n], Some(middle), end);
      var extra := if InRange(rows[n].key, start, end) then [rows[n]] else [];
      assert Within(rows, start, end) == (low + high) + extra;
      if Lead(rows[n].key) < middle {
        NoneWithin(rows[..n], rows[n], middle, end);
        assert Within(rows, Some(middle), end) == high == [];
        assert Within(rows, start, Some(middle)) == low + extra;
      } else {
        assert Within(rows, start, Some(middle)) == low;
        assert Within(rows, Some(middle), end) == high + extra;
      }
    }
  }

  lemma NoneWithin<T(!new)>(rows: seq<TableRow<T>>, last: TableRow<T>, middle: int, end: Option<int>)
    requires forall x | x in rows :: Order.Less(x.key, last.key)
    requires Lead(last.key) < middle
    ensures Within(rows, Some(middle), end) == []
  {
    WithinMembers(rows, Some(middle), end);
  }
}
