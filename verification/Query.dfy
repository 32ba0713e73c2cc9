/**
 The keyset query builder, _build_read_table_query in connector.py, and what its queries mean.

 Names are opaque, so a query is kept as its clauses in text order rather than as text; its values
 are bound to its placeholders by position, first to first.
 */
module Query {
  import opened Outcomes
  import opened Catalog
  import opened Rows
  import Order

  datatype Pagination = Fetch | Top

  datatype Projection = Plain(name: string) | NullAs(name: string)

  /** "[column] >= ?" and "[column] < ?" */
  datatype Comparison = AtLeast(column: string) | Below(column: string)

  datatype Clause =
    | Select(top: bool, columns: seq<Projection>)  // SELECT or SELECT TOP (?)
    | From(schema: string, table: string)
    | Where(comparisons: seq<Comparison>)
    | OrderBy(keys: seq<string>)
    | OffsetFetch                                  // OFFSET 0 ROWS FETCH NEXT ? ROWS ONLY

  datatype Query = Query(clauses: seq<Clause>, params: seq<int>)

  /** A computed column is projected as NULL rather than read. */
  function Project(column: ColumnSpec): Projection {
    if column.IsComputed() then NullAs(column.name) else Plain(column.name)
  }

  function ProjectAll(columns: seq<ColumnSpec>): (r: seq<Projection>)
    ensures |r| == |columns| && forall i | 0 <= i < |r| :: r[i] == Project(columns[i])
  {
    seq(|columns|, i requires 0 <= i < |columns| => Project(columns[i]))
  }

  /** The request a query is built for */
  predicate ValidRequest(spec: TableSpec, start: Option<int>, end: Option<int>, limit: int) {
    && spec.pkColumns != [] && spec.BusinessColumns() != []
    && 0 <= limit
    && (start.Some? && end.Some? ==> start.value < end.value)
  }

  // ---- what a server makes of a query ----

  /** A query with every value in its place */
  datatype Plan = Plan(
    columns: seq<Projection>,
    from: (string, string),
    filters: seq<(Comparison, int)>,
    order: seq<string>,
    cap: Option<int>)

  const BLANK := Plan([], ("", ""), [], [], None)

  /** Where a clause may stand: T-SQL wants them in this order and each at most once. */
  function Rank(c: Clause): nat {
    match c
    case Select(_, _) => 0
    case From(_, _) => 1
    case Where(_) => 2
    case OrderBy(_) => 3
    case OffsetFetch => 4
  }

  /**
   Reads clauses in text order, giving each placeholder the next value. Nothing comes of clauses out
   of order, an empty WHERE, FETCH NEXT 0, or a count of values that is not the count of placeholders.
   */
  function Bind(clauses: seq<Clause>, params: seq<int>, rank: nat, plan: Plan): Option<Plan> {
    if clauses == [] then (if params == [] then Some(plan) else None)
    else if Rank(clauses[0]) < rank then None
    else
      var next := Rank(clauses[0]) + 1;
      match clauses[0]
      case Select(top, columns) =>
        if top && params == [] then None
        else if top then
          Bind(clauses[1..], params[1..], next, plan.(columns := columns, cap := Some(params[0])))
        else Bind(clauses[1..], params, next, plan.(columns := columns))
      case From(schema, table) =>
        Bind(clauses[1..], params, next, plan.(from := (schema, table)))
      case Where(comparisons) =>
        if comparisons == [] || |params| < |comparisons| then None
        else
          Bind(clauses[1..], params[|comparisons|..], next, plan.(filters := Filled(comparisons, params)))
      case OrderBy(keys) =>
        Bind(clauses[1..], params, next, plan.(order := keys))
      case OffsetFetch =>
        if params == [] || params[0] <= 0 || plan.cap.Some? then None
        else Bind(clauses[1..], params[1..], next, plan.(cap := Some(params[0])))
  }

  function Filled(comparisons: seq<Comparison>, params: seq<int>): seq<(Comparison, int)>
    requires |comparisons| <= |params|
  {
    if comparisons == [] then [] else [(comparisons[0], params[0])] + Filled(comparisons[1..], params[1..])
  }

  /** What was asked for, whichever way the cap is written */
  function Requested(spec: TableSpec, start: Option<int>, end: Option<int>, limit: nat): Plan
    requires spec.pkColumns != []
  {
    var lower := if start.Some? then [(AtLeast(spec.pkColumns[0]), start.value)] else [];
    var upper := if end.Some? then [(Below(spec.pkColumns[0]), end.value)] else [];
    Plan(ProjectAll(spec.capturedColumns), (spec.sourceSchema, spec.sourceTable), lower + upper,
         spec.pkColumns, if limit > 0 then Some(limit) else None)
  }

  /**
   Builds the query and its parameters together. Both pagination styles bind, value by value, to the
   plan that was asked for; a request that makes no sense raises instead.
   */
  method BuildReadTableQuery(
    spec: TableSpec, pagination: Pagination, start: Option<int>, end: Option<int>, limit: int)
    returns (r: Result<Query>)
    ensures r.Success? <==> ValidRequest(spec, start, end, limit)
    ensures r.Success? ==>
      Bind(r.value.clauses, r.value.params, 0, BLANK) == Some(Requested(spec, start, end, limit))
    ensures spec.pkColumns == [] ==> r == Failure(NoPrimaryKey)
    ensures spec.pkColumns != [] && spec.BusinessColumns() == [] ==> r == Failure(NoBusinessColumns)
    ensures spec.pkColumns != [] && spec.BusinessColumns() != [] && limit < 0 ==> r == Failure(NegativeLimit)
    ensures (spec.pkColumns != [] && spec.BusinessColumns() != [] && 0 <= limit
             && start.Some? && end.Some? && start.value >= end.value) ==> r == Failure(InvertedBounds)
  {
    if spec.pkColumns == [] {
      return Failure(NoPrimaryKey);
    }
    if spec.BusinessColumns() == [] {
      return Failure(NoBusinessColumns);
    }
    if limit < 0 {
      return Failure(NegativeLimit);
    }
    if start.Some? && end.Some? && start.value >= end.value {
      return Failure(InvertedBounds);
    }

    var leading := spec.pkColumns[0];
    var columns := ProjectAll(spec.capturedColumns);
    var clauses := [Select(limit > 0 && pagination.Top?, columns), From(spec.sourceSchema, spec.sourceTable)];
    var params: seq<int> := [];
    if limit > 0 && pagination.Top? {
      params := params + [limit];
    }

    var comparisons: seq<Comparison> := [];
    if start.Some? {
      comparisons := comparisons + [AtLeast(leading)];
      params := params + [start.value];
    }
    if end.Some? {
      comparisons := comparisons + [Below(leading)];
      params := params + [end.value];
    }
    if comparisons != [] {
      clauses := clauses + [Where(comparisons)];
    }
    clauses := clauses + [OrderBy(spec.pkColumns)];
    if limit > 0 && pagination.Fetch? {
      clauses := clauses + [OffsetFetch];
      params := params + [limit];
    }

    BuiltQueryBinds(spec, pagination, start, end, limit, comparisons, clauses, params);
    return Success(Query(clauses, params));
  }

  /** Clauses and values as the builder leaves them bind to the request. */
  lemma BuiltQueryBinds(
    spec: TableSpec, pagination: Pagination, start: Option<int>, end: Option<int>, limit: nat,
    comparisons: seq<Comparison>, clauses: seq<Clause>, params: seq<int>)
    requires spec.pkColumns != []
    requires comparisons ==
      (if start.Some? then [AtLeast(spec.pkColumns[0])] else [])
      + (if end.Some? then [Below(spec.pkColumns[0])] else [])
    requires clauses ==
      [Select(limit > 0 && pagination.Top?, ProjectAll(spec.capturedColumns)),
       From(spec.sourceSchema, spec.sourceTable)]
      + (if comparisons != [] then [Where(comparisons)] else [])
      + [OrderBy(spec.pkColumns)]
      + (if limit > 0 && pagination.Fetch? then [OffsetFetch] else [])
    requires params ==
      (if limit > 0 && pagination.Top? then [limit] else [])
      + (if start.Some? then [start.value] else []) + (if end.Some? then [end.value] else [])
      + (if limit > 0 && pagination.Fetch? then [limit] else [])
    ensures Bind(clauses, params, 0, BLANK) == Some(Requested(spec, start, end, limit))
  {
    var plan := Requested(spec, start, end, limit);
    var capped := limit > 0 && pagination.Top?;
    var bounds := (if start.Some? then [start.value] else []) + (if end.Some? then [end.value] else []);
    var tail := if limit > 0 && pagination.Fetch? then [limit] else [];
    var ending := [OrderBy(spec.pkColumns)] + (if limit > 0 && pagination.Fetch? then [OffsetFetch] else []);
    var middle := (if comparisons != [] then [Where(comparisons)] else []) + ending;
    var sourced := Plan(plan.columns, plan.from, [], [], if capped then Some(limit) else None);
    EndingBinds(spec.pkColumns, pagination, limit, if comparisons != [] then 3 else 2,
                sourced.(filters := plan.filters), ending, tail);
    FilledBounds(spec, start, end, limit, tail);
    MiddleBinds(comparisons, ending, bounds, tail, sourced, plan.filters, Some(plan));
    HeadBinds(capped, plan.columns, plan.from, middle, bounds + tail, limit, Some(plan));
    Regroup([Select(capped, plan.columns), From(plan.from.0, plan.from.1)],
            if comparisons != [] then [Where(comparisons)] else [], [OrderBy(spec.pkColumns)],
            if limit > 0 && pagination.Fetch? then [OffsetFetch] else []);
    Regroup(if capped then [limit] else [], if start.Some? then [start.value] else [],
            if end.Some? then [end.value] else [], tail);
  }

  lemma Regroup<T>(a: seq<T>, b: seq<T>, c: seq<T>, d: seq<T>)
    ensures a + b + c + d == a + (b + (c + d)) == a + ((b + c) + d)
  {
  }

  lemma HeadBinds(
    capped: bool, columns: seq<Projection>, from: (string, string), middle: seq<Clause>, rest: seq<int>,
    limit: nat, bound: Option<Plan>)
    requires Bind(middle, rest, 2, Plan(columns, from, [], [], if capped then Some(limit) else None)) == bound
    ensures Bind([Select(capped, columns), From(from.0, from.1)] + middle,
                 (if capped then [limit] else []) + rest, 0, BLANK) == bound
  {
    var clauses := [Select(capped, columns), From(from.0, from.1)] + middle;
    var params := (if capped then [limit] else []) + rest;
    assert clauses[1..] == [From(from.0, from.1)] + middle && clauses[1..][1..] == middle;
    assert (if capped then params[1..] else params) == rest;
  }

  lemma MiddleBinds(
    comparisons: seq<Comparison>, ending: seq<Clause>, bounds: seq<int>, tail: seq<int>, plan: Plan,
    filters: seq<(Comparison, int)>, bound: Option<Plan>)
    requires |comparisons| == |bounds| && plan.filters == []
    requires Filled(comparisons, bounds + tail) == filters
    requires Bind(ending, tail, if comparisons != [] then 3 else 2, plan.(filters := filters)) == bound
    ensures Bind((if comparisons != [] then [Where(comparisons)] else []) + ending, bounds + tail, 2, plan) == bound
  {
    if comparisons == [] {
      assert [] + ending == ending && bounds + tail == tail;
    } else {
      assert ([Where(comparisons)] + ending)[1..] == ending && (bounds + tail)[|comparisons|..] == tail;
    }
  }

  lemma EndingBinds(
    keys: seq<string>, pagination: Pagination, limit: nat, rank: nat, plan: Plan, ending: seq<Clause>, tail: seq<int>)
    requires rank <= 3
    requires plan.cap == if limit > 0 && pagination.Top? then Some(limit) else None
    requires ending == [OrderBy(keys)] + (if limit > 0 && pagination.Fetch? then [OffsetFetch] else [])
    requires tail == if limit > 0 && pagination.Fetch? then [limit] else []
    ensures Bind(ending, tail, rank, plan)
         == Some(plan.(order := keys, cap := if limit > 0 then Some(limit) else None))
  {
    var ordered := plan.(order := keys);
    if limit > 0 && pagination.Fetch? {
      assert ending[1..] == [OffsetFetch] && [OffsetFetch][1..] == [] && tail[1..] == [];
      assert Bind([], [], 5, ordered.(cap := Some(limit))) == Some(ordered.(cap := Some(limit)));
      assert Bind([OffsetFetch], tail, 4, ordered) == Some(ordered.(cap := Some(limit)));
    } else {
      assert ending[1..] == [];
      assert Bind([], [], 4, ordered) == Some(ordered);
    }
  }

  lemma FilledBounds(spec: TableSpec, start: Option<int>, end: Option<int>, limit: nat, tail: seq<int>)
    requires spec.pkColumns != []
    ensures
      var comparisons :=
        (if start.Some? then [AtLeast(spec.pkColumns[0])] else [])
        + (if end.Some? then [Below(spec.pkColumns[0])] else []);
      var bounds := (if start.Some? then [start.value] else []) + (if end.Some? then [end.value] else []);
      |comparisons| == |bounds| && Filled(comparisons, bounds + tail) == Requested(spec, start, end, limit).filters
  {
    var lower, upper := AtLeast(spec.pkColumns[0]), Below(spec.pkColumns[0]);
    if start.Some? && end.Some? {
      assert ([start.value, end.value] + tail)[1..] == [end.value] + tail;
      assert [lower, upper][1..] == [upper] && [upper][1..] == [];
      assert Filled([upper], [end.value] + tail) == [(upper, end.value)];
      assert Filled([lower, upper], [start.value, end.value] + tail) == [(lower, start.value), (upper, end.value)];
    } else if start.Some? {
      assert [lower][1..] == [];
      assert Filled([lower], [start.value] + tail) == [(lower, start.value)];
    } else if end.Some? {
      assert [upper][1..] == [];
      assert Filled([upper], [end.value] + tail) == [(upper, end.value)];
    }
  }

  // ---- what a plan answers ----

  /** A stored row: its value under every column, keys and the rest. */
  type Record = map<string, int>

  /** A record's value under a column; the columns a plan names are the table's own. */
  function At(r: Record, column: string): int {
    if column in r then r[column] else 0
  }

  function KeyOf(r: Record, order: seq<string>): (key: seq<int>)
    ensures |key| == |order|
  {
    seq(|order|, i requires 0 <= i < |order| => At(r, order[i]))
  }

  predicate Satisfies(r: Record, filters: seq<(Comparison, int)>) {
    forall f | f in filters :: if f.0.AtLeast? then f.1 <= At(r, f.0.column) else At(r, f.0.column) < f.1
  }

  /** A computed column reads back null, and so it does in the log. */
  function Cells(r: Record, columns: seq<Projection>): seq<Option<int>> {
    seq(|columns|, i requires 0 <= i < |columns| =>
      if columns[i].Plain? then Some(At(r, columns[i].name)) else None)
  }

  /** The matching rows, each once, in the order asked for; ties fall as the server likes. */
  ghost predicate Orders(plan: Plan, table: set<Record>, listing: seq<Record>) {
    && (forall r :: r in listing <==> r in table && Satisfies(r, plan.filters))
    && (forall i, j | 0 <= i < j < |listing| ::
          listing[i] != listing[j] && !Order.Less(KeyOf(listing[j], plan.order), KeyOf(listing[i], plan.order)))
  }

  function Presented(listing: seq<Record>, columns: seq<Projection>): seq<seq<Option<int>>> {
    seq(|listing|, i requires 0 <= i < |listing| => Cells(listing[i], columns))
  }

  function CapOf(plan: Plan): nat {
    if plan.cap.Some? && plan.cap.value > 0 then plan.cap.value else 0
  }

  /** A result the server may give for a plan. */
  ghost predicate Answers(plan: Plan, table: set<Record>, result: seq<seq<Option<int>>>) {
    exists listing ::
      Orders(plan, table, listing) && result == Presented(Capped(listing, CapOf(plan)), plan.columns)
  }

  /** The table in order of its whole primary key, each row under its key. */
  ghost predicate KeySorted(rows: seq<TableRow<Record>>, table: set<Record>, pk: seq<string>) {
    && pk != []
    && Sorted(rows)
    && (forall row | row in rows :: row.image in table && row.key == KeyOf(row.image, pk))
    && (forall r | r in table :: exists row | row in rows :: row.image == r)
  }

  function Records(rows: seq<TableRow<Record>>): (r: seq<Record>)
    ensures |r| == |rows| && forall i | 0 <= i < |r| :: r[i] == rows[i].image
  {
    seq(|rows|, i requires 0 <= i < |rows| => rows[i].image)
  }

  /** Records in strict order of a key */
  predicate Ascending(listing: seq<Record>, order: seq<string>) {
    forall i, j | 0 <= i < j < |listing| :: Order.Less(KeyOf(listing[i], order), KeyOf(listing[j], order))
  }

  /** Two strictly ascending listings of the same rows are the same listing. */
  lemma {:induction false} ListingIsUnique(a: seq<Record>, b: seq<Record>, order: seq<string>)
    requires forall r :: r in a <==> r in b
    requires Ascending(a, order) && Ascending(b, order)
    ensures a == b
  {
    if |a| != 0 && |b| != 0 {
      SameHead(a, b, order);
      forall r
        ensures r in a[1..] <==> r in b[1..]
      {
        TailHasTheRest(a, r, order);
        TailHasTheRest(b, r, order);
      }
      ListingIsUnique(a[1..], b[1..], order);
      assert a == [a[0]] + a[1..] && b == [b[0]] + b[1..];
    } else {
      EmptyTogether(a, b);
    }
  }

  lemma EmptyTogether(a: seq<Record>, b: seq<Record>)
    requires forall r :: r in a <==> r in b
    ensures |a| == 0 <==> |b| == 0
  {
    if |a| != 0 {
      assert a[0] in b;
    }
    if |b| != 0 {
      assert b[0] in a;
    }
  }

  lemma SameHead(a: seq<Record>, b: seq<Record>, order: seq<string>)
    requires a != [] && b != [] && forall r :: r in a <==> r in b
    requires Ascending(a, order) && Ascending(b, order)
    ensures a[0] == b[0]
  {
    assert a[0] in b && b[0] in a;
    var i :| 0 <= i < |a| && a[i] == b[0];
    var j :| 0 <= j < |b| && b[j] == a[0];
    Order.LessIsTotal(KeyOf(a[0], order), KeyOf(b[0], order));
  }

  lemma TailHasTheRest(a: seq<Record>, r: Record, order: seq<string>)
    requires a != [] && Ascending(a, order)
    ensures r in a[1..] <==> r in a && r != a[0]
  {
    assert a == [a[0]] + a[1..];
    if r in a[1..] {
      var i :| 0 <= i < |a[1..]| && a[1..][i] == r;
      Order.LessIsTotal(KeyOf(a[0], order), KeyOf(a[i + 1], order));
    }
  }

  /** The filters of a request say its leading key is in range. */
  lemma FiltersMeanRange(spec: TableSpec, start: Option<int>, end: Option<int>, limit: nat, r: Record)
    requires spec.pkColumns != []
    ensures Satisfies(r, Requested(spec, start, end, limit).filters)
            <==> InRange(KeyOf(r, spec.pkColumns), start, end)
  {
    var filters := Requested(spec, start, end, limit).filters;
    var lead := At(r, spec.pkColumns[0]);
    assert KeyOf(r, spec.pkColumns)[0] == lead;
    assert start.Some? ==> filters[0] == (AtLeast(spec.pkColumns[0]), start.value) && filters[0] in filters;
    assert end.Some? ==> filters[|filters| - 1] == (Below(spec.pkColumns[0]), end.value)
                         && filters[|filters| - 1] in filters;
  }

  /** The rows of a table in a range of its leading key, listed in order of its whole key. */
  lemma RangeIsListed(
    spec: TableSpec, start: Option<int>, end: Option<int>, limit: nat, table: set<Record>, rows: seq<TableRow<Record>>)
    requires spec.pkColumns != [] && KeySorted(rows, table, spec.pkColumns)
    ensures
      var listing := Records(Within(rows, start, end));
      Ascending(listing, spec.pkColumns) && Orders(Requested(spec, start, end, limit), table, listing)
  {
    var plan := Requested(spec, start, end, limit);
    var listing := Records(Within(rows, start, end));
    RangeAscends(rows, start, end, table, spec.pkColumns);
    AscendingOrders(listing, spec.pkColumns);
    forall r
      ensures r in listing <==> r in table && Satisfies(r, plan.filters)
    {
      RangeLists(rows, start, end, table, spec.pkColumns, r);
      FiltersMeanRange(spec, start, end, limit, r);
    }
  }

  lemma RangeAscends(
    rows: seq<TableRow<Record>>, start: Option<int>, end: Option<int>, table: set<Record>, pk: seq<string>)
    requires KeySorted(rows, table, pk)
    ensures Ascending(Records(Within(rows, start, end)), pk)
  {
    var within := Within(rows, start, end);
    WithinMembers(rows, start, end);
    WithinIsSorted(rows, start, end);
    forall i | 0 <= i < |within|
      ensures within[i].key == KeyOf(within[i].image, pk)
    {
      assert within[i] in within;
    }
  }

  lemma RangeLists(
    rows: seq<TableRow<Record>>, start: Option<int>, end: Option<int>, table: set<Record>, pk: seq<string>, r: Record)
    requires KeySorted(rows, table, pk)
    ensures r in Records(Within(rows, start, end)) <==> r in table && InRange(KeyOf(r, pk), start, end)
  {
    var within := Within(rows, start, end);
    WithinMembers(rows, start, end);
    if r in Records(within) {
      var i :| 0 <= i < |within| && Records(within)[i] == r;
      assert within[i] in within;
    }
    if r in table && InRange(KeyOf(r, pk), start, end) {
      var row :| row in rows && row.image == r;
      var i :| 0 <= i < |within| && within[i] == row;
      assert Records(within)[i] == r;
    }
  }

  lemma AscendingOrders(listing: seq<Record>, order: seq<string>)
    requires Ascending(listing, order)
    ensures forall i, j | 0 <= i < j < |listing| ::
      listing[i] != listing[j] && !Order.Less(KeyOf(listing[j], order), KeyOf(listing[i], order))
  {
    forall i, j | 0 <= i < j < |listing|
      ensures listing[i] != listing[j] && !Order.Less(KeyOf(listing[j], order), KeyOf(listing[i], order))
    {
      Order.LessIsTotal(KeyOf(listing[i], order), KeyOf(listing[j], order));
    }
  }

  /** On a table whose whole key is unique, the order asked for leaves the server no choice. */
  lemma OrdersAscending(plan: Plan, table: set<Record>, rows: seq<TableRow<Record>>, listing: seq<Record>)
    requires KeySorted(rows, table, plan.order)
    requires Orders(plan, table, listing)
    ensures Ascending(listing, plan.order)
  {
    forall i, j | 0 <= i < j < |listing|
      ensures Order.Less(KeyOf(listing[i], plan.order), KeyOf(listing[j], plan.order))
    {
      assert listing[i] in listing && listing[j] in listing;
      KeysAreUnique(rows, table, plan.order, listing[i], listing[j]);
      Order.LessIsTotal(KeyOf(listing[i], plan.order), KeyOf(listing[j], plan.order));
    }
  }

  lemma KeysAreUnique(rows: seq<TableRow<Record>>, table: set<Record>, pk: seq<string>, a: Record, b: Record)
    requires KeySorted(rows, table, pk) && a in table && b in table && a != b
    ensures KeyOf(a, pk) != KeyOf(b, pk)
  {
    var x :| x in rows && x.image == a;
    var y :| y in rows && y.image == b;
    var i :| 0 <= i < |rows| && rows[i] == x;
    var j :| 0 <= j < |rows| && rows[j] == y;
    Order.LessIsTotal(x.key, y.key);
  }

  /**
   What every built query means, whichever style its cap is written in and whatever bounds it has: on
   a table in order of its whole key, the one answer is the first limit rows (all of them for 0) whose
   leading key is in [start, end), projected with computed columns null.
   */
  lemma RequestHasOneAnswer(
    spec: TableSpec, start: Option<int>, end: Option<int>, limit: nat,
    table: set<Record>, rows: seq<TableRow<Record>>, result: seq<seq<Option<int>>>)
    requires spec.pkColumns != [] && KeySorted(rows, table, spec.pkColumns)
    ensures Answers(Requested(spec, start, end, limit), table, result) <==>
            result == Presented(Records(Capped(Within(rows, start, end), limit)), ProjectAll(spec.capturedColumns))
  {
    var plan := Requested(spec, start, end, limit);
    var listing := Records(Within(rows, start, end));
    RangeIsListed(spec, start, end, limit, table, rows);
    assert Capped(listing, limit) == Records(Capped(Within(rows, start, end), limit));
    if Answers(plan, table, result) {
      var other :| Orders(plan, table, other) && result == Presented(Capped(other, CapOf(plan)), plan.columns);
      OrdersAscending(plan, table, rows, other);
      ListingIsUnique(listing, other, spec.pkColumns);
    }
  }

  /** Cell by cell: a computed column reads back null, every other one what the row stores under its name. */
  lemma OnlyComputedColumnsReadNull(
    spec: TableSpec, start: Option<int>, end: Option<int>, limit: nat,
    table: set<Record>, rows: seq<TableRow<Record>>, result: seq<seq<Option<int>>>, i: nat, j: nat)
    requires spec.pkColumns != [] && KeySorted(rows, table, spec.pkColumns)
    requires Answers(Requested(spec, start, end, limit), table, result)
    requires i < |result| && j < |spec.capturedColumns|
    ensures |result[i]| == |spec.capturedColumns|
    ensures i < |Capped(Within(rows, start, end), limit)|
    ensures
      var stored := Capped(Within(rows, start, end), limit)[i].image;
      result[i][j] ==
      if spec.capturedColumns[j].IsComputed() then None else Some(At(stored, spec.capturedColumns[j].name))
  {
    RequestHasOneAnswer(spec, start, end, limit, table, rows, result);
  }

  /** Uncapped reads split at any bound concatenate to the unsplit read, composite keys included. */
  lemma UncappedReadsSplit(
    spec: TableSpec, start: Option<int>, middle: int, end: Option<int>,
    table: set<Record>, rows: seq<TableRow<Record>>, low: seq<seq<Option<int>>>, high: seq<seq<Option<int>>>)
    requires spec.pkColumns != [] && KeySorted(rows, table, spec.pkColumns)
    requires start.Some? ==> start.value <= middle
    requires end.Some? ==> middle <= end.value
    requires Answers(Requested(spec, start, Some(middle), 0), table, low)
    requires Answers(Requested(spec, Some(middle), end, 0), table, high)
    ensures Answers(Requested(spec, start, end, 0), table, low + high)
  {
    RequestHasOneAnswer(spec, start, Some(middle), 0, table, rows, low);
    RequestHasOneAnswer(spec, Some(middle), end, 0, table, rows, high);
    RequestHasOneAnswer(spec, start, end, 0, table, rows, low + high);
    SplitPresentation(rows, start, middle, end, ProjectAll(spec.capturedColumns));
  }

  lemma SplitPresentation(
    rows: seq<TableRow<Record>>, start: Option<int>, middle: int, end: Option<int>, columns: seq<Projection>)
    requires Sorted(rows)
    requires start.Some? ==> start.value <= middle
    requires end.Some? ==> middle <= end.value
    ensures Presented(Records(Capped(Within(rows, start, end), 0)), columns)
         == Presented(Records(Capped(Within(rows, start, Some(middle)), 0)), columns)
          + Presented(Records(Capped(Within(rows, Some(middle), end), 0)), columns)
  {
    WithinSplits(rows, start, middle, end);
  }
}
