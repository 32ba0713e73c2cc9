/** What a table looks like to a read: src/pydblog/connectors/types.py. */
module Catalog {
  import opened Outcomes

  /** str.lower() over the ASCII names the source gives its types */
  function Lower(s: string): (r: string)
    ensures |r| == |s|
  {
    seq(|s|, i requires 0 <= i < |s| =>
      if 'A' <= s[i] <= 'Z' then (s[i] as int - 'A' as int + 'a' as int) as char else s[i])
  }

  datatype ColumnSpec = ColumnSpec(
    name: string, typeName: string, precision: int, scale: int, computedDefinition: Option<string>)
  {
    predicate IsComputed() {
      computedDefinition.Some?
    }

    function Signature(): (string, int, int) {
      (Lower(typeName), precision, scale)
    }

    /** ColumnSpec.__eq__: the computed flag and the case of the type name do not matter. */
    predicate Same(other: ColumnSpec) {
      name == other.name && Signature() == other.Signature()
    }
  }

  /** List equality under ColumnSpec.__eq__ */
  predicate SameColumns(a: seq<ColumnSpec>, b: seq<ColumnSpec>) {
    |a| == |b| && forall i | 0 <= i < |a| :: a[i].Same(b[i])
  }

  datatype TableSpec = TableSpec(
    sourceSchema: string,
    sourceTable: string,
    pkColumns: seq<string>,
    columns: seq<ColumnSpec>,
    capturedColumns: seq<ColumnSpec>,
    captureInstance: Option<string>)
  {
    function QualifiedName(): string {
      sourceSchema + "." + sourceTable
    }

    function BusinessColumns(): seq<string> {
      Names(capturedColumns)
    }
  }

  function Names(columns: seq<ColumnSpec>): (names: seq<string>)
    ensures |names| == |columns|
    ensures forall i | 0 <= i < |names| :: names[i] == columns[i].name
  {
    seq(|columns|, i requires 0 <= i < |columns| => columns[i].name)
  }

  /** dict built over (name, column) pairs: the last column of a name wins. */
  function Lookup(columns: seq<ColumnSpec>, name: string): (found: Option<ColumnSpec>)
    ensures found.Some? <==> name in Names(columns)
    ensures found.Some? ==> found.value in columns && found.value.name == name
  {
    if |columns| == 0 then None
    else
      var last := columns[|columns| - 1];
      assert columns == columns[..|columns| - 1] + [last];
      assert forall i | 0 <= i < |columns| - 1 :: Names(columns)[i] == Names(columns[..|columns| - 1])[i];
      assert Names(columns)[|columns| - 1] == last.name;
      if last.name == name then Some(last) else Lookup(columns[..|columns| - 1], name)
  }

  /** _mark_computed: copies each computed column's formula over from the source table. */
  function MarkComputed(captured: seq<ColumnSpec>, source: seq<ColumnSpec>): (marked: seq<ColumnSpec>)
    ensures |marked| == |captured|
  {
    seq(|captured|, i requires 0 <= i < |captured| =>
      var formula := Lookup(Computed(source), captured[i].name);
      if formula.Some? then captured[i].(computedDefinition := formula.value.computedDefinition) else captured[i])
  }

  /** Without a change table, a read projects the table's own columns. */
  function Marked(spec: TableSpec): TableSpec {
    spec.(capturedColumns :=
      if spec.captureInstance.None? then spec.columns else MarkComputed(spec.capturedColumns, spec.columns))
  }

  function Computed(columns: seq<ColumnSpec>): (r: seq<ColumnSpec>)
    ensures forall c :: c in r <==> c in columns && c.IsComputed()
  {
    if |columns| == 0 then []
    else (if columns[0].IsComputed() then [columns[0]] else []) + Computed(columns[1..])
  }

  /** The position a dict built over (name, column) pairs keeps for a name: the last. */
  lemma {:induction false} LookupFindsTheLast(columns: seq<ColumnSpec>, name: string) returns (i: nat)
    requires Lookup(columns, name).Some?
    ensures i < |columns| && Lookup(columns, name) == Some(columns[i])
    ensures columns[i].name == name && forall j | i < j < |columns| :: columns[j].name != name
    decreases |columns|
  {
    i := |columns| - 1;
    if columns[i].name != name {
      i := LookupFindsTheLast(columns[..i], name);
    }
  }

  /** A name's formula in the source, where no two columns share a name */
  lemma FormulaOf(source: seq<ColumnSpec>, c: ColumnSpec)
    requires c in source && c.IsComputed()
    requires forall d | d in source && d.name == c.name :: d == c
    ensures Lookup(Computed(source), c.name) == Some(c)
  {
    var j :| 0 <= j < |Computed(source)| && Computed(source)[j] == c;
    assert Names(Computed(source))[j] == c.name;
  }

  /**
   Marking changes nothing of a captured column but its formula, and so never what it compares equal to.
   Afterwards it is computed exactly when the source computes the column of that name or it already was,
   and then by the source's formula.
   */
  lemma MarkingIsInvisibleToEquality(captured: seq<ColumnSpec>, source: seq<ColumnSpec>)
    ensures SameColumns(MarkComputed(captured, source), captured)
    ensures forall i | 0 <= i < |captured| :: MarkedFrom(MarkComputed(captured, source)[i], captured[i], source)
  {
    forall i | 0 <= i < |captured|
      ensures MarkedFrom(MarkComputed(captured, source)[i], captured[i], source)
    {
      ColumnIsMarked(captured, source, i);
    }
  }

  /** What marking makes of a captured column, said of the source rather than of how it is looked up. */
  predicate MarkedFrom(marked: ColumnSpec, captured: ColumnSpec, source: seq<ColumnSpec>) {
    && marked == captured.(computedDefinition := marked.computedDefinition)
    && (marked.IsComputed() <==>
          captured.IsComputed() || exists c | c in source :: c.IsComputed() && c.name == captured.name)
    && (forall c | c in source && c.IsComputed() && c.name == captured.name ::
          (forall d | d in source && d.name == c.name :: d == c) ==>
          marked.computedDefinition == c.computedDefinition)
    && ((forall c | c in source && c.name == captured.name :: !c.IsComputed()) ==> marked == captured)
  }

  lemma ColumnIsMarked(captured: seq<ColumnSpec>, source: seq<ColumnSpec>, i: nat)
    requires i < |captured|
    ensures MarkedFrom(MarkComputed(captured, source)[i], captured[i], source)
  {
    forall c | c in source && c.IsComputed() && c.name == captured[i].name
      ensures captured[i].name in Names(Computed(source))
      ensures (forall d | d in source && d.name == c.name :: d == c) ==>
              Lookup(Computed(source), captured[i].name) == Some(c)
    {
      var j :| 0 <= j < |Computed(source)| && Computed(source)[j] == c;
      assert Names(Computed(source))[j] == captured[i].name;
      if forall d | d in source && d.name == c.name :: d == c {
        FormulaOf(source, c);
      }
    }
  }

  // ---- equality, said without its own folding ----

  /** One ASCII character, or its other case */
  predicate SameLetter(a: char, b: char) {
    || a == b
    || ('A' <= a <= 'Z' && b as int == a as int + 32)
    || ('A' <= b <= 'Z' && a as int == b as int + 32)
  }

  predicate SameWord(a: string, b: string) {
    |a| == |b| && forall i | 0 <= i < |a| :: SameLetter(a[i], b[i])
  }

  lemma LowerFoldsCaseOnly(a: string, b: string)
    ensures Lower(a) == Lower(b) <==> SameWord(a, b)
  {
    if SameWord(a, b) {
      assert forall i | 0 <= i < |a| :: SameLetter(a[i], b[i]) ==> Lower(a)[i] == Lower(b)[i];
    }
    if Lower(a) == Lower(b) {
      assert |a| == |Lower(a)| == |b|;
      forall i | 0 <= i < |a|
        ensures SameLetter(a[i], b[i])
      {
        assert Lower(a)[i] == Lower(b)[i];
      }
    }
  }

  /** Columns compare equal exactly when all but the case of their type name and their formula is the same. */
  lemma EqualityIgnoresCaseAndFormula(a: ColumnSpec, b: ColumnSpec)
    ensures a.Same(b) <==>
            a.name == b.name && a.precision == b.precision && a.scale == b.scale && SameWord(a.typeName, b.typeName)
  {
    LowerFoldsCaseOnly(a.typeName, b.typeName);
  }
}
