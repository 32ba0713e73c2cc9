/** The schema every frame is pinned to: src/pydblog/connectors/mssql/schema.py. */
module Schema {
  import opened Outcomes
  import opened Catalog

  datatype TimeUnit = Micro | Nano

  datatype ArrowType =
    | Int64 | Int32 | Int16 | UInt8 | Bool | Float64 | Float32 | Date32
    | LargeString | LargeBinary
    | Decimal128(precision: int, scale: int)
    | Timestamp(unit: TimeUnit, utc: bool)
    | Time64(unit: TimeUnit)
  {
    predicate IsInteger() {
      Int64? || Int32? || Int16? || UInt8?
    }
  }

  datatype Field = Field(name: string, arrow: ArrowType)

  const METADATA_FIELDS: seq<Field> := [
    Field("start_lsn", LargeBinary),
    Field("seqval", LargeBinary),
    Field("operation", Int32),
    Field("update_mask", LargeBinary),
    Field("commit_timestamp", Timestamp(Micro, false))]

  const METADATA_COLUMNS: seq<string> := FieldNames(METADATA_FIELDS)

  const FIXED: map<string, ArrowType> := map[
    "bigint" := Int64, "int" := Int32, "smallint" := Int16, "tinyint" := UInt8, "bit" := Bool,
    "float" := Float64, "real" := Float32, "date" := Date32,
    "char" := LargeString, "varchar" := LargeString, "nchar" := LargeString, "nvarchar" := LargeString,
    "text" := LargeString, "ntext" := LargeString, "xml" := LargeString, "sysname" := LargeString,
    "uniqueidentifier" := LargeString,
    "binary" := LargeBinary, "varbinary" := LargeBinary, "image" := LargeBinary,
    "timestamp" := LargeBinary, "rowversion" := LargeBinary]

  const DECIMALS := {"decimal", "numeric", "money", "smallmoney"}
  const TIMESTAMPS := {"datetime", "smalldatetime", "datetime2"}

  function UnitFor(scale: int): TimeUnit {
    if scale >= 7 then Nano else Micro
  }

  function ArrowTypeOf(column: ColumnSpec): Result<ArrowType> {
    var name := Lower(column.typeName);
    if name in FIXED then Success(FIXED[name])
    else if name in DECIMALS then Success(Decimal128(column.precision, column.scale))
    else if name in TIMESTAMPS then Success(Timestamp(UnitFor(column.scale), false))
    else if name == "datetimeoffset" then Success(Timestamp(UnitFor(column.scale), true))
    else if name == "time" then Success(Time64(UnitFor(column.scale)))
    else Failure(NoArrowType(column.name))
  }

  function FieldNames(fields: seq<Field>): (names: seq<string>)
    ensures |names| == |fields|
    ensures forall i | 0 <= i < |names| :: names[i] == fields[i].name
  {
    seq(|fields|, i requires 0 <= i < |fields| => fields[i].name)
  }

  /** The declared fields of a column list, or the first column with no Arrow equivalent. */
  function Fields(columns: seq<ColumnSpec>): Result<seq<Field>> {
    if |columns| == 0 then Success([])
    else
      var arrow :- ArrowTypeOf(columns[0]);
      var rest :- Fields(columns[1..]);
      Success([Field(columns[0].name, arrow)] + rest)
  }

  function RowSchema(spec: TableSpec): Result<seq<Field>> {
    Fields(spec.capturedColumns)
  }

  function EventSchema(spec: TableSpec): Result<seq<Field>> {
    var fields :- Fields(spec.capturedColumns);
    Success(METADATA_FIELDS + fields)
  }

  /** Bytes in a change table's update mask: one bit per captured column, and no byte without one */
  function MaskWidth(spec: TableSpec): (width: nat)
    ensures |spec.BusinessColumns()| <= 8 * width < |spec.BusinessColumns()| + 8
  {
    (|spec.BusinessColumns()| + 7) / 8
  }

  /** The types a table can be paged by: whole numbers, and not bit, which reads back as a bool. */
  lemma IntegersAreTheWholeNumberTypes(column: ColumnSpec)
    ensures ArrowTypeOf(column).Success? && ArrowTypeOf(column).value.IsInteger() <==>
            Lower(column.typeName) in {"bigint", "int", "smallint", "tinyint"}
  {
    var name := Lower(column.typeName);
    assert name in FIXED && FIXED[name].IsInteger() ==> name in {"bigint", "int", "smallint", "tinyint"};
  }

  // ---- validate ----

  function CheckCaptured(captured: seq<ColumnSpec>, source: seq<ColumnSpec>): Result<()> {
    if |captured| == 0 then Success(())
    else
      var origin := Lookup(source, captured[0].name);
      if origin.None? then Failure(CapturedColumnGone(captured[0].name))
      else
        var there :- ArrowTypeOf(origin.value);
        var here :- ArrowTypeOf(captured[0]);
        if there != here then Failure(CapturedColumnDrifted(captured[0].name))
        else CheckCaptured(captured[1..], source)
  }

  function CheckKeys(keys: seq<string>, captured: seq<ColumnSpec>): Result<()> {
    if |keys| == 0 then Success(())
    else if keys[0] !in Names(captured) then Failure(KeyNotCaptured(keys[0]))
    else if keys[0] in Names(Computed(captured)) then Failure(KeyComputed(keys[0]))
    else CheckKeys(keys[1..], captured)
  }

  function CheckClashes(names: seq<string>): Result<()> {
    if |names| == 0 then Success(())
    else if names[0] in METADATA_COLUMNS then Failure(MetadataNameClash(names[0]))
    else CheckClashes(names[1..])
  }

  function Validate(spec: TableSpec): Result<()> {
    var _ :- CheckCaptured(spec.capturedColumns, spec.columns);
    var _ :- CheckKeys(spec.pkColumns, spec.capturedColumns);
    var _ :- CheckClashes(spec.BusinessColumns());
    var _ :- Fields(spec.capturedColumns);
    Success(())
  }

  /** What validate() is for, without its order: both reads give every column one and the same type. */
  predicate ReadsAgree(captured: seq<ColumnSpec>, source: seq<ColumnSpec>) {
    forall i | 0 <= i < |captured| :: ColumnAgrees(captured[i], source)
  }

  predicate ColumnAgrees(column: ColumnSpec, source: seq<ColumnSpec>) {
    var origin := Lookup(source, column.name);
    && origin.Some?
    && ArrowTypeOf(column).Success?
    && ArrowTypeOf(origin.value) == ArrowTypeOf(column)
  }

  lemma {:induction false} CheckCapturedMeaning(captured: seq<ColumnSpec>, source: seq<ColumnSpec>)
    ensures CheckCaptured(captured, source).Success? <==> ReadsAgree(captured, source)
    ensures ReadsAgree(captured, source) ==> Fields(captured).Success?
  {
    if |captured| != 0 {
      CheckCapturedMeaning(captured[1..], source);
      ReadsAgreeUnfolds(captured, source);
    }
  }

  lemma ReadsAgreeUnfolds(captured: seq<ColumnSpec>, source: seq<ColumnSpec>)
    requires |captured| != 0
    ensures ReadsAgree(captured, source) <==>
            ColumnAgrees(captured[0], source) && ReadsAgree(captured[1..], source)
  {
    assert forall i | 1 <= i < |captured| :: captured[i] == captured[1..][i - 1];
    assert forall i | 0 <= i < |captured[1..]| :: captured[1..][i] == captured[i + 1];
  }

  lemma {:induction false} CheckKeysMeaning(keys: seq<string>, captured: seq<ColumnSpec>)
    ensures CheckKeys(keys, captured).Success? <==>
            forall k | k in keys :: k in Names(captured) && k !in Names(Computed(captured))
  {
    if |keys| != 0 {
      CheckKeysMeaning(keys[1..], captured);
      assert forall k :: k in keys <==> k == keys[0] || k in keys[1..];
    }
  }

  lemma {:induction false} CheckClashesMeaning(names: seq<string>)
    ensures CheckClashes(names).Success? <==> forall n | n in names :: n !in METADATA_COLUMNS
  {
    if |names| != 0 {
      CheckClashesMeaning(names[1..]);
      assert forall n :: n in names <==> n == names[0] || n in names[1..];
    }
  }

  /** Every key column is captured, and stored rather than computed. */
  predicate KeysAreStored(keys: seq<string>, captured: seq<ColumnSpec>) {
    forall k | k in keys :: k in Names(captured) && k !in Names(Computed(captured))
  }

  predicate NoMetadataName(names: seq<string>) {
    forall n | n in names :: n !in METADATA_COLUMNS
  }

  /** validate() accepts exactly the specs both read paths can produce one schema for. */
  lemma ValidateAcceptsExactlyTheReconcilable(spec: TableSpec)
    ensures Validate(spec).Success? <==>
      && ReadsAgree(spec.capturedColumns, spec.columns)
      && KeysAreStored(spec.pkColumns, spec.capturedColumns)
      && NoMetadataName(spec.BusinessColumns())
    ensures Validate(spec).Success? ==> EventSchema(spec).Success?
  {
    CheckCapturedMeaning(spec.capturedColumns, spec.columns);
    CheckKeysMeaning(spec.pkColumns, spec.capturedColumns);
    CheckClashesMeaning(spec.BusinessColumns());
  }

  // ---- what validate refuses, and for which column ----

  /** Why a captured column cannot be reconciled with the source */
  function Discord(column: ColumnSpec, source: seq<ColumnSpec>): Error {
    if column.name !in Names(source) then CapturedColumnGone(column.name)
    else if ArrowTypeOf(Lookup(source, column.name).value).Failure? || ArrowTypeOf(column).Failure?
    then NoArrowType(column.name)
    else CapturedColumnDrifted(column.name)
  }

  lemma {:induction false} FirstDiscordIsRaised(captured: seq<ColumnSpec>, source: seq<ColumnSpec>) returns (i: nat)
    requires CheckCaptured(captured, source).Failure?
    ensures i < |captured| && !ColumnAgrees(captured[i], source) && ReadsAgree(captured[..i], source)
    ensures CheckCaptured(captured, source) == Failure(Discord(captured[i], source))
    decreases |captured|
  {
    if !ColumnAgrees(captured[0], source) {
      i := 0;
    } else {
      i := FirstDiscordIsRaised(captured[1..], source);
      i := i + 1;
      assert forall j | 0 < j < i :: captured[..i][j] == captured[1..][..i - 1][j - 1];
    }
  }

  lemma {:induction false} FirstBadKeyIsRaised(keys: seq<string>, captured: seq<ColumnSpec>) returns (i: nat)
    requires CheckKeys(keys, captured).Failure?
    ensures i < |keys| && KeysAreStored(keys[..i], captured)
    ensures CheckKeys(keys, captured)
         == Failure(if keys[i] !in Names(captured) then KeyNotCaptured(keys[i]) else KeyComputed(keys[i]))
    ensures keys[i] !in Names(captured) || keys[i] in Names(Computed(captured))
    decreases |keys|
  {
    if keys[0] !in Names(captured) || keys[0] in Names(Computed(captured)) {
      i := 0;
    } else {
      i := FirstBadKeyIsRaised(keys[1..], captured);
      i := i + 1;
      assert keys[..i] == [keys[0]] + keys[1..][..i - 1];
    }
  }

  lemma {:induction false} FirstClashIsRaised(names: seq<string>) returns (i: nat)
    requires CheckClashes(names).Failure?
    ensures i < |names| && NoMetadataName(names[..i]) && names[i] in METADATA_COLUMNS
    ensures CheckClashes(names) == Failure(MetadataNameClash(names[i]))
    decreases |names|
  {
    if names[0] in METADATA_COLUMNS {
      i := 0;
    } else {
      i := FirstClashIsRaised(names[1..]);
      i := i + 1;
      assert names[..i] == [names[0]] + names[1..][..i - 1];
    }
  }

  /**
   What validate() raises names the first offender of the first rule that has one: a captured column
   that cannot be reconciled, then a key that is not captured or is computed, then a clashing name.
   */
  lemma ValidateNamesTheFirstOffender(spec: TableSpec) returns (i: nat)
    requires Validate(spec).Failure?
    ensures !ReadsAgree(spec.capturedColumns, spec.columns) ==>
      && i < |spec.capturedColumns| && ReadsAgree(spec.capturedColumns[..i], spec.columns)
      && Validate(spec) == Failure(Discord(spec.capturedColumns[i], spec.columns))
    ensures
      ReadsAgree(spec.capturedColumns, spec.columns) && !KeysAreStored(spec.pkColumns, spec.capturedColumns) ==>
      && i < |spec.pkColumns| && KeysAreStored(spec.pkColumns[..i], spec.capturedColumns)
      && Validate(spec) == Failure(
           if spec.pkColumns[i] !in spec.BusinessColumns() then KeyNotCaptured(spec.pkColumns[i])
           else KeyComputed(spec.pkColumns[i]))
    ensures
      ReadsAgree(spec.capturedColumns, spec.columns) && KeysAreStored(spec.pkColumns, spec.capturedColumns) ==>
      && i < |spec.BusinessColumns()| && NoMetadataName(spec.BusinessColumns()[..i])
      && Validate(spec) == Failure(MetadataNameClash(spec.BusinessColumns()[i]))
  {
    CheckCapturedMeaning(spec.capturedColumns, spec.columns);
    CheckKeysMeaning(spec.pkColumns, spec.capturedColumns);
    CheckClashesMeaning(spec.BusinessColumns());
    if !ReadsAgree(spec.capturedColumns, spec.columns) {
      i := FirstDiscordIsRaised(spec.capturedColumns, spec.columns);
    } else if !KeysAreStored(spec.pkColumns, spec.capturedColumns) {
      i := FirstBadKeyIsRaised(spec.pkColumns, spec.capturedColumns);
    } else {
      i := FirstClashIsRaised(spec.BusinessColumns());
    }
  }

  /** What Fields raises names the first column with no Arrow type. */
  lemma {:induction false} FirstUntypedIsRaised(columns: seq<ColumnSpec>) returns (i: nat)
    requires Fields(columns).Failure?
    ensures i < |columns| && ArrowTypeOf(columns[i]).Failure?
    ensures Fields(columns) == Failure(NoArrowType(columns[i].name))
    decreases |columns|
  {
    if ArrowTypeOf(columns[0]).Failure? {
      i := 0;
    } else {
      i := FirstUntypedIsRaised(columns[1..]);
      i := i + 1;
    }
  }

  /** Columns that compare equal read back alike, so equal column lists declare one schema. */
  lemma {:induction false} EqualColumnsDeclareOneSchema(a: seq<ColumnSpec>, b: seq<ColumnSpec>)
    requires SameColumns(a, b)
    ensures Fields(a) == Fields(b)
  {
    if |a| != 0 {
      assert a[0].Same(b[0]) && a[0].Signature() == b[0].Signature();
      EqualColumnsDeclareOneSchema(a[1..], b[1..]);
    }
  }

  predicate Distinct(names: seq<string>) {
    forall i, j | 0 <= i < j < |names| :: names[i] != names[j]
  }

  lemma {:induction false} FieldsKeepNames(columns: seq<ColumnSpec>)
    requires Fields(columns).Success?
    ensures FieldNames(Fields(columns).value) == Names(columns)
  {
    if |columns| != 0 {
      FieldsKeepNames(columns[1..]);
      var rest := Fields(columns[1..]).value;
      forall i | 0 <= i < |Fields(columns).value|
        ensures Fields(columns).value[i].name == columns[i].name
      {
        if i > 0 {
          assert FieldNames(rest)[i - 1] == Names(columns[1..])[i - 1];
        }
      }
    }
  }

  /** A validated spec declares every column of a frame once: no business name hides a metadata one. */
  lemma ValidatedSchemaHasDistinctNames(spec: TableSpec)
    requires Validate(spec).Success? && Distinct(spec.BusinessColumns())
    ensures EventSchema(spec).Success? && Distinct(FieldNames(EventSchema(spec).value))
  {
    ValidateAcceptsExactlyTheReconcilable(spec);
    FieldsKeepNames(spec.capturedColumns);
    var fields := Fields(spec.capturedColumns).value;
    assert FieldNames(METADATA_FIELDS + fields) == METADATA_COLUMNS + spec.BusinessColumns();
    MetadataNamesAreDistinct();
    DistinctConcat(METADATA_COLUMNS, spec.BusinessColumns());
  }

  lemma MetadataNamesAreDistinct()
    ensures Distinct(METADATA_COLUMNS)
  {
    assert METADATA_COLUMNS == ["start_lsn", "seqval", "operation", "update_mask", "commit_timestamp"];
    assert |"start_lsn"| == 9 && |"seqval"| == 6 && |"operation"| == 9 && |"update_mask"| == 11
           && |"commit_timestamp"| == 16;
    assert "start_lsn"[0] != "operation"[0];
  }

  lemma DistinctConcat(a: seq<string>, b: seq<string>)
    requires Distinct(a) && Distinct(b) && forall n | n in b :: n !in a
    ensures Distinct(a + b)
  {
    forall i, j | 0 <= i < j < |a + b|
      ensures (a + b)[i] != (a + b)[j]
    {
      if i < |a| <= j {
        assert (a + b)[j] in b;
      }
    }
  }

  // ---- conform ----

  datatype Column<T> = Column(name: string, arrow: ArrowType, cells: seq<T>)

  /** pyarrow's cast: partial, and not interpreted here */
  type Cast<!T> = (Column<T>, ArrowType) -> Option<seq<T>>

  function ColumnNames<T>(table: seq<Column<T>>): (names: seq<string>)
    ensures |names| == |table|
    ensures forall i | 0 <= i < |names| :: names[i] == table[i].name
  {
    seq(|table|, i requires 0 <= i < |table| => table[i].name)
  }

  function ColumnNamed<T>(table: seq<Column<T>>, name: string): (c: Column<T>)
    requires name in ColumnNames(table)
    ensures c in table && c.name == name
  {
    if table[0].name == name then table[0]
    else
      assert forall i | 0 < i < |table| :: ColumnNames(table)[i] == ColumnNames(table[1..])[i - 1];
      ColumnNamed(table[1..], name)
  }

  function CastAll<T>(table: seq<Column<T>>, schema: seq<Field>, cast: Cast<T>): Result<seq<Column<T>>>
    requires forall f | f in schema :: f.name in ColumnNames(table)
  {
    if |schema| == 0 then Success([])
    else
      var field := schema[0];
      var cells := cast(ColumnNamed(table, field.name), field.arrow);
      if cells.None? then Failure(CastFailed(field.name))
      else
        var rest :- CastAll(table, schema[1..], cast);
        Success([Column(field.name, field.arrow, cells.value)] + rest)
  }

  function Conform<T>(table: seq<Column<T>>, schema: seq<Field>, cast: Cast<T>): Result<seq<Column<T>>> {
    if !Distinct(ColumnNames(table)) then Failure(ColumnRepeats)
    else if
      || (exists f | f in schema :: f.name !in ColumnNames(table))
      || (exists n | n in ColumnNames(table) :: n !in FieldNames(schema))
    then Failure(ColumnsDoNotMatch)
    else CastAll(table, schema, cast)
  }

  /** One column per field, under its name and type, holding that column's own cells cast. */
  predicate CarriesByName<T(==)>(out: seq<Column<T>>, table: seq<Column<T>>, schema: seq<Field>, cast: Cast<T>) {
    && |out| == |schema|
    && forall i | 0 <= i < |out| ::
         && out[i].name == schema[i].name && out[i].arrow == schema[i].arrow
         && exists c | c in table :: c.name == out[i].name && cast(c, schema[i].arrow) == Some(out[i].cells)
  }

  lemma {:induction false} CastAllMeaning<T>(table: seq<Column<T>>, schema: seq<Field>, cast: Cast<T>)
    requires forall f | f in schema :: f.name in ColumnNames(table)
    ensures CastAll(table, schema, cast).Success? <==>
            forall f | f in schema :: cast(ColumnNamed(table, f.name), f.arrow).Some?
    ensures CastAll(table, schema, cast).Success? ==>
            CarriesByName(CastAll(table, schema, cast).value, table, schema, cast)
  {
    if |schema| != 0 {
      CastAllMeaning(table, schema[1..], cast);
      assert forall f :: f in schema <==> f == schema[0] || f in schema[1..];
      if CastAll(table, schema, cast).Success? {
        CarriesOneMore(CastAll(table, schema[1..], cast).value, table, schema, cast,
                       cast(ColumnNamed(table, schema[0].name), schema[0].arrow).value);
      }
    }
  }

  lemma CarriesOneMore<T>(
    rest: seq<Column<T>>, table: seq<Column<T>>, schema: seq<Field>, cast: Cast<T>, cells: seq<T>)
    requires |schema| != 0 && CarriesByName(rest, table, schema[1..], cast)
    requires schema[0].name in ColumnNames(table)
    requires cast(ColumnNamed(table, schema[0].name), schema[0].arrow) == Some(cells)
    ensures CarriesByName([Column(schema[0].name, schema[0].arrow, cells)] + rest, table, schema, cast)
  {
    assert forall i | 0 < i < |schema| :: schema[i] == schema[1..][i - 1];
  }

  lemma UniqueByName<T>(table: seq<Column<T>>, a: Column<T>, b: Column<T>)
    requires Distinct(ColumnNames(table)) && a in table && b in table && a.name == b.name
    ensures a == b
  {
    var i :| 0 <= i < |table| && table[i] == a;
    var j :| 0 <= j < |table| && table[j] == b;
    assert ColumnNames(table)[i] == ColumnNames(table)[j];
  }

  /**
   conform() succeeds exactly on a result set with the declared columns, each once, all of which
   cast; and then the output has the declared order and types with every column's own data.
   */
  lemma ConformCarriesDataByName<T>(table: seq<Column<T>>, schema: seq<Field>, cast: Cast<T>)
    requires Distinct(FieldNames(schema))
    ensures Conform(table, schema, cast).Success? <==>
      && Distinct(ColumnNames(table))
      && (forall n :: n in ColumnNames(table) <==> n in FieldNames(schema))
      && (forall c, f | c in table && f in schema && c.name == f.name :: cast(c, f.arrow).Some?)
    ensures Conform(table, schema, cast).Success? ==>
      CarriesByName(Conform(table, schema, cast).value, table, schema, cast)
  {
    FieldNamesMembers(schema);
    if Distinct(ColumnNames(table)) && forall n :: n in ColumnNames(table) <==> n in FieldNames(schema) {
      CastAllMeaning(table, schema, cast);
      forall c, f | c in table && f in schema && c.name == f.name
        ensures c == ColumnNamed(table, f.name)
      {
        UniqueByName(table, c, ColumnNamed(table, f.name));
      }
    }
  }

  lemma FieldNamesMembers(schema: seq<Field>)
    ensures forall n :: n in FieldNames(schema) <==> exists f :: f in schema && f.name == n
  {
    forall f | f in schema
      ensures f.name in FieldNames(schema)
    {
      var i :| 0 <= i < |schema| && schema[i] == f;
      assert FieldNames(schema)[i] == f.name;
    }
  }

  /**
   What conform() raises: a repeated column first, then a missing or unexpected one, then the first column,
   in declared order, that does not cast.
   */
  lemma ConformRefusals<T>(table: seq<Column<T>>, schema: seq<Field>, cast: Cast<T>)
    requires Distinct(FieldNames(schema))
    ensures !Distinct(ColumnNames(table)) <==> Conform(table, schema, cast) == Failure(ColumnRepeats)
    ensures Distinct(ColumnNames(table)) && !(forall n :: n in ColumnNames(table) <==> n in FieldNames(schema)) <==>
            Conform(table, schema, cast) == Failure(ColumnsDoNotMatch)
    ensures Conform(table, schema, cast).Failure? && Conform(table, schema, cast).error.CastFailed? ==>
      exists i | 0 <= i < |schema| ::
        && Conform(table, schema, cast) == Failure(CastFailed(schema[i].name))
        && (exists c | c in table && c.name == schema[i].name :: cast(c, schema[i].arrow).None?)
        && forall j, c | 0 <= j < i && c in table && c.name == schema[j].name :: cast(c, schema[j].arrow).Some?
  {
    FieldNamesMembers(schema);
    if Distinct(ColumnNames(table)) && forall n :: n in ColumnNames(table) <==> n in FieldNames(schema) {
      if CastAll(table, schema, cast).Failure? {
        var i := FirstFailedCastIsRaised(table, schema, cast);
        forall j, c | 0 <= j < i && c in table && c.name == schema[j].name
          ensures cast(c, schema[j].arrow).Some?
        {
          UniqueByName(table, c, ColumnNamed(table, schema[j].name));
        }
      }
    }
  }

  lemma {:induction false} FirstFailedCastIsRaised<T>(table: seq<Column<T>>, schema: seq<Field>, cast: Cast<T>)
    returns (i: nat)
    requires forall f | f in schema :: f.name in ColumnNames(table)
    requires CastAll(table, schema, cast).Failure?
    ensures i < |schema| && CastAll(table, schema, cast) == Failure(CastFailed(schema[i].name))
    ensures cast(ColumnNamed(table, schema[i].name), schema[i].arrow).None?
    ensures forall j | 0 <= j < i :: cast(ColumnNamed(table, schema[j].name), schema[j].arrow).Some?
    decreases |schema|
  {
    if cast(ColumnNamed(table, schema[0].name), schema[0].arrow).None? {
      i := 0;
    } else {
      i := FirstFailedCastIsRaised(table, schema[1..], cast);
      i := i + 1;
      assert forall j | 0 < j < i :: schema[j] == schema[1..][j - 1];
    }
  }

  /** A length-keeping cast leaves the row count alone. */
  lemma ConformKeepsRows<T>(table: seq<Column<T>>, schema: seq<Field>, cast: Cast<T>, height: nat)
    requires Distinct(FieldNames(schema))
    requires forall c: Column<T>, t | cast(c, t).Some? :: |cast(c, t).value| == |c.cells|
    requires forall c | c in table :: |c.cells| == height
    requires Conform(table, schema, cast).Success?
    ensures forall c | c in Conform(table, schema, cast).value :: |c.cells| == height
  {
    ConformCarriesDataByName(table, schema, cast);
  }

  /** Conforming what already conforms changes nothing, when casting to its own type does not. */
  lemma ConformIsIdempotent<T>(table: seq<Column<T>>, schema: seq<Field>, cast: Cast<T>)
    requires Distinct(FieldNames(schema))
    requires forall c: Column<T> :: cast(c, c.arrow) == Some(c.cells)
    requires Conform(table, schema, cast).Success?
    ensures Conform(Conform(table, schema, cast).value, schema, cast) == Conform(table, schema, cast)
  {
    ConformCarriesDataByName(table, schema, cast);
    var out := Conform(table, schema, cast).value;
    assert ColumnNames(out) == FieldNames(schema);
    forall i | 0 <= i < |out|
      ensures schema[i].name in ColumnNames(out) && ColumnNamed(out, schema[i].name) == out[i]
    {
      assert ColumnNames(out)[i] == schema[i].name;
      UniqueByName(out, ColumnNamed(out, schema[i].name), out[i]);
    }
    CastAllIsIdentity(out, schema, cast, 0);
  }

  /** Each column is found under its field's name and casts to the cells it has. */
  predicate Unmoved<T(==)>(out: seq<Column<T>>, schema: seq<Field>, cast: Cast<T>) {
    && |out| == |schema|
    && (forall f | f in schema :: f.name in ColumnNames(out))
    && forall i | 0 <= i < |out| ::
         && out[i].name == schema[i].name && out[i].arrow == schema[i].arrow
         && cast(ColumnNamed(out, schema[i].name), schema[i].arrow) == Some(out[i].cells)
  }

  lemma {:induction false} CastAllIsIdentity<T>(out: seq<Column<T>>, schema: seq<Field>, cast: Cast<T>, from: nat)
    requires Unmoved(out, schema, cast) && from <= |out|
    ensures CastAll(out, schema[from..], cast) == Success(out[from..])
    decreases |out| - from
  {
    if from < |out| {
      CastAllIsIdentity(out, schema, cast, from + 1);
      assert schema[from..][1..] == schema[from + 1..];
      assert out[from..] == [Column(schema[from].name, schema[from].arrow, out[from].cells)] + out[from + 1..];
    }
  }
}
