/** What the values of a SQL Server type are, and that the Arrow type it is read as holds just them. */
module Types {
  import opened Outcomes
  import opened Catalog
  import opened Schema

  // ---- whole numbers ----

  /** The values of so many bytes: a sign and the rest, or no sign */
  function Span(bytes: nat, signed: bool): (int, int)
    requires bytes <= 8
  {
    var values := Values(bytes);
    if signed then (-(values / 2), values / 2 - 1) else (0, values - 1)
  }

  function Values(bytes: nat): nat {
    if bytes == 0 then 1 else 256 * Values(bytes - 1)
  }

  /** The values a column of the named type may store, for the types that store whole numbers */
  function Stores(name: string): Option<(int, int)> {
    if name == "bigint" then Some((-9223372036854775808, 9223372036854775807))
    else if name == "int" then Some((-2147483648, 2147483647))
    else if name == "smallint" then Some((-32768, 32767))
    else if name == "tinyint" then Some((0, 255))
    else if name == "bit" then Some((0, 1))
    else None
  }

  /** The values an Arrow type can carry, by its width and sign */
  function Carries(arrow: ArrowType): Option<(int, int)> {
    match arrow
    case Int64 => Some(Span(8, true))
    case Int32 => Some(Span(4, true))
    case Int16 => Some(Span(2, true))
    case UInt8 => Some(Span(1, false))
    case Bool => Some((0, 1))
    case _ => None
  }

  lemma SpansAreTheRanges()
    ensures Span(1, false) == (0, 255)
    ensures Span(2, true) == (-32768, 32767)
    ensures Span(4, true) == (-2147483648, 2147483647)
    ensures Span(8, true) == (-9223372036854775808, 9223372036854775807)
  {
    assert Values(1) == 256 && Values(2) == 65536 && Values(4) == 4294967296;
    assert Values(8) == 256 * 256 * 256 * 256 * Values(4);
  }

  /**
   A whole-number column is read as the Arrow type that carries exactly the values it stores, none cut
   and none to spare, and no other column is read as one of those types.
   */
  lemma WholeNumbersFitExactly(column: ColumnSpec)
    ensures Stores(Lower(column.typeName)).Some? ==>
      && ArrowTypeOf(column).Success?
      && Carries(ArrowTypeOf(column).value) == Stores(Lower(column.typeName))
    ensures ArrowTypeOf(column).Success? && Carries(ArrowTypeOf(column).value).Some? ==>
            Stores(Lower(column.typeName)).Some?
  {
    SpansAreTheRanges();
    var name := Lower(column.typeName);
    if name in FIXED && Carries(FIXED[name]).Some? {
      assert name in {"bigint", "int", "smallint", "tinyint", "bit"};
    }
  }

  // ---- everything else ----

  const DECIMAL_NAMES := {"decimal", "numeric", "money", "smallmoney"}
  const INSTANT_NAMES := {"datetime", "smalldatetime", "datetime2", "datetimeoffset"}
  const TEXT_NAMES := {
    "char", "varchar", "nchar", "nvarchar", "text", "ntext", "xml", "sysname", "uniqueidentifier"}
  const BYTES_NAMES := {"binary", "varbinary", "image", "timestamp", "rowversion"}

  predicate ReadsAs(column: ColumnSpec, arrow: ArrowType) {
    ArrowTypeOf(column) == Success(arrow)
  }

  /** A decimal column, money included, keeps its own precision and scale; nothing else is a decimal. */
  lemma DecimalsKeepTheirDigits(column: ColumnSpec)
    ensures ReadsAs(column, Decimal128(column.precision, column.scale)) <==> Lower(column.typeName) in DECIMAL_NAMES
    ensures ArrowTypeOf(column).Success? && ArrowTypeOf(column).value.Decimal128? ==>
            Lower(column.typeName) in DECIMAL_NAMES
  {
    var name := Lower(column.typeName);
    assert name in FIXED ==> !FIXED[name].Decimal128?;
    assert name in DECIMAL_NAMES ==> name !in FIXED;
  }

  /** Decimal digits of a second a unit tells apart */
  function Digits(unit: TimeUnit): nat {
    if unit.Micro? then 6 else 9
  }

  function Least(a: int, b: int): int {
    if a < b then a else b
  }

  /** No unit keeps more of so many digits, and no coarser one keeps as many. */
  predicate Fits(unit: TimeUnit, scale: int) {
    forall other: TimeUnit ::
      && Least(Digits(other), scale) <= Least(Digits(unit), scale)
      && (Least(Digits(other), scale) == Least(Digits(unit), scale) ==> Digits(unit) <= Digits(other))
  }

  /**
   Instants and times of day are read in the coarsest unit that keeps what can be kept of their column's digits;
   an instant is in UTC exactly when it is a datetimeoffset.
   */
  lemma TimesKeepTheirDigits(column: ColumnSpec)
    ensures Lower(column.typeName) in INSTANT_NAMES <==>
            ArrowTypeOf(column).Success? && ArrowTypeOf(column).value.Timestamp?
    ensures Lower(column.typeName) == "time" <==>
            ArrowTypeOf(column).Success? && ArrowTypeOf(column).value.Time64?
    ensures ArrowTypeOf(column).Success? && ArrowTypeOf(column).value.Timestamp? ==>
      && Fits(ArrowTypeOf(column).value.unit, column.scale)
      && (ArrowTypeOf(column).value.utc <==> Lower(column.typeName) == "datetimeoffset")
    ensures ArrowTypeOf(column).Success? && ArrowTypeOf(column).value.Time64? ==>
            Fits(ArrowTypeOf(column).value.unit, column.scale)
  {
    var name := Lower(column.typeName);
    UnitFits(column.scale);
    assert name in FIXED ==> !FIXED[name].Timestamp? && !FIXED[name].Time64?;
    assert name in INSTANT_NAMES + {"time"} ==> name !in FIXED && name !in DECIMALS;
  }

  lemma UnitFits(scale: int)
    ensures Fits(UnitFor(scale), scale)
  {
    forall other: TimeUnit
      ensures Least(Digits(other), scale) <= Least(Digits(UnitFor(scale)), scale)
      ensures Least(Digits(other), scale) == Least(Digits(UnitFor(scale)), scale) ==>
              Digits(UnitFor(scale)) <= Digits(other)
    {
      assert other == Micro || other == Nano;
    }
  }

  /** Text reads as text, bytes as bytes, a date as a date and each float at its own width; nothing else does. */
  lemma FamiliesReadAsThemselves(column: ColumnSpec)
    ensures ReadsAs(column, LargeString) <==> Lower(column.typeName) in TEXT_NAMES
    ensures ReadsAs(column, LargeBinary) <==> Lower(column.typeName) in BYTES_NAMES
    ensures ReadsAs(column, Date32) <==> Lower(column.typeName) == "date"
    ensures ReadsAs(column, Float64) <==> Lower(column.typeName) == "float"
    ensures ReadsAs(column, Float32) <==> Lower(column.typeName) == "real"
  {
    var name := Lower(column.typeName);
    assert name in FIXED && FIXED[name] == LargeString <==> name in TEXT_NAMES;
    assert name in FIXED && FIXED[name] == LargeBinary <==> name in BYTES_NAMES;
  }

  /** The frame's own five columns come first, typed as the log's, and then the table's in captured order. */
  lemma EventSchemaIsTheLogsThenTheTables(spec: TableSpec)
    requires EventSchema(spec).Success?
    ensures
      var fields := EventSchema(spec).value;
      && |fields| == 5 + |spec.capturedColumns|
      && fields[0] == Field("start_lsn", LargeBinary) && fields[1] == Field("seqval", LargeBinary)
      && fields[2] == Field("operation", Int32) && fields[3] == Field("update_mask", LargeBinary)
      && fields[4] == Field("commit_timestamp", Timestamp(Micro, false))
      && forall i | 0 <= i < |spec.capturedColumns| ::
           && fields[5 + i].name == spec.capturedColumns[i].name
           && ReadsAs(spec.capturedColumns[i], fields[5 + i].arrow)
  {
    FieldsTypeEachColumn(spec.capturedColumns);
  }

  lemma {:induction false} FieldsTypeEachColumn(columns: seq<ColumnSpec>)
    requires Fields(columns).Success?
    ensures |Fields(columns).value| == |columns|
    ensures forall i | 0 <= i < |columns| ::
      && Fields(columns).value[i].name == columns[i].name
      && ReadsAs(columns[i], Fields(columns).value[i].arrow)
  {
    if |columns| != 0 {
      FieldsTypeEachColumn(columns[1..]);
      assert forall i | 0 < i < |columns| :: columns[i] == columns[1..][i - 1];
    }
  }
}
