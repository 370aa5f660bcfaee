/** Rows of JSON cells to Arrow columns: `db_convert.rs`, `convert.rs`, and the two schema
    inferences of `metadata.rs` and `schema_gen.rs`. Date and timestamp parsing, the text of
    numbers and the rounding of integers to doubles are parameters. */
module ArrowPipeline {
  import opened Wrappers

  type jsonint = n: int | I64_MIN <= n <= U64_MAX

  /** A number as serde_json holds it: an integer of either 64-bit type, or a double. */
  datatype Number = Integer(n: jsonint) | Double(bits: u64)

  /** Arrays and objects are known by their serialised text. */
  datatype Json = Null | Boolean(b: bool) | Num(num: Number) | Str(s: string) | Array(text: string) | Object(text: string)

  type Row = map<string, Json>

  datatype TimeUnit = Microsecond | Nanosecond

  datatype DataType =
    | Utf8 | Int32 | Int64 | Float64 | Bool | Date32 | NullType
    | Timestamp(unit: TimeUnit, timezone: Option<string>)
    | Time64(timeUnit: TimeUnit)
    | Decimal128(precision: nat, scale: nat)

  datatype Field = Field(name: string, dataType: DataType, nullable: bool)

  type Schema = seq<Field>

  datatype Value =
    | StringValue(s: string)
    | IntValue(i: i64)
    | FloatValue(bits: u64)
    | BoolValue(b: bool)
    | TimestampValue(t: i64)
    | DateValue(d: i32)

  type Cell = Option<Value>

  datatype Unconvertible = Unconvertible

  /** chrono's parsers, the text of a number, and the double nearest to an integer. */
  datatype Formats = Formats(
    number: Number -> string,
    double: jsonint -> u64,
    timestamp: string -> Option<i64>,
    date: string -> Option<i32>)

  function AsI64(n: Number): Option<i64> {
    if n.Integer? && n.n <= I64_MAX then Some(n.n) else None
  }

  function AsI32(n: Number): Option<i32> {
    match AsI64(n)
    case Some(i) => if I32_MIN <= i <= I32_MAX then Some(i) else None
    case None => None
  }

  function AsF64(f: Formats, n: Number): u64 {
    match n
    case Integer(i) => f.double(i)
    case Double(bits) => bits
  }

  function Text(f: Formats, j: Json): string {
    match j
    case Str(s) => s
    case Num(n) => f.number(n)
    case Boolean(b) => if b then "true" else "false"
    case Array(text) => text
    case Object(text) => text
    case Null => "null"
  }

  /** `json_to_arrow_value`. */
  function JsonToArrow(f: Formats, j: Json, t: DataType): Result<Value, Unconvertible> {
    match t
    case Utf8 => Ok(StringValue(Text(f, j)))
    case Int32 =>
      if j.Num? && AsI32(j.num).Some? then Ok(IntValue(AsI32(j.num).value)) else Err(Unconvertible)
    case Int64 =>
      if j.Num? && AsI64(j.num).Some? then Ok(IntValue(AsI64(j.num).value)) else Err(Unconvertible)
    case Float64 => if j.Num? then Ok(FloatValue(AsF64(f, j.num))) else Err(Unconvertible)
    case Bool => if j.Boolean? then Ok(BoolValue(j.b)) else Err(Unconvertible)
    case Timestamp(Microsecond, _) =>
      var t := if j.Str? then f.timestamp(j.s) else if j.Num? then AsI64(j.num) else None;
      if t.Some? then Ok(TimestampValue(t.value)) else Err(Unconvertible)
    case Date32 =>
      var d := if j.Str? then f.date(j.s) else if j.Num? then AsI32(j.num) else None;
      if d.Some? then Ok(DateValue(d.value)) else Err(Unconvertible)
    case _ => Err(Unconvertible)
  }

  /** The cell of a row for a field: null and missing are the same. */
  predicate Absent(row: Row, field: Field) {
    field.name !in row || row[field.name].Null?
  }

  function CellOf(f: Formats, row: Row, field: Field): Result<Cell, Unconvertible> {
    if Absent(row, field) then Ok(None)
    else
      match JsonToArrow(f, row[field.name], field.dataType)
      case Ok(v) => Ok(Some(v))
      case Err(e) => Err(e)
  }

  ghost predicate RowsConvert(f: Formats, rows: seq<Row>, schema: Schema) {
    forall r, c :: 0 <= r < |rows| && 0 <= c < |schema| ==> CellOf(f, rows[r], schema[c]).Ok?
  }

  ghost predicate IsConverted(f: Formats, rows: seq<Row>, schema: Schema, out: seq<seq<Cell>>) {
    && |out| == |rows|
    && (forall r :: 0 <= r < |rows| ==> |out[r]| == |schema|)
    && (forall r, c :: 0 <= r < |rows| && 0 <= c < |schema| ==> CellOf(f, rows[r], schema[c]) == Ok(out[r][c]))
  }

  // ----- The conversion, by kind of JSON value -----

  /** The columns that take a value. */
  predicate Convertible(f: Formats, j: Json, t: DataType) {
    t.Utf8? ||
    match j
    case Boolean(_) => t.Bool?
    case Str(s) =>
      || (t.Date32? && f.date(s).Some?)
      || (t.Timestamp? && t.unit.Microsecond? && f.timestamp(s).Some?)
    case Num(Integer(n)) =>
      || t.Float64?
      || ((t.Int32? || t.Date32?) && I32_MIN <= n <= I32_MAX)
      || ((t.Int64? || (t.Timestamp? && t.unit.Microsecond?)) && n <= I64_MAX)
    case Num(Double(_)) => t.Float64?
    case _ => false
  }

  /** What a value becomes in a text column. */
  predicate IsTextOf(f: Formats, j: Json, text: string) {
    match j
    case Null => text == "null"
    case Boolean(b) => text == if b then "true" else "false"
    case Num(n) => text == f.number(n)
    case Str(s) => text == s
    case Array(json) => text == json
    case Object(json) => text == json
  }

  /** The converted value, of whatever column, that stands for a JSON value. */
  predicate StandsFor(f: Formats, j: Json, v: Value) {
    match v
    case StringValue(text) => IsTextOf(f, j, text)
    case BoolValue(b) => j == Boolean(b)
    case IntValue(i) => j == Num(Integer(i))
    case FloatValue(bits) => j == Num(Double(bits)) || (j.Num? && j.num.Integer? && bits == f.double(j.num.n))
    case TimestampValue(t) => j == Num(Integer(t)) || (j.Str? && f.timestamp(j.s) == Some(t))
    case DateValue(d) => j == Num(Integer(d)) || (j.Str? && f.date(j.s) == Some(d))
  }

  /** Columns hold values of their own type. */
  predicate IsOfType(v: Value, t: DataType) {
    match t
    case Utf8 => v.StringValue?
    case Int32 => v.IntValue?
    case Int64 => v.IntValue?
    case Float64 => v.FloatValue?
    case Bool => v.BoolValue?
    case Date32 => v.DateValue?
    case Timestamp(_, _) => v.TimestampValue?
    case _ => false
  }

  /** The conversion told by the kind of the value instead of the type of the column. */
  lemma ConversionByKind(f: Formats, j: Json, t: DataType)
    ensures JsonToArrow(f, j, t).Ok? <==> Convertible(f, j, t)
    ensures JsonToArrow(f, j, t).Ok? ==>
              IsOfType(JsonToArrow(f, j, t).value, t) && StandsFor(f, j, JsonToArrow(f, j, t).value)
  {
  }

  predicate CellConvertible(f: Formats, row: Row, field: Field) {
    field.name in row && row[field.name] != Null ==> Convertible(f, row[field.name], field.dataType)
  }

  /** A cell is null where the row has null or nothing, and stands for the row's value otherwise. */
  predicate CellStands(f: Formats, row: Row, field: Field, cell: Cell) {
    if field.name in row && row[field.name] != Null then
      cell.Some? && IsOfType(cell.value, field.dataType) && StandsFor(f, row[field.name], cell.value)
    else
      cell.None?
  }

  lemma CellByKind(f: Formats, row: Row, field: Field)
    ensures CellOf(f, row, field).Ok? <==> CellConvertible(f, row, field)
    ensures CellOf(f, row, field).Ok? ==> CellStands(f, row, field, CellOf(f, row, field).value)
  {
    if field.name in row {
      ConversionByKind(f, row[field.name], field.dataType);
    }
  }

  ghost predicate TableConvertible(f: Formats, rows: seq<Row>, schema: Schema) {
    forall r, c :: 0 <= r < |rows| && 0 <= c < |schema| ==> CellConvertible(f, rows[r], schema[c])
  }

  ghost predicate TableStands(f: Formats, rows: seq<Row>, schema: Schema, out: seq<seq<Cell>>) {
    && |out| == |rows|
    && (forall r :: 0 <= r < |rows| ==> |out[r]| == |schema|)
    && (forall r, c :: 0 <= r < |rows| && 0 <= c < |schema| ==> CellStands(f, rows[r], schema[c], out[r][c]))
  }

  lemma TableByKind(f: Formats, rows: seq<Row>, schema: Schema)
    ensures RowsConvert(f, rows, schema) <==> TableConvertible(f, rows, schema)
    ensures forall out :: IsConverted(f, rows, schema, out) ==> TableStands(f, rows, schema, out)
  {
    forall r, c | 0 <= r < |rows| && 0 <= c < |schema|
      ensures CellOf(f, rows[r], schema[c]).Ok? <==> CellConvertible(f, rows[r], schema[c])
      ensures CellOf(f, rows[r], schema[c]).Ok? ==>
                CellStands(f, rows[r], schema[c], CellOf(f, rows[r], schema[c]).value)
    {
      CellByKind(f, rows[r], schema[c]);
    }
  }

  /** `convert_db_rows_to_arrow`. */
  method ConvertDbRows(f: Formats, rows: seq<Row>, schema: Schema) returns (r: Result<seq<seq<Cell>>, Unconvertible>)
    ensures r.Ok? <==> RowsConvert(f, rows, schema)
    ensures r.Ok? ==> IsConverted(f, rows, schema, r.value)
    ensures r.Ok? <==> TableConvertible(f, rows, schema)
    ensures r.Ok? ==> TableStands(f, rows, schema, r.value)
  {
    TableByKind(f, rows, schema);
    var arrowRows := [];
    for i := 0 to |rows|
      invariant IsConverted(f, rows[..i], schema, arrowRows)
    {
      var arrowRow := [];
      for c := 0 to |schema|
        invariant |arrowRow| == c
        invariant forall d :: 0 <= d < c ==> CellOf(f, rows[i], schema[d]) == Ok(arrowRow[d])
      {
        var column := schema[c].name;
        var arrowValue := None;
        if column in rows[i] && !rows[i][column].Null? {
          match JsonToArrow(f, rows[i][column], schema[c].dataType) {
            case Ok(v) => arrowValue := Some(v);
            case Err(e) =>
              assert CellOf(f, rows[i], schema[c]).Err?;
              return Err(e);
          }
        }
        arrowRow := arrowRow + [arrowValue];
      }
      arrowRows := arrowRows + [arrowRow];
    }
    assert rows[..|rows|] == rows;
    r := Ok(arrowRows);
  }

  // ----- Columns -----

  datatype Batch = Batch(schema: Schema, columns: seq<seq<Cell>>, numRows: nat)

  /** `create_builder_for_type`. */
  predicate Buildable(t: DataType) {
    match t
    case Timestamp(unit, _) => unit.Nanosecond?
    case Time64(_) => false
    case Decimal128(_, _) => false
    case NullType => false
    case _ => true
  }

  /** `append_value`: nulls always, values of the column's own type. */
  predicate Accepts(t: DataType, cell: Cell) {
    match cell
    case None => Buildable(t)
    case Some(v) =>
      match t
      case Utf8 => v.StringValue?
      case Int32 => v.IntValue? && I32_MIN <= v.i <= I32_MAX
      case Int64 => v.IntValue?
      case Float64 => v.FloatValue?
      case Bool => v.BoolValue?
      case Date32 => v.DateValue?
      case Timestamp(unit, _) => unit.Nanosecond? && v.TimestampValue?
      case _ => false
  }

  /** What `convert_batch` and `RecordBatch::try_new` together ask of non-empty input. */
  ghost predicate BatchConverts(schema: Schema, rows: seq<seq<Cell>>) {
    && |schema| > 0
    && (forall c :: 0 <= c < |schema| ==> Buildable(schema[c].dataType))
    && (forall r :: 0 <= r < |rows| ==> RowFits(schema, rows[r]))
    && (forall r, c :: 0 <= r < |rows| && 0 <= c < |schema| && rows[r][c].None? ==> schema[c].nullable)
  }

  predicate RowFits(schema: Schema, row: seq<Cell>) {
    && |row| == |schema|
    && forall c :: 0 <= c < |schema| ==> Accepts(schema[c].dataType, row[c])
  }

  /** Column c holds the c-th cell of every row, in row order. */
  ghost predicate IsTransposed(schema: Schema, rows: seq<seq<Cell>>, columns: seq<seq<Cell>>) {
    && |columns| == |schema|
    && (forall c :: 0 <= c < |schema| ==> |columns[c]| == |rows|)
    && (forall r, c :: 0 <= r < |rows| && 0 <= c < |schema| && c < |rows[r]| ==> columns[c][r] == rows[r][c])
  }

  /** `append_value` on one builder. */
  method AppendValue(column: seq<Cell>, cell: Cell, t: DataType) returns (r: Result<seq<Cell>, Unconvertible>)
    ensures r == if Accepts(t, cell) then Ok(column + [cell]) else Err(Unconvertible)
  {
    if !Buildable(t) {
      return Err(Unconvertible);
    }
    if cell.None? {
      return Ok(column + [None]);
    }
    var v := cell.value;
    var matched :=
      match t
      case Utf8 => v.StringValue?
      case Int32 => v.IntValue? && I32_MIN <= v.i <= I32_MAX
      case Int64 => v.IntValue?
      case Float64 => v.FloatValue?
      case Bool => v.BoolValue?
      case Date32 => v.DateValue?
      case _ => v.TimestampValue?;
    if !matched {
      return Err(Unconvertible);
    }
    return Ok(column + [cell]);
  }

  /** The inner loop of `convert_batch`: one cell to every builder. */
  method AppendRow(schema: Schema, builders: seq<seq<Cell>>, row: seq<Cell>)
    returns (r: Result<seq<seq<Cell>>, Unconvertible>)
    requires |builders| == |schema| == |row|
    ensures r.Ok? <==> forall c :: 0 <= c < |row| ==> Accepts(schema[c].dataType, row[c])
    ensures r.Ok? ==> |r.value| == |row| && forall c :: 0 <= c < |row| ==> r.value[c] == builders[c] + [row[c]]
  {
    var columns := builders;
    for c := 0 to |row|
      invariant |columns| == |row|
      invariant forall d :: 0 <= d < c ==> Accepts(schema[d].dataType, row[d]) && columns[d] == builders[d] + [row[d]]
      invariant forall d :: c <= d < |row| ==> columns[d] == builders[d]
    {
      var column := AppendValue(columns[c], row[c], schema[c].dataType);
      if column.Err? {
        return Err(Unconvertible);
      }
      columns := columns[c := column.value];
    }
    r := Ok(columns);
  }

  /** `RecordBatch::try_new`: at least one column, and no null where none is allowed. */
  method TryNew(schema: Schema, columns: seq<seq<Cell>>, numRows: nat) returns (r: Result<Batch, Unconvertible>)
    requires |columns| == |schema|
    ensures r == if |schema| > 0 && forall c :: 0 <= c < |schema| && !schema[c].nullable ==> None !in columns[c]
                 then Ok(Batch(schema, columns, numRows)) else Err(Unconvertible)
  {
    if |schema| == 0 {
      return Err(Unconvertible);
    }
    for c := 0 to |schema|
      invariant forall d :: 0 <= d < c && !schema[d].nullable ==> None !in columns[d]
    {
      if !schema[c].nullable && None in columns[c] {
        return Err(Unconvertible);
      }
    }
    r := Ok(Batch(schema, columns, numRows));
  }

  /** `RowToArrowConverter::convert_batch`: builders are filled row by row, then checked. */
  method ConvertBatch(schema: Schema, rows: seq<seq<Cell>>) returns (r: Result<Batch, Unconvertible>)
    ensures r.Ok? <==> rows == [] || BatchConverts(schema, rows)
    ensures r.Ok? ==> r.value.schema == schema && r.value.numRows == |rows| &&
                      IsTransposed(schema, rows, r.value.columns)
  {
    if rows == [] {
      return Ok(Batch(schema, seq(|schema|, i => []), 0));
    }
    var builders: seq<seq<Cell>> := [];
    for c := 0 to |schema|
      invariant |builders| == c
      invariant forall d :: 0 <= d < c ==> builders[d] == [] && Buildable(schema[d].dataType)
    {
      if !Buildable(schema[c].dataType) {
        return Err(Unconvertible);
      }
      builders := builders + [[]];
    }
    for i := 0 to |rows|
      invariant forall j :: 0 <= j < i ==> RowFits(schema, rows[j])
      invariant IsTransposed(schema, rows[..i], builders)
    {
      if |rows[i]| != |schema| {
        return Err(Unconvertible);
      }
      var appended := AppendRow(schema, builders, rows[i]);
      if appended.Err? {
        assert !RowFits(schema, rows[i]);
        return Err(Unconvertible);
      }
      builders := appended.value;
    }
    assert rows[..|rows|] == rows;
    r := TryNew(schema, builders, |rows|);
    NullsAreWhereTheyWere(schema, rows, builders);
  }

  lemma NullsAreWhereTheyWere(schema: Schema, rows: seq<seq<Cell>>, columns: seq<seq<Cell>>)
    requires IsTransposed(schema, rows, columns) && forall r :: 0 <= r < |rows| ==> |rows[r]| == |schema|
    ensures (forall c :: 0 <= c < |schema| && !schema[c].nullable ==> None !in columns[c]) <==>
            (forall r, c :: 0 <= r < |rows| && 0 <= c < |schema| && rows[r][c].None? ==> schema[c].nullable)
  {
    forall c | 0 <= c < |schema|
      ensures None in columns[c] <==> exists r :: 0 <= r < |rows| && rows[r][c].None?
    {
      if r :| 0 <= r < |rows| && rows[r][c].None? {
        assert columns[c][r].None?;
      }
      if None in columns[c] {
        var r :| 0 <= r < |columns[c]| && columns[c][r] == None;
        assert rows[r][c].None?;
      }
    }
  }

  // ----- The two stages together -----

  /** The types both stages support. */
  predicate Shared(t: DataType) {
    t.Utf8? || t.Int32? || t.Int64? || t.Float64? || t.Bool? || t.Date32?
  }

  /** What a row has to offer for a field, so that its cell gets through both stages. */
  predicate Passes(f: Formats, row: Row, field: Field) {
    if Absent(row, field) then field.nullable && Buildable(field.dataType)
    else Shared(field.dataType) && JsonToArrow(f, row[field.name], field.dataType).Ok?
  }

  ghost predicate AllRowsPass(f: Formats, rows: seq<Row>, schema: Schema) {
    |schema| > 0 && forall r, c :: 0 <= r < |rows| && 0 <= c < |schema| ==> Passes(f, rows[r], schema[c])
  }

  /** A value of the first stage that the second accepts has one of the shared types. */
  lemma StagesMeet(f: Formats, row: Row, field: Field)
    ensures Passes(f, row, field) <==>
            var cell := CellOf(f, row, field);
            cell.Ok? && Buildable(field.dataType) && Accepts(field.dataType, cell.value) &&
            (cell.value.None? ==> field.nullable)
  {
  }

  /** Exactly which tables get through both stages. */
  lemma PipelineExactly(f: Formats, rows: seq<Row>, schema: Schema, cells: seq<seq<Cell>>)
    requires rows != [] && (RowsConvert(f, rows, schema) ==> IsConverted(f, rows, schema, cells))
    ensures (RowsConvert(f, rows, schema) && BatchConverts(schema, cells)) <==>
            AllRowsPass(f, rows, schema)
  {
    if RowsConvert(f, rows, schema) && BatchConverts(schema, cells) {
      forall r, c | 0 <= r < |rows| && 0 <= c < |schema|
        ensures Passes(f, rows[r], schema[c])
      {
        assert RowFits(schema, cells[r]);
        StagesMeet(f, rows[r], schema[c]);
      }
    }
    if AllRowsPass(f, rows, schema) {
      forall r, c | 0 <= r < |rows| && 0 <= c < |schema|
        ensures CellOf(f, rows[r], schema[c]).Ok? && Buildable(schema[c].dataType)
        ensures Accepts(schema[c].dataType, CellOf(f, rows[r], schema[c]).value)
        ensures CellOf(f, rows[r], schema[c]).value.None? ==> schema[c].nullable
      {
        StagesMeet(f, rows[r], schema[c]);
      }
      assert forall c :: 0 <= c < |schema| ==> CellOf(f, rows[0], schema[c]).Ok?;
    }
  }

  /** No non-null timestamp, of either unit, gets through. */
  lemma NoTimestampPasses(f: Formats, row: Row, field: Field)
    requires field.dataType.Timestamp? && !Absent(row, field)
    ensures !Passes(f, row, field)
  {
  }

  /** Column c of all batches, one after the other. */
  function Joined(batches: seq<Batch>, c: nat): seq<Cell>
    requires forall i :: 0 <= i < |batches| ==> c < |batches[i].columns|
  {
    if batches == [] then [] else Joined(batches[..|batches| - 1], c) + batches[|batches| - 1].columns[c]
  }

  /** The batches hold the rows, cell by cell, in order. */
  ghost predicate Holds(schema: Schema, batches: seq<Batch>, rows: seq<seq<Cell>>) {
    && (forall i :: 0 <= i < |batches| ==> |batches[i].columns| == |schema|)
    && (forall c :: 0 <= c < |schema| ==> |Joined(batches, c)| == |rows|)
    && (forall r, c :: 0 <= r < |rows| && 0 <= c < |schema| && c < |rows[r]| ==> Joined(batches, c)[r] == rows[r][c])
  }

  lemma HoldsOneMore(schema: Schema, batches: seq<Batch>, rows: seq<seq<Cell>>, batch: Batch, chunk: seq<seq<Cell>>)
    requires Holds(schema, batches, rows) && IsTransposed(schema, chunk, batch.columns)
    ensures Holds(schema, batches + [batch], rows + chunk)
  {
    var all := batches + [batch];
    assert all[..|all| - 1] == batches;
  }

  lemma ConvertsInParts(schema: Schema, a: seq<seq<Cell>>, b: seq<seq<Cell>>)
    requires b != []
    ensures BatchConverts(schema, a + b) <==> (a == [] || BatchConverts(schema, a)) && BatchConverts(schema, b)
  {
    assert forall r :: 0 <= r < |a| ==> (a + b)[r] == a[r];
    assert forall r :: 0 <= r < |b| ==> (a + b)[|a| + r] == b[r];
  }

  /** No batch is empty, and all but the last have n rows. */
  ghost predicate FullBatches(batches: seq<Batch>, n: nat) {
    && (forall i :: 0 <= i < |batches| ==> 0 < batches[i].numRows <= n)
    && (forall i :: 0 <= i < |batches| - 1 ==> batches[i].numRows == n)
  }

  /** `arrow_rows.chunks(n)`, each chunk to a batch. */
  method ConvertChunks(schema: Schema, cells: seq<seq<Cell>>, n: nat) returns (r: Result<seq<Batch>, Unconvertible>)
    requires n > 0
    ensures r.Ok? <==> cells == [] || BatchConverts(schema, cells)
    ensures r.Ok? ==> Holds(schema, r.value, cells)
    ensures r.Ok? ==> FullBatches(r.value, n)
  {
    var batches: seq<Batch> := [];
    var k := 0;
    while k < |cells|
      invariant 0 <= k <= |cells|
      invariant FullBatches(batches, n)
      invariant k < |cells| ==> forall i :: 0 <= i < |batches| ==> batches[i].numRows == n
      invariant Holds(schema, batches, cells[..k])
      invariant cells[..k] == [] || BatchConverts(schema, cells[..k])
    {
      var end := if k + n < |cells| then k + n else |cells|;
      var chunk := cells[k..end];
      assert cells[..end] == cells[..k] + chunk && cells == cells[..end] + cells[end..];
      ConvertsInParts(schema, cells[..k], chunk);
      var batch := ConvertBatch(schema, chunk);
      if batch.Err? {
        if end < |cells| {
          ConvertsInParts(schema, cells[..end], cells[end..]);
        }
        return Err(Unconvertible);
      }
      HoldsOneMore(schema, batches, cells[..k], batch.value, chunk);
      batches := batches + [batch.value];
      k := end;
    }
    assert cells[..k] == cells;
    r := Ok(batches);
  }

  /** The flight service: both stages, in batches of at most n rows. It succeeds exactly when
      every cell passes, and then column c, read across the batches, holds at r the conversion
      of row r's field c. */
  method RowsToBatches(f: Formats, rows: seq<Row>, schema: Schema, n: nat) returns (r: Result<seq<Batch>, Unconvertible>)
    requires n > 0
    ensures r.Ok? <==> rows == [] || AllRowsPass(f, rows, schema)
    ensures r.Ok? ==> FullBatches(r.value, n) && forall i :: 0 <= i < |r.value| ==> |r.value[i].columns| == |schema|
    ensures r.Ok? ==> forall c :: 0 <= c < |schema| ==> |Joined(r.value, c)| == |rows|
    ensures r.Ok? ==> forall i, c :: 0 <= i < |rows| && 0 <= c < |schema| ==>
              CellOf(f, rows[i], schema[c]) == Ok(Joined(r.value, c)[i]) &&
              CellStands(f, rows[i], schema[c], Joined(r.value, c)[i])
  {
    var converted := ConvertDbRows(f, rows, schema);
    if converted.Err? {
      PipelineExactly(f, rows, schema, []);
      return Err(Unconvertible);
    }
    if rows != [] {
      PipelineExactly(f, rows, schema, converted.value);
    }
    r := ConvertChunks(schema, converted.value, n);
  }

  /** The JSON value that a converted value stands for. */
  function Decode(v: Value): Json {
    match v
    case StringValue(s) => Str(s)
    case IntValue(i) => Num(Integer(i))
    case FloatValue(bits) => Num(Double(bits))
    case BoolValue(b) => Boolean(b)
    case TimestampValue(t) => Num(Integer(t))
    case DateValue(d) => Num(Integer(d))
  }

  /** What a column of each type keeps as it was: text columns only strings, dates and timestamps
      only numbers, 64-bit floats only doubles. */
  predicate Kept(j: Json, t: DataType) {
    match t
    case Utf8 => j.Str?
    case Date32 => j.Num?
    case Timestamp(_, _) => j.Num?
    case Float64 => j.Num? && j.num.Double?
    case _ => true
  }

  /** An accepted value reads back as the JSON value it came from exactly when it is of a kind
      that its column keeps, and as what it was turned into otherwise. */
  lemma ConversionKeepsExactly(f: Formats, j: Json, t: DataType)
    requires JsonToArrow(f, j, t).Ok?
    ensures Decode(JsonToArrow(f, j, t).value) == j <==> Kept(j, t)
    ensures !Kept(j, t) ==>
              Decode(JsonToArrow(f, j, t).value) ==
                match t
                case Utf8 =>
                  (match j
                   case Num(n) => Str(f.number(n))
                   case Boolean(b) => Str(if b then "true" else "false")
                   case Array(text) => Str(text)
                   case Object(text) => Str(text)
                   case _ => Str("null"))
                case Date32 => Num(Integer(f.date(j.s).value))
                case Timestamp(_, _) => Num(Integer(f.timestamp(j.s).value))
                case Float64 => Num(Double(f.double(j.num.n)))
                case _ => j
  {
  }

  // ----- Inferred schemas -----

  /** `infer_schema_from_row`: anything that is not a double counts as Int64. */
  function TypeFromView(j: Json): DataType {
    match j
    case Boolean(_) => Bool
    case Num(n) => if n.Double? then Float64 else Int64
    case _ => Utf8
  }

  /** `infer_type_from_value`: anything that does not fit i64 counts as Float64. */
  function TypeFromValue(j: Json): DataType {
    match j
    case Null => NullType
    case Boolean(_) => Bool
    case Num(n) => if AsI64(n).Some? then Int64 else Float64
    case _ => Utf8
  }

  predicate InfersField(typeOf: Json -> DataType, row: Row, field: Field) {
    field.name in row && field.nullable && field.dataType == typeOf(row[field.name])
  }

  /** One nullable field for every column, in the hash map's order, whatever that is. */
  ghost predicate InferredFrom(typeOf: Json -> DataType, row: Row, schema: Schema) {
    && |schema| == |row|
    && (forall c :: 0 <= c < |schema| ==> InfersField(typeOf, row, schema[c]))
    && (forall name :: name in row ==> exists c :: 0 <= c < |schema| && schema[c].name == name)
  }

  method InferSchema(typeOf: Json -> DataType, row: Row) returns (schema: Schema)
    ensures InferredFrom(typeOf, row, schema)
  {
    schema := [];
    var rest := row.Keys;
    while rest != {}
      invariant rest <= row.Keys && |schema| + |rest| == |row|
      invariant forall c :: 0 <= c < |schema| ==> InfersField(typeOf, row, schema[c])
      invariant forall name :: name in row && name !in rest ==> exists c :: 0 <= c < |schema| && schema[c].name == name
      decreases rest
    {
      var name :| name in rest;
      rest := rest - {name};
      ghost var before := schema;
      schema := schema + [Field(name, typeOf(row[name]), true)];
      assert schema[|before|].name == name;
      assert forall c :: 0 <= c < |before| ==> schema[c] == before[c];
    }
    assert |row.Keys| == |row|;
  }

  /** `infer_schema_from_row` of the view registry. */
  method InferSchemaFromRow(row: Row) returns (r: Result<Schema, Unconvertible>)
    ensures r.Ok? <==> |row| > 0
    ensures r.Ok? ==> InferredFrom(TypeFromView, row, r.value)
  {
    var fields := InferSchema(TypeFromView, row);
    if fields == [] {
      return Err(Unconvertible);
    }
    r := Ok(fields);
  }

  /** `infer_schema_from_rows`: the first row decides. */
  method InferSchemaFromRows(rows: seq<Row>) returns (r: Result<Schema, Unconvertible>)
    ensures r.Ok? <==> rows != []
    ensures r.Ok? ==> InferredFrom(TypeFromValue, rows[0], r.value)
  {
    if rows == [] {
      return Err(Unconvertible);
    }
    var fields := InferSchema(TypeFromValue, rows[0]);
    r := Ok(fields);
  }

  /** Under the registry's inference the inferring row gets through both stages exactly when it
      has a column and none of its integers exceeds i64::MAX. */
  lemma ViewInferenceExactly(f: Formats, row: Row, schema: Schema)
    requires InferredFrom(TypeFromView, row, schema)
    ensures AllRowsPass(f, [row], schema) <==>
            (|row| > 0 &&
             forall name :: name in row && row[name].Num? && row[name].num.Integer? ==>
               row[name].num.n <= I64_MAX)
  {
    if AllRowsPass(f, [row], schema) {
      forall name | name in row && row[name].Num? && row[name].num.Integer?
        ensures row[name].num.n <= I64_MAX
      {
        var c :| 0 <= c < |schema| && schema[c].name == name;
        assert Passes(f, [row][0], schema[c]);
      }
    }
  }

  /** Under the registry's inference what gets through reads back as it was, unless it is an array
      or an object, which become text. */
  lemma ViewReadsBackExactly(f: Formats, row: Row, schema: Schema, c: nat, cell: Cell)
    requires InferredFrom(TypeFromView, row, schema) && c < |schema|
    requires CellOf(f, row, schema[c]) == Ok(cell)
    ensures schema[c].name in row
    ensures var j := row[schema[c].name];
            if j == Null then cell == None
            else cell.Some? && (Decode(cell.value) == j <==> !j.Array? && !j.Object?)
  {
    assert InfersField(TypeFromView, row, schema[c]);
    ConversionKeepsExactly(f, row[schema[c].name], schema[c].dataType);
  }

  /** Under the service's inference the first row gets through both stages exactly when it has a
      column and no null: larger integers travel as Float64. */
  lemma ValueInferenceExactly(f: Formats, row: Row, schema: Schema)
    requires InferredFrom(TypeFromValue, row, schema)
    ensures AllRowsPass(f, [row], schema) <==> |row| > 0 && forall name :: name in row ==> !row[name].Null?
  {
    if AllRowsPass(f, [row], schema) {
      forall name | name in row
        ensures !row[name].Null?
      {
        var c :| 0 <= c < |schema| && schema[c].name == name;
        assert Passes(f, [row][0], schema[c]);
      }
    }
  }

  /** What the service's inference asks of a later cell in a column of the first row. */
  predicate FollowsFirst(f: Formats, first: Json, row: Row, name: string) {
    name !in row || row[name].Null? || JsonToArrow(f, row[name], TypeFromValue(first)).Ok?
  }

  /** The rows that the first row's types carry: it has a column and no null, and every later
      cell of its columns is absent or convertible to the type of the first. */
  ghost predicate FirstRowCarries(f: Formats, rows: seq<Row>)
    requires rows != []
  {
    && |rows[0]| > 0
    && (forall name :: name in rows[0] ==> !rows[0][name].Null?)
    && (forall i, name :: 1 <= i < |rows| && name in rows[0] ==> FollowsFirst(f, rows[0][name], rows[i], name))
  }

  lemma CarriedRowsPass(f: Formats, rows: seq<Row>, schema: Schema)
    requires rows != [] && InferredFrom(TypeFromValue, rows[0], schema) && FirstRowCarries(f, rows)
    ensures AllRowsPass(f, rows, schema)
  {
    forall i, c | 0 <= i < |rows| && 0 <= c < |schema|
      ensures Passes(f, rows[i], schema[c])
    {
      assert InfersField(TypeFromValue, rows[0], schema[c]);
      assert i > 0 ==> FollowsFirst(f, rows[0][schema[c].name], rows[i], schema[c].name);
    }
  }

  lemma PassingRowsAreCarried(f: Formats, rows: seq<Row>, schema: Schema)
    requires rows != [] && InferredFrom(TypeFromValue, rows[0], schema) && AllRowsPass(f, rows, schema)
    ensures FirstRowCarries(f, rows)
  {
    forall i, name | 0 <= i < |rows| && name in rows[0]
      ensures !rows[0][name].Null? && FollowsFirst(f, rows[0][name], rows[i], name)
    {
      var c :| 0 <= c < |schema| && schema[c].name == name;
      assert InfersField(TypeFromValue, rows[0], schema[c]);
      assert Passes(f, rows[0], schema[c]) && Passes(f, rows[i], schema[c]);
    }
  }

  /** Strings always keep; booleans and numbers keep in a column of their own kind, where an
      integer beyond i64 in the first row makes a column of doubles; arrays and objects become
      text. */
  predicate SameKind(first: Json, j: Json) {
    match j
    case Str(_) => true
    case Boolean(_) => first.Boolean?
    case Num(Double(_)) => first.Num?
    case Num(Integer(_)) => first.Num? && first.num.Integer? && first.num.n <= I64_MAX
    case _ => false
  }

  /** A cell of the result stands for the row's value exactly when it is of its column's kind. */
  predicate ReadsBackExactly(first: Row, row: Row, field: Field, cell: Cell) {
    if Absent(row, field) then cell.None?
    else
      && cell.Some? && field.name in first
      && (Decode(cell.value) == row[field.name] <==> SameKind(first[field.name], row[field.name]))
  }

  lemma KindDecides(f: Formats, first: Json, j: Json)
    requires JsonToArrow(f, j, TypeFromValue(first)).Ok?
    ensures Decode(JsonToArrow(f, j, TypeFromValue(first)).value) == j <==> SameKind(first, j)
  {
    ConversionKeepsExactly(f, j, TypeFromValue(first));
  }

  /** The round trip of the service, cell by cell. */
  lemma QueryReadsBackExactly(f: Formats, rows: seq<Row>, schema: Schema, i: nat, c: nat, cell: Cell)
    requires rows != [] && InferredFrom(TypeFromValue, rows[0], schema) && i < |rows| && c < |schema|
    requires CellOf(f, rows[i], schema[c]) == Ok(cell)
    ensures ReadsBackExactly(rows[0], rows[i], schema[c], cell)
  {
    assert InfersField(TypeFromValue, rows[0], schema[c]);
    if !Absent(rows[i], schema[c]) {
      KindDecides(f, rows[0][schema[c].name], rows[i][schema[c].name]);
    }
  }

  /** A query's result in the flight service: the schema is inferred from the first row, then all
      rows go through both stages. */
  method ConvertQueryRows(f: Formats, rows: seq<Row>, n: nat)
    returns (r: Result<seq<Batch>, Unconvertible>, schema: Schema)
    requires n > 0
    ensures r.Ok? <==> rows != [] && FirstRowCarries(f, rows)
    ensures rows != [] ==> InferredFrom(TypeFromValue, rows[0], schema)
    ensures r.Ok? ==> FullBatches(r.value, n) && forall i :: 0 <= i < |r.value| ==> |r.value[i].columns| == |schema|
    ensures r.Ok? ==> forall c :: 0 <= c < |schema| ==> |Joined(r.value, c)| == |rows|
    ensures r.Ok? ==> forall i, c :: 0 <= i < |rows| && 0 <= c < |schema| ==>
              CellOf(f, rows[i], schema[c]) == Ok(Joined(r.value, c)[i]) &&
              CellStands(f, rows[i], schema[c], Joined(r.value, c)[i]) &&
              ReadsBackExactly(rows[0], rows[i], schema[c], Joined(r.value, c)[i])
  {
    var inferred := InferSchemaFromRows(rows);
    if inferred.Err? {
      return Err(Unconvertible), [];
    }
    schema := inferred.value;
    r := RowsToBatches(f, rows, schema, n);
    if r.Ok? {
      PassingRowsAreCarried(f, rows, schema);
      forall i, c | 0 <= i < |rows| && 0 <= c < |schema|
        ensures ReadsBackExactly(rows[0], rows[i], schema[c], Joined(r.value, c)[i])
      {
        QueryReadsBackExactly(f, rows, schema, i, c, Joined(r.value, c)[i]);
      }
    } else if FirstRowCarries(f, rows) {
      CarriedRowsPass(f, rows, schema);
    }
  }

  // ----- Schemas from GraphQL types -----

  /** `graphql_type_to_arrow`. */
  function GraphqlTypeToArrow(t: string): DataType {
    if t == "Int" then Int32
    else if t == "Float" then Float64
    else if t == "Boolean" then Bool
    else if t == "DateTime" then Timestamp(Nanosecond, Some("UTC"))
    else if t == "Date" then Date32
    else if t == "Time" then Time64(Nanosecond)
    else if t == "Decimal" then Decimal128(38, 10)
    else Utf8
  }

  /** Which values a column generated from a GraphQL type carries. */
  lemma GraphqlColumnCarries(f: Formats, t: string, name: string, nullable: bool, j: Json)
    requires !j.Null?
    ensures Passes(f, map[name := j], Field(name, GraphqlTypeToArrow(t), nullable)) <==>
            if t == "Int" then j.Num? && j.num.Integer? && I32_MIN <= j.num.n <= I32_MAX
            else if t == "Float" then j.Num?
            else if t == "Boolean" then j.Boolean?
            else if t == "Date" then
              (j.Num? && j.num.Integer? && I32_MIN <= j.num.n <= I32_MAX) || (j.Str? && f.date(j.s).Some?)
            else t !in {"DateTime", "Time", "Decimal"}
  {
  }

  /** Under a schema generated from GraphQL types a column can carry values, for some parsers
      and some value, exactly when its type is not DateTime, Time or Decimal. */
  lemma GraphqlTypesThatCarryValues(t: string, name: string, nullable: bool)
    ensures (exists f: Formats, j: Json ::
               !j.Null? && Passes(f, map[name := j], Field(name, GraphqlTypeToArrow(t), nullable))) <==>
            t !in {"DateTime", "Time", "Decimal"}
  {
    if t !in {"DateTime", "Time", "Decimal"} {
      var f := Formats((n: Number) => "", (n: jsonint) => 0, s => None, s => None);
      var j := if t == "Boolean" then Boolean(true) else Num(Integer(0));
      assert Passes(f, map[name := j], Field(name, GraphqlTypeToArrow(t), nullable));
    }
  }
}
