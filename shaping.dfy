/**
 * The row-shaping step of the page handler: every row the time-series query
 * returned becomes a record keyed by the fixed column names, cell by cell and
 * in order, and the first cell that raises aborts the whole step.
 */
module Shaping {
  import opened Results
  import Timestamp

  /** A cell of a result row: it carries a scalar value, or it does not (a null cell). */
  datatype Cell = Scalar(s: string) | NoScalar

  /**
   * What a record stores under a column: `None`, a string, or the number that
   * `round(float(..), 3)` gives. The numbers are of an abstract type `F`.
   */
  datatype Value<F> = Null | Text(s: string) | Number(n: F)

  /**
   * The six column names; `Name` gives the text of each, and a record is
   * keyed by them.
   */
  datatype Column = DeviceId | MeasureName | Time | Temperature | Humidity | AirQuality

  function Name(c: Column): string {
    match c
    case DeviceId => "DeviceId"
    case MeasureName => "MeasureName"
    case Time => "Time"
    case Temperature => "Temperature"
    case Humidity => "Humidity"
    case AirQuality => "AirQuality"
  }

  /** Different columns have different names, so keying by column is keying by name. */
  lemma NameInjective(a: Column, b: Column)
    ensures Name(a) == Name(b) ==> a == b
  {
  }

  type Record<F> = map<Column, Value<F>>

  /**
   * The conversion of the `Time` scalar. The handler uses
   * `Timestamp.Reformat`; the step is stated for any conversion so that its
   * properties do not depend on how the stamp is parsed.
   */
  type Reformatter = string -> Result<string, Timestamp.TimeError>

  /** The exceptions the step can raise. */
  datatype Failure =
    | IndexError                          // a cell beyond the sixth column
    | TimeFailure(e: Timestamp.TimeError) // the `Time` cell does not parse
    | NumberFailure(message: string)      // a measure cell `float()` refuses

  /** `str()` of the exception. */
  function Message(f: Failure): string {
    match f
    case IndexError => "list index out of range"
    case TimeFailure(e) => Timestamp.Message(e)
    case NumberFailure(m) => m
  }

  /** The schema cells are mapped onto, by position. */
  const ColumnNames: seq<Column> := [DeviceId, MeasureName, Time, Temperature, Humidity, AirQuality]

  /** The columns whose scalars are converted to numbers. */
  const Measures: seq<Column> := [Temperature, Humidity, AirQuality]

  /**
   * What the inner loop stores for cell i, or the exception it raises. Both
   * branches look up `column_names[i]`, so a cell past the sixth raises even
   * when it holds no scalar. `measure` stands for `round(float(..), 3)`,
   * `time` for the stamp conversion.
   */
  function ShapeCell<F>(i: nat, c: Cell, measure: string -> Result<F, string>, time: Reformatter): Result<Value<F>, Failure> {
    if i >= |ColumnNames| then Err(IndexError)
    else match c
      case NoScalar => Ok(Null)
      case Scalar(s) =>
        if ColumnNames[i] in Measures then
          (match measure(s)
           case Ok(n) => Ok(Number(n))
           case Err(m) => Err(NumberFailure(m)))
        else if ColumnNames[i] == Time then
          (match time(s)
           case Ok(t) => Ok(Text(t))
           case Err(e) => Err(TimeFailure(e)))
        else Ok(Text(s))
  }

  /** The record built from the cells of one row, as the inner loop builds it. */
  function ShapeRow<F>(cells: seq<Cell>, measure: string -> Result<F, string>, time: Reformatter): Result<Record<F>, Failure> {
    if cells == [] then Ok(map[])
    else
      var i := |cells| - 1;
      match ShapeRow(cells[..i], measure, time)
      case Err(f) => Err(f)
      case Ok(data) =>
        match ShapeCell(i, cells[i], measure, time)
        case Err(f) => Err(f)
        case Ok(v) => Ok(data[ColumnNames[i] := v])
  }

  /** The records built from all rows, as the outer loop appends them. */
  function Shape<F>(rows: seq<seq<Cell>>, measure: string -> Result<F, string>, time: Reformatter): Result<seq<Record<F>>, Failure> {
    if rows == [] then Ok([])
    else
      var k := |rows| - 1;
      match Shape(rows[..k], measure, time)
      case Err(f) => Err(f)
      case Ok(out) =>
        match ShapeRow(rows[k], measure, time)
        case Err(f) => Err(f)
        case Ok(data) => Ok(out + [data])
  }

  /**
   * The two nested loops of the handler. Each cell is stored under its
   * column name; the first exception abandons the rows built so far.
   */
  method ShapeRows<F>(rows: seq<seq<Cell>>, measure: string -> Result<F, string>, time: Reformatter) returns (r: Result<seq<Record<F>>, Failure>)
    ensures r == Shape(rows, measure, time)
  {
    var out: seq<Record<F>> := [];
    var k := 0;
    while k < |rows|
      invariant 0 <= k <= |rows|
      invariant Shape(rows[..k], measure, time) == Ok(out)
    {
      var row := rows[k];
      var data: Record<F> := map[];
      var i := 0;
      while i < |row|
        invariant 0 <= i <= |row|
        invariant ShapeRow(row[..i], measure, time) == Ok(data)
      {
        var col := row[i];
        var failure: Option<Failure> := None;
        var value: Value<F> := Null;
        if i >= |ColumnNames| {
          failure := Some(IndexError);
        } else if col.Scalar? {
          var name := ColumnNames[i];
          if name in Measures {
            match measure(col.s)
            case Ok(n) => value := Number(n);
            case Err(m) => failure := Some(NumberFailure(m));
          } else if name == Time {
            match time(col.s)
            case Ok(t) => value := Text(t);
            case Err(e) => failure := Some(TimeFailure(e));
          } else {
            value := Text(col.s);
          }
        }
        if failure.Some? {
          RowExtendErr(row, i, data, failure.value, measure, time);
          RowFailureStays(row, i + 1, measure, time);
          ShapeFailureStays(rows, k, measure, time);
          return Err(failure.value);
        }
        RowExtendOk(row, i, data, value, measure, time);
        data := data[ColumnNames[i] := value];
        i := i + 1;
      }
      assert row[..|row|] == row;
      ShapeExtendOk(rows, k, out, data, measure, time);
      out := out + [data];
      k := k + 1;
    }
    assert rows[..|rows|] == rows;
    return Ok(out);
  }

  /** One more cell shaped. */
  lemma RowExtendOk<F>(cells: seq<Cell>, i: nat, data: Record<F>, v: Value<F>,
                       measure: string -> Result<F, string>, time: Reformatter)
    requires i < |cells| && ShapeRow(cells[..i], measure, time) == Ok(data)
    requires ShapeCell(i, cells[i], measure, time) == Ok(v)
    ensures i < |ColumnNames| && ShapeRow(cells[..i + 1], measure, time) == Ok(data[ColumnNames[i] := v])
  {
    assert cells[..i + 1][..i] == cells[..i];
  }

  /** One more cell, which raises. */
  lemma RowExtendErr<F>(cells: seq<Cell>, i: nat, data: Record<F>, f: Failure,
                        measure: string -> Result<F, string>, time: Reformatter)
    requires i < |cells| && ShapeRow(cells[..i], measure, time) == Ok(data)
    requires ShapeCell(i, cells[i], measure, time) == Err(f)
    ensures ShapeRow(cells[..i + 1], measure, time) == Err(f)
  {
    assert cells[..i + 1][..i] == cells[..i];
  }

  /** One more row shaped. */
  lemma ShapeExtendOk<F>(rows: seq<seq<Cell>>, k: nat, out: seq<Record<F>>, data: Record<F>,
                         measure: string -> Result<F, string>, time: Reformatter)
    requires k < |rows| && Shape(rows[..k], measure, time) == Ok(out)
    requires ShapeRow(rows[k], measure, time) == Ok(data)
    ensures Shape(rows[..k + 1], measure, time) == Ok(out + [data])
  {
    assert rows[..k + 1][..k] == rows[..k];
  }

  /** Once a prefix of the cells raises, the whole row raises the same exception. */
  lemma {:induction false} RowFailureStays<F>(cells: seq<Cell>, n: nat, measure: string -> Result<F, string>, time: Reformatter)
    requires n <= |cells| && ShapeRow(cells[..n], measure, time).Err?
    ensures ShapeRow(cells, measure, time) == ShapeRow(cells[..n], measure, time)
    decreases |cells| - n
  {
    if n < |cells| {
      var init := cells[..|cells| - 1];
      assert init[..n] == cells[..n];
      RowFailureStays(init, n, measure, time);
    } else {
      assert cells[..n] == cells;
    }
  }

  /** A row that raises makes the whole step raise the same exception. */
  lemma ShapeFailureStays<F>(rows: seq<seq<Cell>>, k: nat, measure: string -> Result<F, string>, time: Reformatter)
    requires k < |rows| && Shape(rows[..k], measure, time).Ok? && ShapeRow(rows[k], measure, time).Err?
    ensures Shape(rows, measure, time) == Err(ShapeRow(rows[k], measure, time).error)
  {
    ShapeExtendErr(rows[..k], rows[k], measure, time);
    assert rows[..k] + [rows[k]] == rows[..k + 1];
    ShapeFailureFrom(rows, k + 1, measure, time);
  }

  lemma ShapeExtendErr<F>(pre: seq<seq<Cell>>, row: seq<Cell>, measure: string -> Result<F, string>, time: Reformatter)
    requires Shape(pre, measure, time).Ok? && ShapeRow(row, measure, time).Err?
    ensures Shape(pre + [row], measure, time) == Err(ShapeRow(row, measure, time).error)
  {
    assert (pre + [row])[..|pre|] == pre;
  }

  lemma {:induction false} ShapeFailureFrom<F>(rows: seq<seq<Cell>>, n: nat, measure: string -> Result<F, string>, time: Reformatter)
    requires n <= |rows| && Shape(rows[..n], measure, time).Err?
    ensures Shape(rows, measure, time) == Shape(rows[..n], measure, time)
    decreases |rows| - n
  {
    if n < |rows| {
      var init := rows[..|rows| - 1];
      assert init[..n] == rows[..n];
      ShapeFailureFrom(init, n, measure, time);
    } else {
      assert rows[..n] == rows;
    }
  }

  // ---------------------------------------------------------------------------
  // Properties of a row

  lemma NamesDiffer(i: nat, j: nat)
    requires i < j < |ColumnNames|
    ensures ColumnNames[i] != ColumnNames[j]
  {
  }

  /** The names of the first n columns. */
  function ColumnSet(n: nat): set<Column>
    requires n <= |ColumnNames|
  {
    set i | 0 <= i < n :: ColumnNames[i]
  }

  /** The last cell of a shaped row, and what it adds to the record of the cells before it. */
  lemma RowLast<F>(cells: seq<Cell>, measure: string -> Result<F, string>, time: Reformatter)
    requires cells != [] && ShapeRow(cells, measure, time).Ok?
    ensures |cells| - 1 < |ColumnNames|
    ensures ShapeRow(cells[..|cells| - 1], measure, time).Ok? && ShapeCell(|cells| - 1, cells[|cells| - 1], measure, time).Ok?
    ensures ShapeRow(cells, measure, time).value ==
      ShapeRow(cells[..|cells| - 1], measure, time).value[ColumnNames[|cells| - 1] := ShapeCell(|cells| - 1, cells[|cells| - 1], measure, time).value]
  {
    var i := |cells| - 1;
    var pre, cell := ShapeRow(cells[..i], measure, time), ShapeCell(i, cells[i], measure, time);
    assert pre.Ok? && cell.Ok?;
  }

  /** A row is shaped exactly when every one of its cells is. */
  lemma {:induction false} RowSucceeds<F>(cells: seq<Cell>, measure: string -> Result<F, string>, time: Reformatter)
    ensures ShapeRow(cells, measure, time).Ok? <==> forall i :: 0 <= i < |cells| ==> ShapeCell(i, cells[i], measure, time).Ok?
  {
    if cells != [] {
      var init := cells[..|cells| - 1];
      RowSucceeds(init, measure, time);
      assert forall i :: 0 <= i < |init| ==> init[i] == cells[i];
    }
  }

  /**
   * A row with more than six cells always raises: the index error of the
   * seventh cell, unless one of the first six raised before it.
   */
  lemma RowTooLong<F>(cells: seq<Cell>, measure: string -> Result<F, string>, time: Reformatter)
    requires |cells| > |ColumnNames|
    ensures ShapeRow(cells, measure, time).Err?
    ensures (forall i :: 0 <= i < |ColumnNames| ==> ShapeCell(i, cells[i], measure, time).Ok?) ==>
      ShapeRow(cells, measure, time) == Err(IndexError)
  {
    RowSucceeds(cells, measure, time);
    RowFailure(cells, measure, time);
  }

  /**
   * The exception a row raises is the one of its first failing cell: every
   * cell before it is shaped.
   */
  lemma {:induction false} RowFailure<F>(cells: seq<Cell>, measure: string -> Result<F, string>, time: Reformatter)
    ensures ShapeRow(cells, measure, time).Err? ==>
      exists i :: 0 <= i < |cells| && ShapeCell(i, cells[i], measure, time) == Err(ShapeRow(cells, measure, time).error) &&
        forall j :: 0 <= j < i ==> ShapeCell(j, cells[j], measure, time).Ok?
  {
    if cells != [] && ShapeRow(cells, measure, time).Err? {
      var last := |cells| - 1;
      var init := cells[..last];
      assert forall j :: 0 <= j < |init| ==> init[j] == cells[j];
      if ShapeRow(init, measure, time).Err? {
        RowFailure(init, measure, time);
        var i :| 0 <= i < |init| && ShapeCell(i, init[i], measure, time) == Err(ShapeRow(init, measure, time).error) &&
          forall j :: 0 <= j < i ==> ShapeCell(j, init[j], measure, time).Ok?;
        assert ShapeCell(i, cells[i], measure, time) == Err(ShapeRow(cells, measure, time).error);
      } else {
        RowSucceeds(init, measure, time);
        assert ShapeCell(last, cells[last], measure, time) == Err(ShapeRow(cells, measure, time).error);
      }
    }
  }

  /**
   * A shaped row of n cells holds exactly the keys of the first n column
   * names, and under column i the value of cell i.
   */
  lemma {:induction false} RowContents<F>(cells: seq<Cell>, measure: string -> Result<F, string>, time: Reformatter)
    requires ShapeRow(cells, measure, time).Ok?
    ensures |cells| <= |ColumnNames|
    ensures ShapeRow(cells, measure, time).value.Keys == ColumnSet(|cells|)
    ensures forall i :: 0 <= i < |cells| ==>
      ShapeCell(i, cells[i], measure, time) == Ok(ShapeRow(cells, measure, time).value[ColumnNames[i]])
  {
    if cells != [] {
      var last := |cells| - 1;
      var init := cells[..last];
      RowLast(cells, measure, time);
      RowContents(init, measure, time);
      var data, before := ShapeRow(cells, measure, time).value, ShapeRow(init, measure, time).value;
      forall i | 0 <= i < last ensures ShapeCell(i, cells[i], measure, time) == Ok(data[ColumnNames[i]]) {
        NamesDiffer(i, last);
        assert init[i] == cells[i];
      }
      assert data.Keys == before.Keys + {ColumnNames[last]};
      assert ColumnSet(last + 1) == ColumnSet(last) + {ColumnNames[last]};
    }
  }

  /**
   * What each column of a shaped row holds: `None` for a null cell, the
   * scalar unchanged for `DeviceId` and `MeasureName`, the converted stamp
   * for `Time`, the converted number for the measures.
   */
  lemma RowValues<F>(cells: seq<Cell>, measure: string -> Result<F, string>, time: Reformatter, i: nat)
    requires ShapeRow(cells, measure, time).Ok? && i < |cells|
    ensures i < |ColumnNames| && ColumnNames[i] in ShapeRow(cells, measure, time).value
    ensures var v := ShapeRow(cells, measure, time).value[ColumnNames[i]];
      match cells[i]
      case NoScalar => v == Null
      case Scalar(s) =>
        (i < 2 ==> v == Text(s)) &&
        (i == 2 ==> v.Text? && time(s) == Ok(v.s)) &&
        (i > 2 ==> v.Number? && measure(s) == Ok(v.n))
  {
    RowContents(cells, measure, time);
    assert ColumnNames[i] in ColumnSet(|cells|);
  }

  /**
   * With the handler's conversion, the `Time` column of a shaped row holds 19
   * characters and no fraction, and the scalar it came from had a `.`
   * followed by a well-formed fraction.
   */
  lemma RowTime<F>(cells: seq<Cell>, measure: string -> Result<F, string>)
    requires 2 < |cells| && cells[2].Scalar? && ShapeRow(cells, measure, Timestamp.Reformat).Ok?
    ensures Time in ShapeRow(cells, measure, Timestamp.Reformat).value
    ensures var v := ShapeRow(cells, measure, Timestamp.Reformat).value[Time];
      v.Text? && |v.s| == 19 && '.' !in v.s
    ensures var s := cells[2].s;
      exists i :: 0 <= i < |s| && s[i] == '.' && Timestamp.FractionOk(s[i + 1..])
  {
    RowValues(cells, measure, Timestamp.Reformat, 2);
    Timestamp.ReformatShape(cells[2].s);
  }

  /** The `Time` cell of a canonical stamp with a well-formed fraction stores the stamp without its fraction. */
  lemma TimeCellCanonical<F>(h: string, t: string, measure: string -> Result<F, string>)
    requires Timestamp.CanonicalHead(h) && Timestamp.FractionOk(t) && Timestamp.CalendarCheck(h).Ok?
    ensures ShapeCell(2, Scalar(h + "." + t), measure, Timestamp.Reformat) == Ok(Text(h))
  {
    Timestamp.ReformatCanonical(h, t);
    StampCell(h + "." + t, h, measure, Timestamp.Reformat);
  }

  lemma StampCell<F>(s: string, v: string, measure: string -> Result<F, string>, time: Reformatter)
    requires time(s) == Ok(v)
    ensures ShapeCell(2, Scalar(s), measure, time) == Ok(Text(v))
  {
  }

  // ---------------------------------------------------------------------------
  // Properties of the whole step

  /** The step succeeds exactly when every row does. */
  lemma {:induction false} ShapeSucceeds<F>(rows: seq<seq<Cell>>, measure: string -> Result<F, string>, time: Reformatter)
    ensures Shape(rows, measure, time).Ok? <==> forall k :: 0 <= k < |rows| ==> ShapeRow(rows[k], measure, time).Ok?
  {
    if rows != [] {
      var init := rows[..|rows| - 1];
      ShapeSucceeds(init, measure, time);
      assert forall k :: 0 <= k < |init| ==> init[k] == rows[k];
    }
  }

  /** On success there is one record per row, in the order of the rows. */
  lemma {:induction false} ShapeInOrder<F>(rows: seq<seq<Cell>>, measure: string -> Result<F, string>, time: Reformatter)
    requires Shape(rows, measure, time).Ok?
    ensures |Shape(rows, measure, time).value| == |rows|
    ensures forall k :: 0 <= k < |rows| ==> ShapeRow(rows[k], measure, time) == Ok(Shape(rows, measure, time).value[k])
  {
    if rows != [] {
      var last := |rows| - 1;
      var init := rows[..last];
      ShapeInOrder(init, measure, time);
      var out := Shape(init, measure, time).value;
      assert Shape(rows, measure, time).value == out + [ShapeRow(rows[last], measure, time).value];
      assert forall k :: 0 <= k < |init| ==> init[k] == rows[k];
    }
  }

  /**
   * On failure the exception is the one of the first failing row, and no
   * records are returned.
   */
  lemma {:induction false} ShapeFailure<F>(rows: seq<seq<Cell>>, measure: string -> Result<F, string>, time: Reformatter)
    ensures Shape(rows, measure, time).Err? ==>
      exists k :: 0 <= k < |rows| && ShapeRow(rows[k], measure, time) == Err(Shape(rows, measure, time).error) &&
        forall j :: 0 <= j < k ==> ShapeRow(rows[j], measure, time).Ok?
  {
    if rows != [] && Shape(rows, measure, time).Err? {
      var last := |rows| - 1;
      var init := rows[..last];
      assert forall j :: 0 <= j < |init| ==> init[j] == rows[j];
      if Shape(init, measure, time).Err? {
        ShapeFailure(init, measure, time);
        var k :| 0 <= k < |init| && ShapeRow(init[k], measure, time) == Err(Shape(init, measure, time).error) &&
          forall j :: 0 <= j < k ==> ShapeRow(init[j], measure, time).Ok?;
        assert ShapeRow(rows[k], measure, time) == Err(Shape(rows, measure, time).error);
      } else {
        ShapeSucceeds(init, measure, time);
      }
    }
  }

  /**
   * Which cells raise: one past the sixth column, a `Time` scalar the stamp
   * conversion refuses, and a measure scalar the number conversion refuses.
   */
  lemma CellFailures<F>(i: nat, c: Cell, measure: string -> Result<F, string>, time: Reformatter)
    ensures ShapeCell(i, c, measure, time).Err? <==>
      i >= |ColumnNames| || (c.Scalar? && ((i == 2 && time(c.s).Err?) || (3 <= i && measure(c.s).Err?)))
    ensures i >= |ColumnNames| ==> ShapeCell(i, c, measure, time) == Err(IndexError)
    ensures i == 2 && c.Scalar? && time(c.s).Err? ==> ShapeCell(i, c, measure, time) == Err(TimeFailure(time(c.s).error))
    ensures 3 <= i < |ColumnNames| && c.Scalar? && measure(c.s).Err? ==>
      ShapeCell(i, c, measure, time) == Err(NumberFailure(measure(c.s).error))
  {
  }

  /** One cell that raises, in any row, aborts the whole step. */
  lemma CellFailureAborts<F>(rows: seq<seq<Cell>>, measure: string -> Result<F, string>, time: Reformatter, k: nat, i: nat)
    requires k < |rows| && i < |rows[k]| && ShapeCell(i, rows[k][i], measure, time).Err?
    ensures Shape(rows, measure, time).Err?
  {
    RowSucceeds(rows[k], measure, time);
    ShapeSucceeds(rows, measure, time);
  }

  /** A single row with more than six cells aborts the whole step. */
  lemma LongRowAborts<F>(rows: seq<seq<Cell>>, measure: string -> Result<F, string>, time: Reformatter, k: nat)
    requires k < |rows| && |rows[k]| > |ColumnNames|
    ensures Shape(rows, measure, time).Err?
  {
    RowTooLong(rows[k], measure, time);
    ShapeSucceeds(rows, measure, time);
  }
}
