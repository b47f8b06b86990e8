/** The table `transformar` (IaC/puc_app/flow.py) works on, and the
    transformation itself.  A table is a list of column names and a list of
    rows, each row a map from column name to cell; a cell of the `valor`
    column is either a number of cents or text.  The CSV encoding that
    produces and consumes tables is not part of this module. */
module Frames {
  import opened Results
  import opened Currency

  /** One cell: an amount in cents, or text. */
  datatype Cell = Amount(cents: int) | Text(text: string)

  type Row = map<string, Cell>

  datatype Table = Table(columns: seq<string>, rows: seq<Row>)

  function ColumnSet(columns: seq<string>): set<string> {
    set c | c in columns
  }

  /** Every row has a cell for every column and for nothing else. */
  predicate Rectangular(t: Table) {
    forall i :: 0 <= i < |t.rows| ==> t.rows[i].Keys == ColumnSet(t.columns)
  }

  /** A data frame: a rectangular table. */
  type Frame = t: Table | Rectangular(t) witness Table([], [])

  /** The column `transformar` rewrites. */
  const Valor: string := "valor"

  /** Why `transformar` raises: `df["valor"]` is missing (a `KeyError`), or a
      cell is not a number, so the `,.2f` format rejects it (a `ValueError`). */
  datatype TransformError = MissingColumn | NotNumeric

  /** `after` is `before` with its `valor` amount replaced by the formatted
      text; every other cell is the same. */
  predicate RowTransformed(before: Row, after: Row)
    requires Valor in before && before[Valor].Amount?
  {
    && after.Keys == before.Keys
    && after[Valor] == Text(FormatValor(before[Valor].cents))
    && forall c :: c in before && c != Valor ==> after[c] == before[c]
  }

  /** One row of the `apply`: its `valor` amount formatted, the rest kept. */
  function FormatRow(row: Row): (r: Row)
    requires Valor in row && row[Valor].Amount?
    ensures RowTransformed(row, r)
  {
    row[Valor := Text(FormatValor(row[Valor].cents))]
  }

  /** The rows with every `valor` amount formatted; `None` as soon as a
      `valor` cell is not an amount. */
  function FormatRows(rows: seq<Row>): (r: Option<seq<Row>>)
    requires forall i :: 0 <= i < |rows| ==> Valor in rows[i]
    ensures r.Some? <==> forall i :: 0 <= i < |rows| ==> rows[i][Valor].Amount?
    ensures r.Some? ==> |r.value| == |rows|
    ensures r.Some? ==> forall i :: 0 <= i < |rows| ==> RowTransformed(rows[i], r.value[i])
    decreases |rows|
  {
    if rows == [] then Some([])
    else
      match rows[0][Valor]
      case Text(_) => None
      case Amount(_) =>
        match FormatRows(rows[1..])
        case None => None
        case Some(rest) => Some([FormatRow(rows[0])] + rest)
  }

  /** A rectangular table with `valor` among its columns has a `valor` cell in every row. */
  lemma ValorInRows(df: Frame)
    requires Valor in df.columns
    ensures forall i :: 0 <= i < |df.rows| ==> Valor in df.rows[i]
  {
    assert Valor in ColumnSet(df.columns);
  }

  /** `transformar`: the `valor` column of every row rewritten as currency text. */
  function Transform(df: Frame): (r: Result<Frame, TransformError>)
    ensures r.Failure? <==> Valor !in df.columns || exists i :: 0 <= i < |df.rows| && df.rows[i][Valor].Text?
    ensures r.Failure? ==> (r.error == MissingColumn <==> Valor !in df.columns)
    ensures r.Success? ==> r.value.columns == df.columns && |r.value.rows| == |df.rows|
    ensures r.Success? ==> forall i :: 0 <= i < |df.rows| ==> RowTransformed(df.rows[i], r.value.rows[i])
  {
    if Valor !in df.columns then Failure(MissingColumn)
    else
      ValorInRows(df);
      match FormatRows(df.rows)
      case None => Failure(NotNumeric)
      case Some(rows) =>
        var t := Table(df.columns, rows);
        assert Rectangular(t) by {
          forall i | 0 <= i < |rows|
            ensures rows[i].Keys == ColumnSet(df.columns)
          {
            assert RowTransformed(df.rows[i], rows[i]);
          }
        }
        Success(t)
  }

  /** The rows with every `valor` text read back into an amount; `None` as
      soon as a `valor` cell is not currency text. */
  function RestoreRows(rows: seq<Row>): (r: Option<seq<Row>>)
    requires forall i :: 0 <= i < |rows| ==> Valor in rows[i]
    ensures r.Some? ==> |r.value| == |rows|
    ensures r.Some? ==> forall i :: 0 <= i < |rows| ==> r.value[i].Keys == rows[i].Keys
    decreases |rows|
  {
    if rows == [] then Some([])
    else
      var row := rows[0];
      match row[Valor]
      case Amount(_) => None
      case Text(t) =>
        match ParseValor(t)
        case None => None
        case Some(cents) =>
          match RestoreRows(rows[1..])
          case None => None
          case Some(rest) => Some([row[Valor := Amount(cents)]] + rest)
  }

  /** The inverse of `Transform`: the `valor` column read back into amounts. */
  function Restore(df: Frame): (r: Option<Frame>)
    ensures r.Some? ==> r.value.columns == df.columns && |r.value.rows| == |df.rows|
  {
    if Valor !in df.columns then None
    else
      ValorInRows(df);
      match RestoreRows(df.rows)
      case None => None
      case Some(rows) =>
        var t := Table(df.columns, rows);
        assert Rectangular(t) by {
          forall i | 0 <= i < |rows|
            ensures rows[i].Keys == ColumnSet(df.columns)
          {
            assert rows[i].Keys == df.rows[i].Keys;
          }
        }
        Some(t)
  }

  /** Reading the formatted text back restores a transformed row. */
  lemma RestoreRow(before: Row, after: Row)
    requires Valor in before && before[Valor].Amount? && RowTransformed(before, after)
    ensures after[Valor := Amount(before[Valor].cents)] == before
  {
    var back := after[Valor := Amount(before[Valor].cents)];
    assert back.Keys == before.Keys;
    forall c | c in before
      ensures back[c] == before[c]
    {
    }
  }

  lemma FormatRowsCons(rows: seq<Row>)
    requires |rows| >= 1 && forall i :: 0 <= i < |rows| ==> Valor in rows[i]
    requires FormatRows(rows).Some?
    ensures rows[0][Valor].Amount? && FormatRows(rows[1..]).Some?
    ensures FormatRows(rows).value == [FormatRow(rows[0])] + FormatRows(rows[1..]).value
  {
  }

  lemma RestoreRowsCons(row: Row, rest: seq<Row>, cents: int)
    requires Valor in row && row[Valor].Text? && ParseValor(row[Valor].text) == Some(cents)
    requires forall i :: 0 <= i < |rest| ==> Valor in rest[i]
    requires RestoreRows(rest).Some?
    ensures forall i :: 0 <= i < |[row] + rest| ==> Valor in ([row] + rest)[i]
    ensures RestoreRows([row] + rest) == Some([row[Valor := Amount(cents)]] + RestoreRows(rest).value)
  {
    var rows := [row] + rest;
    assert rows[0] == row && rows[1..] == rest;
  }

  lemma {:induction false} RestoreFormatRows(rows: seq<Row>)
    requires forall i :: 0 <= i < |rows| ==> Valor in rows[i]
    requires FormatRows(rows).Some?
    ensures forall i :: 0 <= i < |rows| ==> Valor in FormatRows(rows).value[i]
    ensures RestoreRows(FormatRows(rows).value) == Some(rows)
    decreases |rows|
  {
    var out := FormatRows(rows).value;
    forall i | 0 <= i < |rows|
      ensures Valor in out[i]
    {
      assert RowTransformed(rows[i], out[i]);
    }
    if rows != [] {
      FormatRowsCons(rows);
      var row := FormatRow(rows[0]);
      var rest := FormatRows(rows[1..]).value;
      RestoreFormatRows(rows[1..]);
      var cents := rows[0][Valor].cents;
      FormatValorRoundTrip(cents);
      RestoreRowsCons(row, rest, cents);
      RestoreRow(rows[0], row);
      assert rows == [rows[0]] + rows[1..];
    }
  }

  /** Transforming and then reading the `valor` column back gives the
      original frame: no amount is lost or altered by the formatting. */
  lemma RestoreTransform(df: Frame)
    requires Transform(df).Success?
    ensures Restore(Transform(df).value) == Some(df)
  {
    ValorInRows(df);
    RestoreFormatRows(df.rows);
  }

  /** `transformar` is not idempotent: once the `valor` column holds text, a
      second pass fails, unless the frame has no rows at all. */
  lemma TransformTwice(df: Frame)
    requires Transform(df).Success?
    ensures Transform(Transform(df).value).Success? <==> |df.rows| == 0
    ensures |df.rows| > 0 ==> Transform(Transform(df).value) == Failure(NotNumeric)
  {
    var once := Transform(df).value;
    ValorInRows(df);
    if |df.rows| > 0 {
      assert RowTransformed(df.rows[0], once.rows[0]);
      assert once.rows[0][Valor].Text?;
    }
  }
}
