// `cargar_historial` of pages/paginaFichajeMovil.py: the rows the backend
// returns become a table, the five columns the page shows are created
// empty where missing, the rows are narrowed to one employee, the
// `fecha_local` column is parsed, and the rows are sorted newest first and
// cut to `limit`.
//
// The table is held row by row: each row maps column names to cells, and
// every row has the table's columns. The datetime parser of the table
// library is a parameter (`None` for text it cannot parse, where the
// library raises).

module Historial {
  import opened Wrappers
  import opened Seqs
  import opened Calendar

  /** A table cell: a text value, or NaN where a fetched record lacked the
      key that other records have. */
  datatype Cell = Text(s: string) | NaN

  type Row = map<string, Cell>

  datatype Frame = Frame(columns: set<string>, rows: seq<Row>)

  /** Every row has exactly the frame's columns. */
  predicate Rectangular(f: Frame)
  {
    forall i :: 0 <= i < |f.rows| ==> f.rows[i].Keys == f.columns
  }

  /** The keys that occur in any fetched record. */
  function KeysOf(data: seq<map<string, string>>): set<string>
  {
    set i, k | 0 <= i < |data| && k in data[i] :: k
  }

  /** `pd.DataFrame(data)` for a list of records. */
  function FromRecords(data: seq<map<string, string>>): (f: Frame)
    ensures Rectangular(f) && |f.rows| == |data| && f.columns == KeysOf(data)
  {
    var cols := KeysOf(data);
    Frame(cols, seq(|data|, i requires 0 <= i < |data| =>
      map k | k in cols :: if k in data[i] then Text(data[i][k]) else NaN))
  }

  /** `df.empty`: no rows or no columns. */
  predicate Empty(f: Frame)
  {
    |f.rows| == 0 || f.columns == {}
  }

  /** The columns the page shows, in display order. */
  const Expected: seq<string> := ["empleado", "fecha_local", "tipo", "observaciones", "fuente"]

  /** `if col not in df.columns: df[col] = ""`. */
  function AddIfMissing(f: Frame, col: string): (g: Frame)
    requires Rectangular(f)
    ensures Rectangular(g) && |g.rows| == |f.rows| && g.columns == f.columns + {col}
  {
    if col in f.columns then f
    else Frame(f.columns + {col}, seq(|f.rows|, i requires 0 <= i < |f.rows| => f.rows[i][col := Text("")]))
  }

  /** The column loop over `cols`, one column at a time. */
  function FillColumns(f: Frame, cols: seq<string>): (g: Frame)
    requires Rectangular(f)
    ensures Rectangular(g) && |g.rows| == |f.rows|
    decreases |cols|
  {
    if |cols| == 0 then f else AddIfMissing(FillColumns(f, cols[..|cols| - 1]), cols[|cols| - 1])
  }

  /** After the loop every listed column exists; a column that was there
      keeps its cells and a column that was missing holds "" in every row. */
  lemma {:induction false} FillColumnsSpec(f: Frame, cols: seq<string>)
    requires Rectangular(f)
    ensures var g := FillColumns(f, cols);
      g.columns == f.columns + (set c | c in cols) &&
      forall i, c :: 0 <= i < |f.rows| && c in g.columns ==>
        g.rows[i][c] == if c in f.columns then f.rows[i][c] else Text("")
    decreases |cols|
  {
    if |cols| > 0 {
      var init := cols[..|cols| - 1];
      FillColumnsSpec(f, init);
      assert (set c | c in cols) == (set c | c in init) + {cols[|cols| - 1]} by {
        assert cols == init + [cols[|cols| - 1]];
      }
    }
  }

  /** A row with no `empleado` key is treated like NaN, which equals nothing. */
  predicate EmpleadoIs(row: Row, who: string)
  {
    "empleado" in row && row["empleado"] == Text(who)
  }

  /** `if empleado_filtro: df = df[df["empleado"] == empleado_filtro]`. */
  function FilterEmpleado(f: Frame, filtro: Option<string>): (g: Frame)
    requires Rectangular(f)
    ensures Rectangular(g) && g.columns == f.columns
  {
    if filtro.Some? && filtro.value != [] then
      Frame(f.columns, Filter(f.rows, (row: Row) => EmpleadoIs(row, filtro.value)))
    else f
  }

  /** `pd.to_datetime` on one `fecha_local` cell: NaN and "" are NaT;
      other text goes through the parser, and text it rejects makes the
      whole conversion fail. */
  function ParseCell(c: Cell, parse: string -> Option<DateTime>): Result<Option<DateTime>, string>
  {
    match c
    case NaN => Success(None)
    case Text(s) =>
      if s == [] then Success(None)
      else match parse(s)
        case None => Failure(s)
        case Some(dt) => Success(Some(dt))
  }

  /** One row of the result, in display order. */
  datatype HistRow = HistRow(empleado: Cell, fechaLocal: Option<DateTime>, tipo: Cell,
                             observaciones: Cell, fuente: Cell)

  /** Newest first, NaT after every timestamp: the sort key ascending. */
  function NewestFirst(h: HistRow): int
  {
    if h.fechaLocal.None? then 0 else -EpochSeconds(h.fechaLocal.value)
  }

  predicate HasExpected(row: Row)
  {
    forall j :: 0 <= j < |Expected| ==> Expected[j] in row
  }

  function ToHistRow(row: Row, fecha: Option<DateTime>): HistRow
    requires HasExpected(row)
  {
    assert Expected[0] in row && Expected[2] in row && Expected[3] in row && Expected[4] in row;
    HistRow(row["empleado"], fecha, row["tipo"], row["observaciones"], row["fuente"])
  }

  /** The parsed rows, or the text of the first `fecha_local` the parser
      rejects. */
  function ParseRows(rows: seq<Row>, parse: string -> Option<DateTime>): (r: Result<seq<HistRow>, string>)
    requires forall i :: 0 <= i < |rows| ==> HasExpected(rows[i])
    ensures r.Success? ==> |r.value| == |rows|
    ensures r.Success? ==> forall k :: 0 <= k < |rows| ==> r.value[k] == ToHistRow(rows[k], r.value[k].fechaLocal)
    ensures r.Success? ==> forall k :: 0 <= k < |rows| ==>
      "fecha_local" in rows[k] && ParseCell(rows[k]["fecha_local"], parse) == Success(r.value[k].fechaLocal)
  {
    if |rows| == 0 then Success([])
    else
      assert HasExpected(rows[0]);
      assert Expected[1] == "fecha_local";
      match ParseCell(rows[0]["fecha_local"], parse)
      case Failure(e) => Failure(e)
      case Success(fecha) =>
        match ParseRows(rows[1..], parse)
        case Failure(e) => Failure(e)
        case Success(tail) => Success([ToHistRow(rows[0], fecha)] + tail)
  }

  /** The table after the column fill and the employee filter. */
  function Prepared(data: seq<map<string, string>>, filtro: Option<string>): (g: Frame)
    ensures Rectangular(g) && forall i :: 0 <= i < |g.rows| ==> HasExpected(g.rows[i])
  {
    var df := FromRecords(data);
    FillColumnsSpec(df, Expected);
    FilterEmpleado(FillColumns(df, Expected), filtro)
  }

  /** The whole transform on the fetched records; any failure ends in the
      `except` branch, which returns an empty table. */
  function HistorialSpec(data: seq<map<string, string>>, limit: int, filtro: Option<string>,
                         parse: string -> Option<DateTime>): seq<HistRow>
  {
    if Empty(FromRecords(data)) then []
    else
      match ParseRows(Prepared(data, filtro).rows, parse)
      case Failure(_) => []
      case Success(hs) => Head(SortBy(hs, NewestFirst), limit)
  }

  /** `cargar_historial`, step by step as the page mutates its table. */
  method CargarHistorial(data: seq<map<string, string>>, limit: int, filtro: Option<string>,
                         parse: string -> Option<DateTime>) returns (result: seq<HistRow>)
    ensures result == HistorialSpec(data, limit, filtro, parse)
  {
    var df := FromRecords(data);
    if Empty(df) {
      return [];
    }
    ghost var df0 := df;
    for k := 0 to |Expected|
      invariant Rectangular(df) && df == FillColumns(df0, Expected[..k])
    {
      assert Expected[..k + 1][..k] == Expected[..k];
      df := AddIfMissing(df, Expected[k]);
    }
    assert Expected[..|Expected|] == Expected;
    FillColumnsSpec(df0, Expected);
    df := FilterEmpleado(df, filtro);
    var parsed := ParseRows(df.rows, parse);
    if parsed.Failure? {
      return [];
    }
    result := Head(SortBy(parsed.value, NewestFirst), limit);
  }

  /** Every column the page shows exists after the fill. */
  lemma FilledHasExpected(df: Frame)
    requires Rectangular(df)
    ensures forall i :: 0 <= i < |df.rows| ==> HasExpected(FillColumns(df, Expected).rows[i])
  {
    FillColumnsSpec(df, Expected);
  }

  /** The result is newest first, with NaT rows last. */
  lemma HistorialSorted(data: seq<map<string, string>>, limit: int, filtro: Option<string>,
                        parse: string -> Option<DateTime>)
    ensures SortedBy(HistorialSpec(data, limit, filtro, parse), NewestFirst)
  {
  }

  /** Every row returned comes from one of the table's rows after the
      employee filter, with its `fecha_local` cell converted. */
  lemma HistorialProvenance(data: seq<map<string, string>>, limit: int, filtro: Option<string>,
                            parse: string -> Option<DateTime>, h: HistRow)
    requires h in HistorialSpec(data, limit, filtro, parse)
    ensures !Empty(FromRecords(data))
    ensures var g := Prepared(data, filtro);
      exists k :: 0 <= k < |g.rows| && h == ToHistRow(g.rows[k], h.fechaLocal) &&
        "fecha_local" in g.rows[k] && ParseCell(g.rows[k]["fecha_local"], parse) == Success(h.fechaLocal)
  {
    var g := Prepared(data, filtro);
    var hs := ParseRows(g.rows, parse).value;
    var sorted := SortBy(hs, NewestFirst);
    assert h in sorted;
    assert h in multiset(sorted);
    assert h in hs;
    var k :| 0 <= k < |hs| && hs[k] == h;
  }

  /** With a filter, every row returned belongs to that employee. */
  lemma HistorialFiltered(data: seq<map<string, string>>, limit: int, who: string,
                          parse: string -> Option<DateTime>, h: HistRow)
    requires who != []
    requires h in HistorialSpec(data, limit, Some(who), parse)
    ensures h.empleado == Text(who)
  {
    HistorialProvenance(data, limit, Some(who), parse, h);
    var g := Prepared(data, Some(who));
    var k :| 0 <= k < |g.rows| && h == ToHistRow(g.rows[k], h.fechaLocal);
    assert EmpleadoIs(g.rows[k], who);
  }

  /** At most `limit` rows for a non-negative limit. */
  lemma HistorialBounded(data: seq<map<string, string>>, limit: int, filtro: Option<string>,
                         parse: string -> Option<DateTime>)
    requires limit >= 0
    ensures |HistorialSpec(data, limit, filtro, parse)| <= limit
  {
  }

  /** No fetched record carries the column `col`. */
  predicate NoRecordHas(data: seq<map<string, string>>, col: string)
  {
    forall i :: 0 <= i < |data| ==> col !in data[i]
  }

  /** A shown column that no fetched record has reads "" in every row
      returned, and a missing `fecha_local` ("" after the fill) reads NaT. */
  lemma HistorialFillsMissing(data: seq<map<string, string>>, limit: int, filtro: Option<string>,
                              parse: string -> Option<DateTime>, h: HistRow)
    requires h in HistorialSpec(data, limit, filtro, parse)
    ensures NoRecordHas(data, "empleado") ==> h.empleado == Text("")
    ensures NoRecordHas(data, "fecha_local") ==> h.fechaLocal.None?
    ensures NoRecordHas(data, "tipo") ==> h.tipo == Text("")
    ensures NoRecordHas(data, "observaciones") ==> h.observaciones == Text("")
    ensures NoRecordHas(data, "fuente") ==> h.fuente == Text("")
  {
    HistorialProvenance(data, limit, filtro, parse, h);
    var g := Prepared(data, filtro);
    var k :| 0 <= k < |g.rows| && h == ToHistRow(g.rows[k], h.fechaLocal) &&
      "fecha_local" in g.rows[k] && ParseCell(g.rows[k]["fecha_local"], parse) == Success(h.fechaLocal);
    var row := g.rows[k];
    assert row in g.rows;
    if NoRecordHas(data, "empleado") {
      PreparedMissingColumn(data, filtro, "empleado");
    }
    if NoRecordHas(data, "fecha_local") {
      PreparedMissingColumn(data, filtro, "fecha_local");
    }
    if NoRecordHas(data, "tipo") {
      PreparedMissingColumn(data, filtro, "tipo");
    }
    if NoRecordHas(data, "observaciones") {
      PreparedMissingColumn(data, filtro, "observaciones");
    }
    if NoRecordHas(data, "fuente") {
      PreparedMissingColumn(data, filtro, "fuente");
    }
  }

  /** A shown column that no fetched record has is "" in every row. */
  lemma PreparedMissingColumn(data: seq<map<string, string>>, filtro: Option<string>, col: string)
    requires col in Expected && NoRecordHas(data, col)
    ensures forall r :: r in Prepared(data, filtro).rows ==> col in r && r[col] == Text("")
  {
    assert col !in KeysOf(data);
    var df := FromRecords(data);
    var filled := FillColumns(df, Expected);
    FilledMissing(df, Expected, col);
    forall r | r in Prepared(data, filtro).rows
      ensures col in r && r[col] == Text("")
    {
      assert r in filled.rows;
      var i :| 0 <= i < |filled.rows| && filled.rows[i] == r;
    }
  }

  /** A listed column that the frame lacked holds "" in every row after
      the column loop. */
  lemma FilledMissing(f: Frame, cols: seq<string>, col: string)
    requires Rectangular(f) && col in cols && col !in f.columns
    ensures forall i :: 0 <= i < |FillColumns(f, cols).rows| ==>
      col in FillColumns(f, cols).rows[i] && FillColumns(f, cols).rows[i][col] == Text("")
  {
    FillColumnsSpec(f, cols);
  }
}
