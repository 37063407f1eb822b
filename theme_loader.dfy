/**
 * `DataLoader`: reads the enriched review table for the visualisations, checks
 * that the columns they need are present, and turns each `themes` cell that
 * holds the text of a Python list back into a list.
 */
module ThemeLoader {
  import opened Table
  import ThemeMetrics

  const THEMES := "themes"

  /** The columns `load` insists on. */
  const REQUIRED: set<string> := {"review", "rating", "ensemble", "bank", "themes", "date"}

  const PATH_NOT_STR := "filepath must be str"

  /** A loader remembers the path it was given. */
  datatype DataLoader = DataLoader(filepath: string)

  /** `DataLoader(filepath)`: any value but a string raises. */
  function NewDataLoader(filepath: Cell): (r: Result<DataLoader>)
    ensures r.Ok? <==> filepath.Str?
    ensures r.Ok? ==> r.value.filepath == filepath.s
    ensures r.Err? ==> r.error == TypeError(PATH_NOT_STR)
  {
    if filepath.Str? then Ok(DataLoader(filepath.s)) else Err(TypeError(PATH_NOT_STR))
  }

  /** What `ast.literal_eval` makes of a string: a value; a `ValueError` or
      `SyntaxError`, which `_parse_themes` catches; or any other exception, which
      it lets through. */
  datatype Literal = Parsed(value: Cell) | Malformed | Raised(error: Error)

  /** `_parse_themes(cell)`, with `ast.literal_eval` given as `literalEval`. */
  function ParseThemes(literalEval: string -> Literal, cell: Cell): (r: Result<Cell>)
    ensures r.Err? <==> cell.Str? && literalEval(cell.s).Raised?
    ensures r.Err? ==> r.error == literalEval(cell.s).error
    ensures !cell.Str? ==> r == Ok(cell)
    ensures cell.Str? && r.Ok? ==> r.value.Items?
    ensures cell.Str? && literalEval(cell.s).Parsed? ==>
              r == Ok(var v := literalEval(cell.s).value; if v.Items? then v else Items([v]))
    ensures cell.Str? && literalEval(cell.s).Malformed? ==> r == Ok(Items([cell]))
  {
    if cell.Items? then Ok(cell)
    else if cell.Str? then
      match literalEval(cell.s)
      case Parsed(v) => if v.Items? then Ok(v) else Ok(Items([v]))
      case Malformed => Ok(Items([cell]))
      case Raised(e) => Err(e)
    else Ok(cell)
  }

  /** Parsing what parsing returned changes nothing, whatever `literal_eval` does. */
  lemma ParseThemesIdempotent(literalEval: string -> Literal, again: string -> Literal, cell: Cell)
    requires ParseThemes(literalEval, cell).Ok?
    ensures ParseThemes(again, ParseThemes(literalEval, cell).value) == ParseThemes(literalEval, cell)
  {
  }

  /** The row with its `themes` cell parsed. */
  function ParseRow(literalEval: string -> Literal, row: Row): Result<Row> {
    match ParseThemes(literalEval, Get(row, THEMES))
    case Err(e) => Err(e)
    case Ok(v) => Ok(row[THEMES := v])
  }

  /** `load()`: `read` stands for `pd.read_csv`. */
  function Load(loader: DataLoader, read: string -> Frame, literalEval: string -> Literal): Result<Frame> {
    var df := read(loader.filepath);
    if !(REQUIRED <= df.columns) then Err(MissingColumns(REQUIRED - df.columns))
    else
      match Traverse(df.rows, row => ParseRow(literalEval, row))
      case Err(e) => Err(e)
      case Ok(rows) => Ok(Frame(df.columns, rows))
  }

  /** `load` raises a `ValueError` naming the missing columns when a required one
      is absent; otherwise it raises only what `literal_eval` raised on some
      `themes` string. */
  lemma LoadErrors(loader: DataLoader, read: string -> Frame, literalEval: string -> Literal)
    ensures var df := read(loader.filepath);
      !(REQUIRED <= df.columns) ==> Load(loader, read, literalEval) == Err(MissingColumns(REQUIRED - df.columns))
    ensures var df := read(loader.filepath);
      REQUIRED <= df.columns ==>
        (Load(loader, read, literalEval).Err? <==>
           exists i :: 0 <= i < |df.rows| && Get(df.rows[i], THEMES).Str? &&
                       literalEval(Get(df.rows[i], THEMES).s).Raised?)
  {
    var df := read(loader.filepath);
    var f := row => ParseRow(literalEval, row);
    TraverseSpec(df.rows, f);
    if REQUIRED <= df.columns && Load(loader, read, literalEval).Err? {
      var i :| 0 <= i < |df.rows| && f(df.rows[i]).Err?;
      assert ParseThemes(literalEval, Get(df.rows[i], THEMES)).Err?;
    }
  }

  /** `load` keeps every row, in order, and every column; in each row only the
      `themes` cell changes, to what `_parse_themes` makes of it: a list, or the
      cell itself when it was neither text nor a list. */
  lemma LoadRows(loader: DataLoader, read: string -> Frame, literalEval: string -> Literal)
    requires Load(loader, read, literalEval).Ok?
    ensures var df := read(loader.filepath);
      var out := Load(loader, read, literalEval).value;
      && out.columns == df.columns
      && |out.rows| == |df.rows|
      && forall i :: 0 <= i < |df.rows| ==>
           && out.rows[i].Keys == df.rows[i].Keys + {THEMES}
           && (forall c :: c in df.rows[i] && c != THEMES ==> out.rows[i][c] == df.rows[i][c])
           && Ok(out.rows[i][THEMES]) == ParseThemes(literalEval, Get(df.rows[i], THEMES))
           && (out.rows[i][THEMES].Items? || out.rows[i][THEMES] == Get(df.rows[i], THEMES))
  {
    var df := read(loader.filepath);
    var f := row => ParseRow(literalEval, row);
    TraverseSpec(df.rows, f);
    var out := Load(loader, read, literalEval).value;
    forall i | 0 <= i < |df.rows|
      ensures out.rows[i].Keys == df.rows[i].Keys + {THEMES}
      ensures forall c :: c in df.rows[i] && c != THEMES ==> out.rows[i][c] == df.rows[i][c]
      ensures Ok(out.rows[i][THEMES]) == ParseThemes(literalEval, Get(df.rows[i], THEMES))
    {
      assert f(df.rows[i]) == Ok(out.rows[i]);
    }
  }

  /** A loaded table is a well-formed table with the `bank` and `themes` columns
      the metrics calculator asks for. */
  lemma LoadFeedsMetrics(loader: DataLoader, read: string -> Frame, literalEval: string -> Literal)
    requires read(loader.filepath).Valid()
    requires Load(loader, read, literalEval).Ok?
    ensures Load(loader, read, literalEval).value.Valid()
    ensures ThemeMetrics.NewCalculator(ThemeMetrics.DataFrameArg(Load(loader, read, literalEval).value)).Ok?
  {
    LoadRows(loader, read, literalEval);
    var df := read(loader.filepath);
    var out := Load(loader, read, literalEval).value;
    assert THEMES in df.columns && "bank" in df.columns;
    forall i | 0 <= i < |out.rows| ensures out.rows[i].Keys == out.columns {
      assert df.rows[i].Keys == df.columns;
    }
  }

  /** Loading a table that `load` already produced gives it back unchanged. */
  lemma LoadTwice(loader: DataLoader, read: string -> Frame, again: string -> Frame, literalEval: string -> Literal)
    requires read(loader.filepath).Valid()
    requires Load(loader, read, literalEval).Ok?
    requires again(loader.filepath) == Load(loader, read, literalEval).value
    ensures Load(loader, again, literalEval) == Load(loader, read, literalEval)
  {
    LoadFeedsMetrics(loader, read, literalEval);
    LoadRows(loader, read, literalEval);
    var out := Load(loader, read, literalEval).value;
    var f := row => ParseRow(literalEval, row);
    forall i | 0 <= i < |out.rows| ensures f(out.rows[i]) == Ok(out.rows[i]) {
      ReparseRow(literalEval, out.rows[i]);
    }
    TraverseFixed(out.rows, f);
  }

  /** A row whose `themes` cell is already parsed parses to itself. */
  lemma ReparseRow(literalEval: string -> Literal, row: Row)
    requires THEMES in row && !row[THEMES].Str?
    ensures ParseRow(literalEval, row) == Ok(row)
  {
    assert row[THEMES := row[THEMES]] == row;
  }
}
