/**
 * `load_xlsx` and the upload branch that repeats it: the schema check against
 * the 19 expected columns, then `dropna` on the three key columns.
 */
module Loader {
  import opened Wrappers
  import opened Seqs
  import opened Text
  import opened Records

  /** The columns the sheet must have (the `expected` set of `load_xlsx` and of the upload branch). */
  const EXPECTED: seq<string> := [
    "PROCESO", "CODIGO_CARRERA", "VIA", "PUNTAJE_CORTE", "N_SELECCIONADOS",
    "NOMBRE_CARRERA", "NOMBRE_UNIVERSIDAD", "REG_CODIGO",
    "DELTA_26_23", "SD_23_26", "SLOPE_PTS_ANIO", "N_MIN_23_26", "N_PROM_23_26",
    "TIPO_TENDENCIA", "ESTABILIDAD", "CUADRANTE", "CLUSTER", "CLUSTER_LABEL", "DELTA_YOY"
  ]

  /** An uploaded or local workbook sheet: its name, its header and its rows after coercion. */
  datatype Sheet = Sheet(name: string, columns: set<string>, rows: seq<Record>)

  /** The schema error: the sheet's name and the missing columns, sorted. */
  datatype LoadError = MissingColumns(sheet: string, missing: seq<string>)

  /** Where the sheet came from: the file in the repository, or an upload. */
  datatype Source = RepoFile | Upload

  function Absent(columns: set<string>): string -> bool
  {
    c => c !in columns
  }

  /**
   * `sorted(expected - set(df.columns))`: exactly the expected names the sheet lacks,
   * each once, in strictly increasing code-point order, which is the one listing
   * Python's `sorted` can give for that set (Text.StrictlySortedUnique).
   */
  function Missing(columns: set<string>): (m: seq<string>)
    ensures forall c :: c in m <==> c in EXPECTED && c !in columns
    ensures SortedBy(m, LexLt)
  {
    SortedSet(Where(EXPECTED, Absent(columns)))
  }

  /** The rows `dropna(subset=["PROCESO", "CODIGO_CARRERA", "PUNTAJE_CORTE"])` keeps. */
  predicate IsComplete(r: Record)
  {
    r.proceso.Some? && r.codigoCarrera.Some? && r.puntajeCorte.Some?
  }

  /** `df.dropna(subset=["PROCESO", "CODIGO_CARRERA", "PUNTAJE_CORTE"])`. */
  function DropIncomplete(rows: seq<Record>): seq<Record>
  {
    Where(rows, IsComplete)
  }

  /**
   * After loading, every row has its year, program code and cut-off score; every row
   * that has all three is kept, every copy of it, in the original order.
   */
  lemma DropIncompleteKeepsComplete(rows: seq<Record>)
    ensures forall r :: r in DropIncomplete(rows) ==> IsComplete(r)
    ensures forall r :: IsComplete(r) ==> multiset(DropIncomplete(rows))[r] == multiset(rows)[r]
    ensures SubsequenceOf(DropIncomplete(rows), rows)
  {
    WhereIsSubsequence(rows, IsComplete);
    forall r | IsComplete(r)
      ensures multiset(DropIncomplete(rows))[r] == multiset(rows)[r]
    {
      WhereCount(rows, IsComplete, r);
    }
  }

  /**
   * `load_xlsx(path, sheet_name)`, and the upload branch that repeats it: the load fails
   * exactly when an expected column is absent, naming the sheet and the sorted missing
   * columns; otherwise the numeric columns are coerced (the record fields already hold
   * the coerced values) and `df` is rebound to its complete rows.
   */
  method Load(sheet: Sheet) returns (r: Result<seq<Record>, LoadError>)
    ensures r.Failure? <==> exists c :: c in EXPECTED && c !in sheet.columns
    ensures r.Failure? ==> r.error == MissingColumns(sheet.name, Missing(sheet.columns))
    ensures r.Success? ==> r.value == DropIncomplete(sheet.rows)
  {
    var missing := Missing(sheet.columns);
    if missing != [] {
      return Failure(MissingColumns(sheet.name, missing));
    }
    var df := sheet.rows;
    df := DropIncomplete(df);
    return Success(df);
  }

  /** Python's `repr` of a column name (names without quotes or backslashes). */
  function Quote(c: string): string
  {
    "'" + c + "'"
  }

  function Items(names: seq<string>): string
  {
    if names == [] then ""
    else if |names| == 1 then Quote(names[0])
    else Quote(names[0]) + ", " + Items(names[1..])
  }

  /** The body of Python's `repr` of a list of column names quotes every name. */
  lemma {:induction false} ItemsQuoteEach(names: seq<string>)
    ensures forall c :: c in names ==> Contains(Items(names), Quote(c))
  {
    if names != [] {
      var head := Quote(names[0]);
      ContainsSelf(head);
      if |names| > 1 {
        ContainsLeft(head, ", ", head);
        ContainsLeft(head + ", ", Items(names[1..]), head);
        ItemsQuoteEach(names[1..]);
        forall c | c in names[1..]
          ensures Contains(Items(names), Quote(c))
        {
          ContainsRight(head + ", ", Items(names[1..]), Quote(c));
        }
      }
      assert forall c :: c in names ==> c == names[0] || c in names[1..];
    }
  }

  /** The schema error's text up to the list of names: `Faltan columnas esperadas en la hoja '<sheet>': [`. */
  function MessageHead(sheet: string): string
  {
    "Faltan columnas esperadas en la hoja " + Quote(sheet) + ": ["
  }

  /** The text of the schema error: the head, then Python's `repr` of the sorted missing names. */
  function Message(e: LoadError): string
  {
    MessageHead(e.sheet) + Items(e.missing) + "]"
  }

  /**
   * What the sidebar shows: the repository-file path raises, and the handler prefixes
   * "Error cargando datos: "; the upload path shows the message itself.
   */
  function Displayed(source: Source, e: LoadError): string
  {
    match source
    case RepoFile => "Error cargando datos: " + Message(e)
    case Upload => Message(e)
  }

  /** The schema error's text names the sheet and every missing column, quoted. */
  lemma MessageNamesSheetAndColumns(e: LoadError)
    ensures Contains(Message(e), Quote(e.sheet))
    ensures forall c :: c in e.missing ==> Contains(Message(e), Quote(c))
  {
    var head := MessageHead(e.sheet);
    ContainsSelf(Quote(e.sheet));
    ContainsRight("Faltan columnas esperadas en la hoja ", Quote(e.sheet), Quote(e.sheet));
    ContainsLeft("Faltan columnas esperadas en la hoja " + Quote(e.sheet), ": [", Quote(e.sheet));
    ContainsLeft(head, Items(e.missing), Quote(e.sheet));
    ContainsLeft(head + Items(e.missing), "]", Quote(e.sheet));
    ItemsQuoteEach(e.missing);
    forall c | c in e.missing
      ensures Contains(Message(e), Quote(c))
    {
      ContainsRight(head, Items(e.missing), Quote(c));
      ContainsLeft(head + Items(e.missing), "]", Quote(c));
    }
  }

  /** Whichever path reports it, the shown error names the sheet and every missing column, quoted. */
  lemma DisplayedNamesSheetAndColumns(source: Source, e: LoadError)
    ensures Contains(Displayed(source, e), Quote(e.sheet))
    ensures forall c :: c in e.missing ==> Contains(Displayed(source, e), Quote(c))
  {
    MessageNamesSheetAndColumns(e);
    if source == RepoFile {
      ContainsRight("Error cargando datos: ", Message(e), Quote(e.sheet));
      forall c | c in e.missing
        ensures Contains(Displayed(source, e), Quote(c))
      {
        ContainsRight("Error cargando datos: ", Message(e), Quote(c));
      }
    }
  }
}
