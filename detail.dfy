/**
 * The "Carrera (detalle)" tab: the distinct programs of the filtered table,
 * sorted by university and name, offered as labels "code | name | university";
 * the chosen label's code is read back and that program's rows are shown in
 * year order.
 */
module Detail {
  import opened Wrappers
  import opened Seqs
  import opened Sorting
  import opened Text
  import opened Records

  /** One row of `df_f[["CODIGO_CARRERA", "NOMBRE_CARRERA", "NOMBRE_UNIVERSIDAD"]]`. */
  datatype Program = Program(code: Option<int>, name: Option<string>, uni: Option<string>)

  function ProgramOf(r: Record): Program
  {
    Program(r.codigoCarrera, r.nombreCarrera, r.nombreUniversidad)
  }

  /** The three-column projection of the filtered table, row for row. */
  function Projection(dfF: seq<Record>): (ps: seq<Program>)
    ensures |ps| == |dfF|
    ensures forall i :: 0 <= i < |dfF| ==> ps[i] == ProgramOf(dfF[i])
  {
    seq(|dfF|, i requires 0 <= i < |dfF| => ProgramOf(dfF[i]))
  }

  /** Code-point order on a text column, missing values last. */
  predicate OptLe(a: Option<string>, b: Option<string>)
  {
    b.None? || (a.Some? && LexLe(a.value, b.value))
  }

  /** `sort_values(["NOMBRE_UNIVERSIDAD", "NOMBRE_CARRERA"])`: by university, then by name. */
  predicate ProgramOrder(p: Program, q: Program)
  {
    if p.uni == q.uni then OptLe(p.name, q.name) else OptLe(p.uni, q.uni)
  }

  lemma OptLeAntisym(a: Option<string>, b: Option<string>)
    requires OptLe(a, b) && OptLe(b, a)
    ensures a == b
  {
    if a.Some? && b.Some? {
      LexLeAntisym(a.value, b.value);
    }
  }

  lemma OptLeTotalPreorder()
    ensures TotalPreorder(OptLe)
  {
    LexLeTotalPreorder();
  }

  lemma ProgramOrderTotalPreorder()
    ensures TotalPreorder(ProgramOrder)
  {
    OptLeTotalPreorder();
    forall p, q, s | ProgramOrder(p, q) && ProgramOrder(q, s)
      ensures ProgramOrder(p, s)
    {
      if p.uni != q.uni && q.uni == s.uni && p.uni == s.uni {
        assert false;
      } else if p.uni != q.uni && q.uni != s.uni && p.uni == s.uni {
        OptLeAntisym(p.uni, q.uni);
      }
    }
  }

  /** `drop_duplicates().sort_values(["NOMBRE_UNIVERSIDAD", "NOMBRE_CARRERA"])` on the projection. */
  function ProgramList(dfF: seq<Record>): seq<Program>
  {
    SortBy(DistinctBy(Projection(dfF), Identity), ProgramOrder)
  }

  /**
   * The program list holds every program of the filtered table exactly once and nothing
   * else, ordered by university and then name, missing values last.
   */
  lemma ProgramListSpec(dfF: seq<Record>)
    ensures forall p :: p in ProgramList(dfF) <==> p in Projection(dfF)
    ensures forall r :: r in dfF ==> ProgramOf(r) in ProgramList(dfF)
    ensures NoDuplicates(ProgramList(dfF))
    ensures SortedBy(ProgramList(dfF), ProgramOrder)
  {
    var ps := Projection(dfF);
    var d := DistinctBy(ps, Identity);
    var l := ProgramList(dfF);
    forall p | p in ps
      ensures p in d
    {
      assert Identity(p) in KeysOf(d, Identity);
      var x :| x in d && Identity(x) == Identity(p);
    }
    assert forall p :: p in l <==> p in multiset(l);
    forall r | r in dfF
      ensures ProgramOf(r) in ps
    {
      var i :| 0 <= i < |dfF| && dfF[i] == r;
      assert ps[i] == ProgramOf(r);
    }
    assert NoDuplicates(d) by {
      forall i, j | 0 <= i < j < |d|
        ensures d[i] != d[j]
      {
        assert Identity(d[i]) != Identity(d[j]);
      }
    }
    NoDuplicatesCount(d);
    NoDuplicatesCount(l);
    ProgramOrderTotalPreorder();
    SortBySorted(d, ProgramOrder);
  }

  /** Programs with the same university and name as `q`: the ties of the program order. */
  function SameKeys(q: Program): Program -> bool
  {
    (p: Program) => p.uni == q.uni && p.name == q.name
  }

  /** Two programs tie under the program order exactly when their university and name agree. */
  lemma ProgramTies(p: Program, q: Program)
    ensures (ProgramOrder(p, q) && ProgramOrder(q, p)) <==> SameKeys(q)(p)
  {
    OptLeTotalPreorder();
    if ProgramOrder(p, q) && ProgramOrder(q, p) {
      if p.uni == q.uni {
        OptLeAntisym(p.name, q.name);
      } else {
        OptLeAntisym(p.uni, q.uni);
      }
    }
  }

  /**
   * pandas sorts on several columns stably, so programs with the same university and
   * name stay in the order in which they first appear in the filtered table.
   */
  lemma ProgramListStable(dfF: seq<Record>, q: Program)
    ensures Where(ProgramList(dfF), SameKeys(q)) == Where(DistinctBy(Projection(dfF), Identity), SameKeys(q))
  {
    var d := DistinctBy(Projection(dfF), Identity);
    ProgramOrderTotalPreorder();
    SortByStable(d, ProgramOrder, q);
    forall p
      ensures TiedWith(q, ProgramOrder)(p) == SameKeys(q)(p)
    {
      ProgramTies(p, q);
    }
    WhereSame(ProgramList(dfF), TiedWith(q, ProgramOrder), SameKeys(q));
    WhereSame(d, TiedWith(q, ProgramOrder), SameKeys(q));
  }

  /** How an f-string shows a text cell: the text, or "nan" when it is missing. */
  function Show(v: Option<string>): string
  {
    if v.Some? then v.value else "nan"
  }

  /** The option label `f"{int(code)} | {name} | {university}"`. */
  function Label(p: Program): string
    requires p.code.Some?
  {
    Decimal(p.code.value) + " | " + Show(p.name) + " | " + Show(p.uni)
  }

  /** The program has a code (`pd.notna(r.CODIGO_CARRERA)`). */
  predicate Coded(p: Program)
  {
    p.code.Some?
  }

  /** The labels of the programs with a code, in list order (the `options` comprehension). */
  function Options(ps: seq<Program>): seq<string>
  {
    MapWhere(ps, Coded, Label)
  }

  /**
   * The k-th option is the label of the k-th program with a code, so there is one option
   * per such program and `index=0` selects the first of them in list order.
   */
  lemma OptionsOrder(ps: seq<Program>)
    ensures |Options(ps)| == |Where(ps, Coded)|
    ensures forall k :: 0 <= k < |Options(ps)| ==> Coded(Where(ps, Coded)[k]) && Options(ps)[k] == Label(Where(ps, Coded)[k])
  {
    MapWhereOrder(ps, Coded, Label);
  }

  /** Every program with a code has its label among the options, and every option is such a label. */
  lemma OptionsMembers(ps: seq<Program>)
    ensures forall p :: p in ps && p.code.Some? ==> Label(p) in Options(ps)
    ensures forall l :: l in Options(ps) ==> exists p :: p in ps && p.code.Some? && Label(p) == l
  {
    var coded := Where(ps, Coded);
    var labels := Options(ps);
    OptionsOrder(ps);
    forall p | p in ps && p.code.Some?
      ensures Label(p) in labels
    {
      assert p in coded;
      var k :| 0 <= k < |coded| && coded[k] == p;
      assert labels[k] == Label(p);
    }
    forall l | l in labels
      ensures exists p :: p in ps && p.code.Some? && Label(p) == l
    {
      var k :| 0 <= k < |labels| && labels[k] == l;
      assert coded[k] in coded;
    }
  }

  /** `int(choice.split("|")[0].strip())`; None where `int` raises. */
  function CodeOfLabel(choice: string): Option<int>
  {
    ParseInt(Strip(FirstField(choice)))
  }

  /** A label starts with the code's digits and a blank, then the first '|'. */
  lemma LabelHead(p: Program)
    requires p.code.Some?
    ensures Label(p)[..|Decimal(p.code.value)| + 1] == Decimal(p.code.value) + " "
    ensures Label(p)[|Decimal(p.code.value)| + 1] == '|'
  {
    var digits := Decimal(p.code.value);
    var shown := Label(p);
    var k := |digits| + 1;
    assert forall i :: 0 <= i < k ==> shown[i] == (digits + " ")[i];
  }

  /** The printed code has no '|' and neither starts nor ends with a blank. */
  lemma DecimalUnpadded(n: int)
    ensures '|' !in Decimal(n) + " "
    ensures !IsSpace(Decimal(n)[0]) && !IsSpace(Decimal(n)[|Decimal(n)| - 1])
  {
    var digits := Decimal(n);
    assert forall i :: 0 <= i < |digits| ==> (digits + " ")[i] == digits[i];
  }

  /** Reading a label back gives its program's code, whatever the name and university hold ('|' included). */
  lemma LabelRoundTrip(p: Program)
    requires p.code.Some?
    ensures CodeOfLabel(Label(p)) == Some(p.code.value)
  {
    var digits := Decimal(p.code.value);
    LabelHead(p);
    DecimalUnpadded(p.code.value);
    FirstFieldBefore(Label(p), |digits| + 1);
    StripPadded([], digits, " ");
    assert [] + digits + " " == digits + " ";
    ParseDecimal(p.code.value);
  }

  function HasCode(code: int): Record -> bool
  {
    (r: Record) => r.codigoCarrera == Some(code)
  }

  /** `sort_values("PROCESO")`: earlier years first, missing years last. */
  predicate YearOrder(a: Record, b: Record)
  {
    b.proceso.None? || (a.proceso.Some? && a.proceso.value <= b.proceso.value)
  }

  /** `df_f[df_f["CODIGO_CARRERA"] == code].sort_values("PROCESO")`. */
  function ProgramSeries(dfF: seq<Record>, code: int): seq<Record>
  {
    SortBy(Where(dfF, HasCode(code)), YearOrder)
  }

  /** Years never decrease down the list; rows with a missing year come after all others. */
  ghost predicate NonDecreasingYear(t: seq<Record>)
  {
    forall i, j :: 0 <= i < j < |t| && t[j].proceso.Some? ==>
      t[i].proceso.Some? && t[i].proceso.value <= t[j].proceso.value
  }

  /**
   * The series holds exactly the filtered rows with that code, every copy of each, in
   * non-decreasing year order.
   */
  lemma ProgramSeriesSpec(dfF: seq<Record>, code: int)
    ensures forall r :: multiset(ProgramSeries(dfF, code))[r] == if r.codigoCarrera == Some(code) then multiset(dfF)[r] else 0
    ensures NonDecreasingYear(ProgramSeries(dfF, code))
  {
    forall r
      ensures multiset(ProgramSeries(dfF, code))[r] == if r.codigoCarrera == Some(code) then multiset(dfF)[r] else 0
    {
      WhereCount(dfF, HasCode(code), r);
    }
    assert TotalPreorder(YearOrder);
    SortBySorted(Where(dfF, HasCode(code)), YearOrder);
  }

  /** Every listed program with a code has a non-empty series, made of its own filtered rows. */
  lemma ListedProgramSeries(dfF: seq<Record>, p: Program)
    requires p in ProgramList(dfF) && p.code.Some?
    ensures ProgramSeries(dfF, p.code.value) != []
    ensures forall r :: r in ProgramSeries(dfF, p.code.value) ==> r in dfF && r.codigoCarrera == p.code
  {
    var rows := ProgramSeries(dfF, p.code.value);
    ProgramListSpec(dfF);
    ProgramSeriesSpec(dfF, p.code.value);
    var i :| 0 <= i < |dfF| && Projection(dfF)[i] == p;
    assert dfF[i] in dfF && multiset(rows)[dfF[i]] > 0;
    assert forall r :: r in rows ==> multiset(rows)[r] > 0;
  }

  /**
   * Every offered option reads back as the code of a listed program, and that code's
   * series is non-empty (its first row exists) and made of the program's filtered rows.
   */
  lemma OptionSpec(dfF: seq<Record>, choice: string)
    requires choice in Options(ProgramList(dfF))
    ensures CodeOfLabel(choice).Some?
    ensures exists p :: p in ProgramList(dfF) && p.code == CodeOfLabel(choice) && Label(p) == choice
    ensures ProgramSeries(dfF, CodeOfLabel(choice).value) != []
    ensures forall r :: r in ProgramSeries(dfF, CodeOfLabel(choice).value) ==> r in dfF && r.codigoCarrera == CodeOfLabel(choice)
  {
    OptionsMembers(ProgramList(dfF));
    var p :| p in ProgramList(dfF) && p.code.Some? && Label(p) == choice;
    LabelRoundTrip(p);
    ListedProgramSeries(dfF, p);
  }

  /** What the tab shows: a warning when there is no option, else the chosen program's series. */
  datatype DetailView = NoPrograms | Series(code: int, rows: seq<Record>)

  /**
   * The tab for a choice taken from the offered options: its code read back from the
   * label, and all of that program's rows in year order, of which there is at least one.
   */
  function DetailFor(dfF: seq<Record>, choice: string): (v: DetailView)
    requires Options(ProgramList(dfF)) == [] || choice in Options(ProgramList(dfF))
    ensures v.NoPrograms? <==> Options(ProgramList(dfF)) == []
    ensures v.Series? ==> CodeOfLabel(choice) == Some(v.code) && v.rows == ProgramSeries(dfF, v.code)
    ensures v.Series? ==> v.rows != [] && forall r :: r in v.rows ==> r in dfF && r.codigoCarrera == Some(v.code)
    ensures v.Series? ==> exists p :: p in ProgramList(dfF) && p.code == Some(v.code) && Label(p) == choice
  {
    if Options(ProgramList(dfF)) == [] then NoPrograms
    else
      OptionSpec(dfF, choice);
      var code := CodeOfLabel(choice).value;
      Series(code, ProgramSeries(dfF, code))
  }
}
