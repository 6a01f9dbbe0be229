/**
 * The sidebar filter: seven membership tests, the minimum-admissions threshold
 * and the optional program-name search, applied to the loaded table to give
 * the filtered table `df_f` that every tab reads.
 */
module Filters {
  import opened Wrappers
  import opened Seqs
  import opened Text
  import opened Records

  /** What the sidebar widgets hold: an accepted set per field, `min_n`, and the raw search text. */
  datatype Selection = Selection(
    years: set<int>,
    vias: set<string>,
    unis: set<string>,
    regions: set<int>,
    trends: set<string>,
    stabilities: set<string>,
    clusters: set<int>,
    minN: int,
    search: string
  )

  /** pandas `isin`: a missing value is in no set. */
  predicate IsIn<T(==)>(v: Option<T>, accepted: set<T>)
  {
    v.Some? && v.value in accepted
  }

  /** pandas `>=` against a number: a missing value compares false. */
  predicate AtLeast(v: Option<int>, bound: int)
  {
    v.Some? && v.value >= bound
  }

  /** The conjunction of the seven membership tests and the threshold on `N_MIN_23_26`. */
  predicate PassesMask(r: Record, sel: Selection)
  {
    && IsIn(r.proceso, sel.years)
    && IsIn(r.via, sel.vias)
    && IsIn(r.nombreUniversidad, sel.unis)
    && IsIn(r.regCodigo, sel.regions)
    && IsIn(r.tipoTendencia, sel.trends)
    && IsIn(r.estabilidad, sel.stabilities)
    && IsIn(r.cluster, sel.clusters)
    && AtLeast(r.nMin2326, sel.minN)
  }

  /** The search text as the filter uses it: stripped, then upper-cased. */
  function Query(search: string): string
  {
    Upper(Strip(search))
  }

  /** The program name with a missing name read as the empty text (`fillna("")`). */
  function NameOrEmpty(r: Record): string
  {
    if r.nombreCarrera.Some? then r.nombreCarrera.value else ""
  }

  /** `str.upper().str.contains(q)` on the program name. */
  predicate MatchesName(r: Record, q: string)
  {
    Contains(Upper(NameOrEmpty(r)), q)
  }

  function Mask(sel: Selection): Record -> bool
  {
    r => PassesMask(r, sel)
  }

  function NameMask(q: string): Record -> bool
  {
    r => MatchesName(r, q)
  }

  /** A row survives the sidebar: it passes the mask and, when the query is non-empty, matches it. */
  predicate Selected(r: Record, sel: Selection)
  {
    PassesMask(r, sel) && (Query(sel.search) == [] || MatchesName(r, Query(sel.search)))
  }

  function SelectedMask(sel: Selection): Record -> bool
  {
    r => Selected(r, sel)
  }

  /** The filtered table, as one mask over the loaded table. */
  function Select(df: seq<Record>, sel: Selection): seq<Record>
  {
    Where(df, SelectedMask(sel))
  }

  /**
   * The two steps the dashboard takes: mask the table, then, only when the query
   * is non-empty, rebind `df_f` to the rows whose name contains it.
   */
  method ApplyFilters(df: seq<Record>, sel: Selection) returns (dfF: seq<Record>)
    ensures dfF == Select(df, sel)
  {
    var search := Query(sel.search);
    dfF := Where(df, Mask(sel));
    if search != [] {
      dfF := Where(dfF, NameMask(search));
      WhereWhere(df, Mask(sel), NameMask(search), SelectedMask(sel));
    } else {
      WhereSame(df, Mask(sel), SelectedMask(sel));
    }
  }

  /** A row survives the sidebar, spelt out field by field. */
  ghost predicate SelectedFields(r: Record, sel: Selection)
  {
    && r.proceso.Some? && r.proceso.value in sel.years
    && r.via.Some? && r.via.value in sel.vias
    && r.nombreUniversidad.Some? && r.nombreUniversidad.value in sel.unis
    && r.regCodigo.Some? && r.regCodigo.value in sel.regions
    && r.tipoTendencia.Some? && r.tipoTendencia.value in sel.trends
    && r.estabilidad.Some? && r.estabilidad.value in sel.stabilities
    && r.cluster.Some? && r.cluster.value in sel.clusters
    && r.nMin2326.Some? && r.nMin2326.value >= sel.minN
    && (Query(sel.search) == [] || Contains(Upper(NameOrEmpty(r)), Query(sel.search)))
  }

  /** `Selected` is `SelectedFields`: one membership or threshold test per field, then the search. */
  lemma SelectedUnfold(r: Record, sel: Selection)
    ensures Selected(r, sel) <==> SelectedFields(r, sel)
  {
    assert IsIn(r.proceso, sel.years) <==> r.proceso.Some? && r.proceso.value in sel.years;
    assert IsIn(r.via, sel.vias) <==> r.via.Some? && r.via.value in sel.vias;
    assert IsIn(r.nombreUniversidad, sel.unis) <==> r.nombreUniversidad.Some? && r.nombreUniversidad.value in sel.unis;
    assert IsIn(r.regCodigo, sel.regions) <==> r.regCodigo.Some? && r.regCodigo.value in sel.regions;
    assert IsIn(r.tipoTendencia, sel.trends) <==> r.tipoTendencia.Some? && r.tipoTendencia.value in sel.trends;
    assert IsIn(r.estabilidad, sel.stabilities) <==> r.estabilidad.Some? && r.estabilidad.value in sel.stabilities;
    assert IsIn(r.cluster, sel.clusters) <==> r.cluster.Some? && r.cluster.value in sel.clusters;
    assert AtLeast(r.nMin2326, sel.minN) <==> r.nMin2326.Some? && r.nMin2326.value >= sel.minN;
    assert MatchesName(r, Query(sel.search)) <==> Contains(Upper(NameOrEmpty(r)), Query(sel.search));
  }

  /**
   * A row is in the filtered table iff it is in the loaded table, each of its seven
   * fields is present and accepted, its `N_MIN_23_26` is present and at least `min_n`,
   * and, for a non-empty query, its upper-cased name contains the query; each kept
   * row keeps all its copies, and the order is the loaded table's.
   */
  lemma SelectSpec(df: seq<Record>, sel: Selection)
    ensures forall r :: r in Select(df, sel) <==> r in df && SelectedFields(r, sel)
    ensures forall r :: Selected(r, sel) ==> multiset(Select(df, sel))[r] == multiset(df)[r]
    ensures SubsequenceOf(Select(df, sel), df)
  {
    WhereIsSubsequence(df, SelectedMask(sel));
    forall r
      ensures r in Select(df, sel) <==> r in df && SelectedFields(r, sel)
    {
      SelectedUnfold(r, sel);
    }
    forall r | Selected(r, sel)
      ensures multiset(Select(df, sel))[r] == multiset(df)[r]
    {
      WhereCount(df, SelectedMask(sel), r);
    }
  }

  /** Some dimension accepts nothing. */
  predicate SomeSetEmpty(sel: Selection)
  {
    sel.years == {} || sel.vias == {} || sel.unis == {} || sel.regions == {}
    || sel.trends == {} || sel.stabilities == {} || sel.clusters == {}
  }

  /** Clearing any one multiselect empties the filtered table. */
  lemma EmptySetSelectsNothing(df: seq<Record>, sel: Selection)
    requires SomeSetEmpty(sel)
    ensures Select(df, sel) == []
  {
    WhereNone(df, SelectedMask(sel));
  }

  /** `narrow` accepts no value `wide` rejects, asks for at least as many admissions, and searches the same text. */
  predicate Narrower(narrow: Selection, wide: Selection)
  {
    && narrow.years <= wide.years
    && narrow.vias <= wide.vias
    && narrow.unis <= wide.unis
    && narrow.regions <= wide.regions
    && narrow.trends <= wide.trends
    && narrow.stabilities <= wide.stabilities
    && narrow.clusters <= wide.clusters
    && narrow.minN >= wide.minN
    && narrow.search == wide.search
  }

  /** Removing accepted values or raising `min_n` never adds a row, and keeps the order. */
  lemma SelectMonotone(df: seq<Record>, narrow: Selection, wide: Selection)
    requires Narrower(narrow, wide)
    ensures SubsequenceOf(Select(df, narrow), Select(df, wide))
    ensures |Select(df, narrow)| <= |Select(df, wide)|
  {
    WhereMonotone(df, SelectedMask(narrow), SelectedMask(wide));
    SubsequenceMembers(Select(df, narrow), Select(df, wide));
  }

  /** Filtering the filtered table again with the same sidebar changes nothing. */
  lemma SelectIdempotent(df: seq<Record>, sel: Selection)
    ensures Select(Select(df, sel), sel) == Select(df, sel)
  {
    WhereIdempotent(df, SelectedMask(sel));
  }

  /** An empty query leaves the masked table as it is: the search step is skipped. */
  lemma EmptyQueryIsNoOp(df: seq<Record>, sel: Selection)
    requires Query(sel.search) == []
    ensures Select(df, sel) == Where(df, Mask(sel))
  {
    WhereSame(df, Mask(sel), SelectedMask(sel));
  }

  /** With a non-empty query, a row without a program name is never kept. */
  lemma MissingNameNeverMatches(df: seq<Record>, sel: Selection, r: Record)
    requires Query(sel.search) != [] && r.nombreCarrera.None?
    ensures r !in Select(df, sel)
  {
    assert !StartsWith("", Query(sel.search));
  }

  /** The distinct present values of each field in the loaded table: the multiselects' defaults. */
  function Defaults(df: seq<Record>, minN: int, search: string): (sel: Selection)
    ensures forall r :: r in df && r.proceso.Some? ==> r.proceso.value in sel.years
    ensures forall r :: r in df && r.via.Some? ==> r.via.value in sel.vias
    ensures forall r :: r in df && r.nombreUniversidad.Some? ==> r.nombreUniversidad.value in sel.unis
    ensures forall r :: r in df && r.regCodigo.Some? ==> r.regCodigo.value in sel.regions
    ensures forall r :: r in df && r.tipoTendencia.Some? ==> r.tipoTendencia.value in sel.trends
    ensures forall r :: r in df && r.estabilidad.Some? ==> r.estabilidad.value in sel.stabilities
    ensures forall r :: r in df && r.cluster.Some? ==> r.cluster.value in sel.clusters
    ensures forall y :: y in sel.years ==> exists r :: r in df && r.proceso == Some(y)
    ensures forall v :: v in sel.vias ==> exists r :: r in df && r.via == Some(v)
    ensures forall u :: u in sel.unis ==> exists r :: r in df && r.nombreUniversidad == Some(u)
    ensures forall g :: g in sel.regions ==> exists r :: r in df && r.regCodigo == Some(g)
    ensures forall t :: t in sel.trends ==> exists r :: r in df && r.tipoTendencia == Some(t)
    ensures forall e :: e in sel.stabilities ==> exists r :: r in df && r.estabilidad == Some(e)
    ensures forall c :: c in sel.clusters ==> exists r :: r in df && r.cluster == Some(c)
    ensures sel.minN == minN && sel.search == search
  {
    Selection(
      set r | r in df && r.proceso.Some? :: r.proceso.value,
      set r | r in df && r.via.Some? :: r.via.value,
      set r | r in df && r.nombreUniversidad.Some? :: r.nombreUniversidad.value,
      set r | r in df && r.regCodigo.Some? :: r.regCodigo.value,
      set r | r in df && r.tipoTendencia.Some? :: r.tipoTendencia.value,
      set r | r in df && r.estabilidad.Some? :: r.estabilidad.value,
      set r | r in df && r.cluster.Some? :: r.cluster.value,
      minN, search)
  }

  /**
   * With the default multiselects, a loaded row is dropped by the mask only when one
   * of the seven fields or `N_MIN_23_26` is missing, or its `N_MIN_23_26` is below `min_n`.
   */
  lemma DefaultsKeepPresent(df: seq<Record>, minN: int, search: string, r: Record)
    requires r in df
    ensures PassesMask(r, Defaults(df, minN, search)) <==>
      && r.proceso.Some? && r.via.Some? && r.nombreUniversidad.Some? && r.regCodigo.Some?
      && r.tipoTendencia.Some? && r.estabilidad.Some? && r.cluster.Some?
      && r.nMin2326.Some? && r.nMin2326.value >= minN
  {
  }
}
