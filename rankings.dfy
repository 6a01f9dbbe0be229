/**
 * The "Rankings" tab: the filtered table's 2026 rows, one per program code
 * (first occurrence kept), ordered by the 2023-2026 change in cut-off score,
 * and the first `n_show` of each ordering.
 */
module Rankings {
  import opened Wrappers
  import opened Seqs
  import opened Sorting
  import opened Records

  predicate In2026(r: Record)
  {
    r.proceso == Some(2026)
  }

  function CodeKey(r: Record): Option<int>
  {
    r.codigoCarrera
  }

  /** `df_f[df_f["PROCESO"] == 2026].drop_duplicates(subset=["CODIGO_CARRERA"])`. */
  function Careers2026(dfF: seq<Record>): seq<Record>
  {
    DistinctBy(Where(dfF, In2026), CodeKey)
  }

  /** The program codes among the 2026 rows of the filtered table. */
  ghost function Codes2026(dfF: seq<Record>): set<Option<int>>
  {
    set r | r in dfF && In2026(r) :: r.codigoCarrera
  }

  /**
   * The ranking base holds only 2026 rows of the filtered table, in its order, at most
   * one per program code, one for every code that has a 2026 row, and each is the first
   * 2026 row with its code.
   */
  lemma Careers2026Spec(dfF: seq<Record>)
    ensures forall x :: x in Careers2026(dfF) ==> x in dfF && x.proceso == Some(2026)
    ensures forall i, j :: 0 <= i < j < |Careers2026(dfF)| ==>
      Careers2026(dfF)[i].codigoCarrera != Careers2026(dfF)[j].codigoCarrera
    ensures KeysOf(Careers2026(dfF), CodeKey) == Codes2026(dfF)
    ensures forall x :: x in Careers2026(dfF) ==> x == First(Where(dfF, In2026), CodeKey, x.codigoCarrera)
    ensures SubsequenceOf(Careers2026(dfF), dfF)
  {
    var base := Where(dfF, In2026);
    assert KeysOf(base, CodeKey) == Codes2026(dfF);
    DistinctAfterKeepsFirst(base, CodeKey, {});
    DistinctAfterIsSubsequence(base, CodeKey, {});
    WhereIsSubsequence(dfF, In2026);
    SubsequenceTrans(Careers2026(dfF), base, dfF);
  }

  /** The ranking base is empty exactly when the filtered table has no 2026 row. */
  lemma Careers2026Empty(dfF: seq<Record>)
    ensures Careers2026(dfF) == [] <==> forall r :: r in dfF ==> !In2026(r)
  {
    var c := Careers2026(dfF);
    if r :| r in dfF && In2026(r) {
      assert r.codigoCarrera in KeysOf(Where(dfF, In2026), CodeKey);
      assert r.codigoCarrera in KeysOf(c, CodeKey);
    }
    if c != [] {
      assert c[0] in c;
    }
  }

  /** `sort_values("DELTA_26_23", ascending=False)`: larger changes first, missing changes last. */
  predicate DeltaDesc(a: Record, b: Record)
  {
    b.delta2623.None? || (a.delta2623.Some? && a.delta2623.value >= b.delta2623.value)
  }

  /** `sort_values("DELTA_26_23", ascending=True)`: smaller changes first, missing changes last. */
  predicate DeltaAsc(a: Record, b: Record)
  {
    b.delta2623.None? || (a.delta2623.Some? && a.delta2623.value <= b.delta2623.value)
  }

  lemma DeltaDescTotalPreorder()
    ensures TotalPreorder(DeltaDesc)
  {
  }

  lemma DeltaAscTotalPreorder()
    ensures TotalPreorder(DeltaAsc)
  {
  }

  /** "Top suben": the `n` largest changes. */
  function TopSuben(careers: seq<Record>, n: nat): seq<Record>
  {
    Take(SortBy(careers, DeltaDesc), n)
  }

  /** "Top bajan": the `n` smallest changes. */
  function TopBajan(careers: seq<Record>, n: nat): seq<Record>
  {
    Take(SortBy(careers, DeltaAsc), n)
  }

  /**
   * The first `n` of a sort by a key order: `min(n, |s|)` rows of `s`, in key order,
   * and no row of `s` left out ranks before a row kept.
   */
  lemma TopOf(s: seq<Record>, n: nat, le: (Record, Record) -> bool)
    requires TotalPreorder(le)
    ensures |Take(SortBy(s, le), n)| == if n <= |s| then n else |s|
    ensures multiset(Take(SortBy(s, le), n)) <= multiset(s)
    ensures SortedBy(Take(SortBy(s, le), n), le)
    ensures forall x, y :: x in Take(SortBy(s, le), n) && multiset(Take(SortBy(s, le), n))[y] < multiset(s)[y] ==> le(x, y)
  {
    var sorted := SortBy(s, le);
    var t := Take(sorted, n);
    var k := |t|;
    SortBySorted(s, le);
    assert sorted == t + sorted[k..];
    assert multiset(sorted) == multiset(t) + multiset(sorted[k..]);
    SortedPrefix(sorted, k, le);
    SortedPrefixFirst(sorted, k, le);
    forall x, y | x in t && multiset(t)[y] < multiset(s)[y]
      ensures le(x, y)
    {
      assert y in multiset(sorted[k..]);
      assert y in sorted[k..];
    }
  }

  /** Changes never increase down the list; rows with a missing change come after all others. */
  ghost predicate NonIncreasingDelta(t: seq<Record>)
  {
    forall i, j :: 0 <= i < j < |t| && t[j].delta2623.Some? ==>
      t[i].delta2623.Some? && t[i].delta2623.value >= t[j].delta2623.value
  }

  /** Changes never decrease down the list; rows with a missing change come after all others. */
  ghost predicate NonDecreasingDelta(t: seq<Record>)
  {
    forall i, j :: 0 <= i < j < |t| && t[j].delta2623.Some? ==>
      t[i].delta2623.Some? && t[i].delta2623.value <= t[j].delta2623.value
  }

  /**
   * "Top suben" lists `min(n, |careers|)` ranking rows, by non-increasing change with the
   * missing changes last, and no row left out has a larger change than a row listed.
   */
  lemma TopSubenSpec(careers: seq<Record>, n: nat)
    ensures |TopSuben(careers, n)| == if n <= |careers| then n else |careers|
    ensures multiset(TopSuben(careers, n)) <= multiset(careers)
    ensures NonIncreasingDelta(TopSuben(careers, n))
    ensures forall x, y :: x in TopSuben(careers, n) && multiset(TopSuben(careers, n))[y] < multiset(careers)[y] ==> DeltaDesc(x, y)
  {
    DeltaDescTotalPreorder();
    TopOf(careers, n, DeltaDesc);
    var t := TopSuben(careers, n);
    assert SortedBy(t, DeltaDesc);
  }

  /**
   * "Top bajan" lists `min(n, |careers|)` ranking rows, by non-decreasing change with the
   * missing changes last, and no row left out has a smaller change than a row listed.
   */
  lemma TopBajanSpec(careers: seq<Record>, n: nat)
    ensures |TopBajan(careers, n)| == if n <= |careers| then n else |careers|
    ensures multiset(TopBajan(careers, n)) <= multiset(careers)
    ensures NonDecreasingDelta(TopBajan(careers, n))
    ensures forall x, y :: x in TopBajan(careers, n) && multiset(TopBajan(careers, n))[y] < multiset(careers)[y] ==> DeltaAsc(x, y)
  {
    DeltaAscTotalPreorder();
    TopOf(careers, n, DeltaAsc);
    var t := TopBajan(careers, n);
    assert SortedBy(t, DeltaAsc);
  }

  /** What the tab shows: a warning when there is no 2026 program, else the two lists. */
  datatype RankingView = NoCareers | Tops(suben: seq<Record>, bajan: seq<Record>)

  function Ranking(dfF: seq<Record>, nShow: nat): (v: RankingView)
    ensures v.NoCareers? <==> forall r :: r in dfF ==> !In2026(r)
    ensures v.Tops? ==> v.suben == TopSuben(Careers2026(dfF), nShow) && v.bajan == TopBajan(Careers2026(dfF), nShow)
  {
    Careers2026Empty(dfF);
    var careers := Careers2026(dfF);
    if careers == [] then NoCareers
    else Tops(TopSuben(careers, nShow), TopBajan(careers, nShow))
  }
}
