/**
 * The "Universidades" tab's change in median cut-off between 2023 and 2026:
 * the pivot of per-university, per-year medians has a 2023 and a 2026 column
 * only when some university has filtered rows in that year, and the change is
 * computed only when both columns exist.
 */
module Universities {
  import opened Wrappers
  import opened Seqs
  import opened Records

  /**
   * The year columns of the pivot: the years of the rows whose university and year
   * are both present (`groupby` drops rows with a missing key).
   */
  function PivotYears(dfF: seq<Record>): (years: set<int>)
    ensures forall r :: r in dfF && r.nombreUniversidad.Some? && r.proceso.Some? ==> r.proceso.value in years
    ensures forall y :: y in years ==> exists r :: r in dfF && r.nombreUniversidad.Some? && r.proceso == Some(y)
  {
    set r | r in dfF && r.nombreUniversidad.Some? && r.proceso.Some? :: r.proceso.value
  }

  /** The rows of university `u` in year `y`. */
  function InGroup(u: string, y: int): Record -> bool
  {
    (r: Record) => r.nombreUniversidad == Some(u) && r.proceso == Some(y)
  }

  /** The rows whose cut-off score is `v`. */
  function ScoredAs(v: int): Record -> bool
  {
    (r: Record) => r.puntajeCorte == Some(v)
  }

  /**
   * The present cut-off scores of one pivot cell, in table order: each score occurs as
   * many times as there are rows with that score (the median counts repeats), and
   * missing scores are skipped, as `median` skips NaN.
   */
  function Cutoffs(rows: seq<Record>): (c: seq<int>)
    ensures |c| <= |rows|
    ensures forall v :: multiset(c)[v] == |Where(rows, ScoredAs(v))|
  {
    if rows == [] then []
    else
      var rest := Cutoffs(rows[1..]);
      if rows[0].puntajeCorte.Some? then
        var x := rows[0].puntajeCorte.value;
        var c := [x] + rest;
        forall v
          ensures multiset(c)[v] == |Where(rows, ScoredAs(v))|
        {
          assert multiset(c)[v] == (if v == x then 1 else 0) + multiset(rest)[v];
          assert |Where(rows, ScoredAs(v))| == (if v == x then 1 else 0) + |Where(rows[1..], ScoredAs(v))|;
        }
        c
      else
        forall v
          ensures multiset(rest)[v] == |Where(rows, ScoredAs(v))|
        {
          assert Where(rows, ScoredAs(v)) == Where(rows[1..], ScoredAs(v));
        }
        rest
  }

  /** A score occurs in the cell exactly when some row of it has that score. */
  lemma CutoffsMembers(rows: seq<Record>)
    ensures forall v :: v in Cutoffs(rows) <==> exists r :: r in rows && r.puntajeCorte == Some(v)
  {
    forall v
      ensures v in Cutoffs(rows) <==> exists r :: r in rows && r.puntajeCorte == Some(v)
    {
      var w := Where(rows, ScoredAs(v));
      assert v in Cutoffs(rows) <==> multiset(Cutoffs(rows))[v] > 0;
      if w != [] {
        assert w[0] in w;
      }
    }
  }

  /** The pivot cell for university `u` and year `y`: the median, or missing when it has no score. */
  function Cell(dfF: seq<Record>, u: string, y: int, median: seq<int> -> int): Option<int>
  {
    var c := Cutoffs(Where(dfF, InGroup(u, y)));
    if c == [] then None else Some(median(c))
  }

  /**
   * `DELTA_MEDIANA_26_23` for university `u`: the 2026 cell minus the 2023 cell when both
   * year columns exist, missing when either column or either cell is missing. The median
   * of a non-empty list of scores is a parameter.
   */
  function DeltaMediana(dfF: seq<Record>, u: string, median: seq<int> -> int): Option<int>
  {
    if 2023 in PivotYears(dfF) && 2026 in PivotYears(dfF) then
      var a := Cell(dfF, u, 2023, median);
      var b := Cell(dfF, u, 2026, median);
      if a.Some? && b.Some? then Some(b.value - a.value) else None
    else None
  }

  /** University `u` has a filtered row with a cut-off score in year `y`. */
  ghost predicate Scored(dfF: seq<Record>, u: string, y: int)
  {
    exists r :: r in dfF && r.nombreUniversidad == Some(u) && r.proceso == Some(y) && r.puntajeCorte.Some?
  }

  lemma CellSpec(dfF: seq<Record>, u: string, y: int, median: seq<int> -> int)
    ensures Cell(dfF, u, y, median).Some? <==> Scored(dfF, u, y)
    ensures Scored(dfF, u, y) ==> Cell(dfF, u, y, median) == Some(median(Cutoffs(Where(dfF, InGroup(u, y)))))
  {
    var g := Where(dfF, InGroup(u, y));
    CutoffsMembers(g);
    if Scored(dfF, u, y) {
      var r :| r in dfF && r.nombreUniversidad == Some(u) && r.proceso == Some(y) && r.puntajeCorte.Some?;
      var v := r.puntajeCorte.value;
      assert r in g && r.puntajeCorte == Some(v);
      assert exists q :: q in g && q.puntajeCorte == Some(v);
      assert v in Cutoffs(g);
    }
    if Cutoffs(g) != [] {
      var v := Cutoffs(g)[0];
      assert v in Cutoffs(g);
      var r :| r in g && r.puntajeCorte == Some(v);
      assert r in dfF && InGroup(u, y)(r);
    }
  }

  /**
   * The change in median is defined exactly when the university has scored rows in both
   * 2023 and 2026 (which puts both years among the pivot's columns), and then it is the
   * 2026 median minus the 2023 median.
   */
  lemma DeltaMedianaSpec(dfF: seq<Record>, u: string, median: seq<int> -> int)
    ensures DeltaMediana(dfF, u, median).Some? <==> Scored(dfF, u, 2023) && Scored(dfF, u, 2026)
    ensures DeltaMediana(dfF, u, median).Some? ==>
      DeltaMediana(dfF, u, median).value
        == median(Cutoffs(Where(dfF, InGroup(u, 2026)))) - median(Cutoffs(Where(dfF, InGroup(u, 2023))))
  {
    CellSpec(dfF, u, 2023, median);
    CellSpec(dfF, u, 2026, median);
  }
}
