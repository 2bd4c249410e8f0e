/**
 * The ranking built straight from a hand-filled CSV (`ranking_desde_csv.py`): rows without
 * an h-index are dropped, the numeric columns coerced, the rest ordered by h-index and then
 * citations, both descending, and numbered from 1.
 */
module RankingDesdeCsv {
  import opened Wrappers
  import opened Seqs
  import opened Cells

  /** One row of the template; only the columns the ranking reads are kept. */
  datatype CsvRow = CsvRow(nombre: Option<string>, afiliacion: Option<string>, hIndex: Cell, citations: Cell, i10Index: Cell)

  /** The row after coercion. */
  datatype RankRow = RankRow(nombre: Option<string>, afiliacion: Option<string>, hIndex: int, citations: int, i10Index: int)

  /** `df['h_index'].notna() & (df['h_index'] != '')`. */
  predicate HasHIndex(r: CsvRow)
  {
    !r.hIndex.Missing? && r.hIndex != Str("")
  }

  function Coerce(r: CsvRow): RankRow
  {
    RankRow(r.nombre, r.afiliacion, ToInt(r.hIndex), ToInt(r.citations), ToInt(r.i10Index))
  }

  function CoerceAll(rows: seq<CsvRow>): (r: seq<RankRow>)
    ensures |r| == |rows| && forall i :: 0 <= i < |rows| ==> r[i] == Coerce(rows[i])
  {
    seq(|rows|, i requires 0 <= i < |rows| => Coerce(rows[i]))
  }

  function HCitationsKey(r: RankRow): (int, int) { (r.hIndex, r.citations) }

  /**
   * `generar_ranking`: `None` when no row has an h-index; otherwise every such row, coerced,
   * in non-increasing (h-index, citations) order, with ranks 1..n.
   */
  function GenerarRanking(rows: seq<CsvRow>): (r: Option<seq<Ranked<RankRow>>>)
    ensures r.None? <==> forall i :: 0 <= i < |rows| ==> !HasHIndex(rows[i])
    ensures r.Some? ==> |r.value| == |Filter(rows, HasHIndex)|
    ensures r.Some? ==> multiset(Items(r.value)) == multiset(CoerceAll(Filter(rows, HasHIndex)))
    ensures r.Some? ==> forall i :: 0 <= i < |r.value| ==> r.value[i].rank == i + 1
    ensures r.Some? ==> forall i, j :: 0 <= i < j < |r.value| ==>
              GeKey(HCitationsKey(r.value[i].item), HCitationsKey(r.value[j].item))
  {
    var kept := Filter(rows, HasHIndex);
    if |kept| == 0 then
      None
    else
      assert kept[0] in rows;
      var sorted := SortDesc(CoerceAll(kept), HCitationsKey);
      var ranked := AssignRanks(sorted);
      assert Items(ranked) == sorted;
      Some(ranked)
  }

  /** Every row kept has an h-index; no row that has one is lost. */
  lemma GenerarRankingKeepsRows(rows: seq<CsvRow>, k: nat)
    requires k < |rows| && HasHIndex(rows[k])
    ensures GenerarRanking(rows).Some? && Coerce(rows[k]) in Items(GenerarRanking(rows).value)
  {
    var kept := Filter(rows, HasHIndex);
    assert rows[k] in kept;
    var j :| 0 <= j < |kept| && kept[j] == rows[k];
    assert CoerceAll(kept)[j] == Coerce(rows[k]);
    assert Coerce(rows[k]) in multiset(CoerceAll(kept));
    assert Coerce(rows[k]) in multiset(Items(GenerarRanking(rows).value));
  }

  /**
   * Three rows with an h-index and strictly decreasing (h-index, citations) come out in that
   * order, whichever order they are read in (here the reverse one).
   */
  lemma ThreeRowsRanked(a: CsvRow, b: CsvRow, c: CsvRow)
    requires HasHIndex(a) && HasHIndex(b) && HasHIndex(c)
    requires !GeKey(HCitationsKey(Coerce(b)), HCitationsKey(Coerce(a)))
    requires !GeKey(HCitationsKey(Coerce(c)), HCitationsKey(Coerce(b)))
    ensures GenerarRanking([c, b, a]).Some?
    ensures Items(GenerarRanking([c, b, a]).value) == [Coerce(a), Coerce(b), Coerce(c)]
  {
    var rows := [c, b, a];
    assert forall i :: 0 <= i < |rows| ==> HasHIndex(rows[i]);
    RankedItems(rows);
    SortedThree(Items(GenerarRanking(rows).value), CoerceAll(rows), Coerce(a), Coerce(b), Coerce(c));
  }

  /** When every row has an h-index, the ranking lists all of them, coerced, in non-increasing order. */
  lemma RankedItems(rows: seq<CsvRow>)
    requires |rows| > 0 && forall i :: 0 <= i < |rows| ==> HasHIndex(rows[i])
    ensures GenerarRanking(rows).Some?
    ensures multiset(Items(GenerarRanking(rows).value)) == multiset(CoerceAll(rows))
    ensures SortedDesc(Items(GenerarRanking(rows).value), HCitationsKey)
  {
    assert Filter(rows, HasHIndex) == rows by {
      FilterAll(rows, HasHIndex);
    }
    var g := GenerarRanking(rows).value;
    var r := Items(g);
    assert forall i :: 0 <= i < |r| ==> r[i] == g[i].item;
  }

  /** (10, 500), (10, 300), (8, 900): the tie on h-index is broken by citations. */
  lemma RankingOrderExample()
    ensures var a := CsvRow(Some("A"), None, Num(10), Num(500), Num(0));
            var b := CsvRow(Some("B"), None, Num(10), Num(300), Num(0));
            var c := CsvRow(Some("C"), None, Num(8), Num(900), Num(0));
            Items(GenerarRanking([c, b, a]).value) == [Coerce(a), Coerce(b), Coerce(c)]
  {
    var a := CsvRow(Some("A"), None, Num(10), Num(500), Num(0));
    var b := CsvRow(Some("B"), None, Num(10), Num(300), Num(0));
    var c := CsvRow(Some("C"), None, Num(8), Num(900), Num(0));
    ThreeRowsRanked(a, b, c);
  }

  /** A non-increasing list holding three rows of strictly decreasing keys lists them in that order. */
  lemma SortedThree(r: seq<RankRow>, xs: seq<RankRow>, x: RankRow, y: RankRow, z: RankRow)
    requires |xs| == 3 && xs[0] == z && xs[1] == y && xs[2] == x && multiset(r) == multiset(xs)
    requires SortedDesc(r, HCitationsKey)
    requires !GeKey(HCitationsKey(y), HCitationsKey(x)) && !GeKey(HCitationsKey(z), HCitationsKey(y))
             && !GeKey(HCitationsKey(z), HCitationsKey(x))
    ensures r == [x, y, z]
  {
    assert |r| == |multiset(r)| == |xs| == 3;
    assert x in multiset(r) && y in multiset(r) && z in multiset(r);
    var ix :| 0 <= ix < 3 && r[ix] == x;
    var iy :| 0 <= iy < 3 && r[iy] == y;
    var iz :| 0 <= iz < 3 && r[iz] == z;
    assert ix < iy && iy < iz;
  }
}
