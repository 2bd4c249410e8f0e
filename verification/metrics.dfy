/**
 * `MetricsCalculator` (`metrics.py`): cleaning of scraped author dicts, the consistency
 * index, the normalised impact score, the ranking and the per-interest top lists.
 */
module Metrics {
  import opened Wrappers
  import opened Text
  import opened Seqs
  import opened Cells
  import Records

  // ---------------------------------------------------------------- _clean_data

  /** One author dict as it enters the DataFrame; numeric columns may hold anything. */
  datatype RawAuthor = RawAuthor(
    scholarId: Option<string>,
    name: string,
    affiliation: Option<string>,
    emailDomain: Option<string>,
    interests: seq<string>,
    hIndex: Cell,
    hIndex5y: Cell,
    i10Index: Cell,
    i10Index5y: Cell,
    citations: Cell,
    citations5y: Cell)

  /** One author after `_clean_data`: the six numeric columns are integers. */
  datatype Author = Author(
    scholarId: Option<string>,
    name: string,
    affiliation: Option<string>,
    emailDomain: Option<string>,
    interests: seq<string>,
    hIndex: int,
    hIndex5y: int,
    i10Index: int,
    i10Index5y: int,
    citations: int,
    citations5y: int)

  /** A scraped record as it is handed to the calculator. */
  function FromRecord(a: Records.ScholarAuthor): RawAuthor
  {
    RawAuthor(Some(a.scholarId), a.name, Some(a.affiliation), Some(a.emailDomain), a.interests,
              Num(a.hIndex), Num(a.hIndex5y), Num(a.i10Index), Num(a.i10Index5y),
              Num(a.citations), Num(a.citations5y))
  }

  /** `pd.to_numeric(errors='coerce').fillna(0).astype(int)` on the six numeric columns. */
  function Coerce(a: RawAuthor): Author
  {
    Author(a.scholarId, a.name, a.affiliation, a.emailDomain, a.interests,
           ToInt(a.hIndex), ToInt(a.hIndex5y), ToInt(a.i10Index), ToInt(a.i10Index5y),
           ToInt(a.citations), ToInt(a.citations5y))
  }

  function ScholarIdOf(a: Author): Option<string> { a.scholarId }

  function RawIdOf(r: RawAuthor): Option<string> { r.scholarId }

  /** The DataFrame built from the dicts has a `scholar_id` column: some dict carries one. */
  predicate HasIdColumn(raws: seq<RawAuthor>)
  {
    exists i :: 0 <= i < |raws| && raws[i].scholarId.Some?
  }

  function CoerceAll(raws: seq<RawAuthor>): (r: seq<Author>)
    ensures |r| == |raws| && forall i :: 0 <= i < |raws| ==> r[i] == Coerce(raws[i])
  {
    seq(|raws|, i requires 0 <= i < |raws| => Coerce(raws[i]))
  }

  /**
   * `_clean_data`: coerce the numeric columns, then, when the table has a `scholar_id`
   * column, keep the first row per `scholar_id`.
   */
  function CleanData(raws: seq<RawAuthor>): seq<Author>
  {
    if HasIdColumn(raws) then DedupBy(CoerceAll(raws), ScholarIdOf) else CoerceAll(raws)
  }

  /** Without a `scholar_id` column nothing is dropped: every row is kept, coerced, in order. */
  lemma CleanDataWithoutIds(raws: seq<RawAuthor>)
    requires !HasIdColumn(raws)
    ensures |CleanData(raws)| == |raws|
    ensures forall i :: 0 <= i < |raws| ==> CleanData(raws)[i] == Coerce(raws[i])
  {
  }

  /** A scraped record goes through coercion with its metrics unchanged. */
  lemma CoerceKeepsRecordMetrics(a: Records.ScholarAuthor)
    ensures Coerce(FromRecord(a)).hIndex == a.hIndex && Coerce(FromRecord(a)).hIndex5y == a.hIndex5y
    ensures Coerce(FromRecord(a)).i10Index == a.i10Index && Coerce(FromRecord(a)).i10Index5y == a.i10Index5y
    ensures Coerce(FromRecord(a)).citations == a.citations && Coerce(FromRecord(a)).citations5y == a.citations5y
  {
  }

  /**
   * After `_clean_data` at most one row exists per `scholar_id`; every id of the input is
   * kept; each kept row is the coerced FIRST input row with that id; and a numeric cell
   * that is missing or does not read as a number became 0.
   */
  lemma CleanDataFacts(raws: seq<RawAuthor>, k: nat)
    requires HasIdColumn(raws) && k < |CleanData(raws)|
    ensures UniqueKeys(CleanData(raws), ScholarIdOf)
    ensures KeysOf(CleanData(raws), ScholarIdOf) == KeysOf(raws, RawIdOf)
    ensures exists i :: 0 <= i < |raws| && CleanData(raws)[k] == Coerce(raws[i])
                    && forall j :: 0 <= j < i ==> raws[j].scholarId != raws[i].scholarId
    ensures forall i :: 0 <= i < |raws| && CleanData(raws)[k] == Coerce(raws[i]) &&
              (raws[i].hIndex.Missing? || (raws[i].hIndex.Str? && ToNumeric(raws[i].hIndex.s).None?))
              ==> CleanData(raws)[k].hIndex == 0
  {
    DedupCoercedFacts(raws, CoerceAll(raws), CleanData(raws), k);
  }

  /** The facts of `CleanDataFacts` for the keep-first de-duplication of the coerced rows. */
  lemma DedupCoercedFacts(raws: seq<RawAuthor>, coerced: seq<Author>, clean: seq<Author>, k: nat)
    requires |coerced| == |raws| && forall i :: 0 <= i < |raws| ==> coerced[i] == Coerce(raws[i])
    requires clean == DedupBy(coerced, ScholarIdOf) && k < |clean|
    ensures UniqueKeys(clean, ScholarIdOf)
    ensures KeysOf(clean, ScholarIdOf) == KeysOf(raws, RawIdOf)
    ensures exists i :: 0 <= i < |raws| && clean[k] == Coerce(raws[i])
                    && forall j :: 0 <= j < i ==> raws[j].scholarId != raws[i].scholarId
  {
    DedupFacts(coerced, ScholarIdOf);
    assert KeysOf(coerced, ScholarIdOf) == KeysOf(raws, RawIdOf) by {
      forall id | id in KeysOf(coerced, ScholarIdOf) ensures id in KeysOf(raws, RawIdOf) {
        var c :| c in coerced && ScholarIdOf(c) == id;
        var i :| 0 <= i < |coerced| && coerced[i] == c;
        assert raws[i] in raws;
      }
      forall id | id in KeysOf(raws, RawIdOf) ensures id in KeysOf(coerced, ScholarIdOf) {
        var r :| r in raws && r.scholarId == id;
        var i :| 0 <= i < |raws| && raws[i] == r;
        assert coerced[i] in coerced;
      }
    }
    DedupKeepsFirst(coerced, ScholarIdOf, k);
    var i :| 0 <= i < |coerced| && coerced[i] == clean[k]
             && forall j :: 0 <= j < i ==> ScholarIdOf(coerced[j]) != ScholarIdOf(coerced[i]);
    assert forall j :: 0 <= j < i ==> raws[j].scholarId == ScholarIdOf(coerced[j]);
  }

  // ---------------------------------------------------------------- calculate_consistency_index

  /** The +20 bucket for a coherent h-index: h > 0, cites > 0 and cites >= h*h/2. */
  predicate Coherente(h: int, cites: int)
  {
    h > 0 && cites > 0 && 2 * cites >= h * h
  }

  /** `calculate_consistency_index` for one row: five independent +20 buckets. */
  function ConsistencyIndex(a: Author): (score: int)
    ensures 0 <= score <= 100 && score % 20 == 0
    ensures Coherente(a.hIndex, a.citations) ==> score >= 20
    ensures a.hIndex5y > 0 ==> score >= 20
  {
    (if a.affiliation.Some? && |a.affiliation.value| > 5 then 20 else 0)
    + (if |a.interests| > 0 then 20 else 0)
    + (if a.emailDomain.Some? && |a.emailDomain.value| > 3 then 20 else 0)
    + (if a.hIndex > 0 && a.citations > 0 && (a.citations as real) >= ((a.hIndex * a.hIndex) as real) * 0.5 then 20 else 0)
    + (if a.hIndex5y > 0 then 20 else 0)
  }

  /** The index is one of 0, 20, 40, 60, 80, 100. */
  lemma ConsistencyIndexValues(a: Author)
    ensures ConsistencyIndex(a) in {0, 20, 40, 60, 80, 100}
  {
    var s := ConsistencyIndex(a);
    assert s == 0 || s == 20 || s == 40 || s == 60 || s == 80 || s == 100;
  }

  /** The coherence test `cites >= h*h*0.5` is exactly the integer test `2*cites >= h*h`. */
  lemma CoherenceBucket(a: Author)
    ensures (a.hIndex > 0 && a.citations > 0 && (a.citations as real) >= ((a.hIndex * a.hIndex) as real) * 0.5)
            <==> Coherente(a.hIndex, a.citations)
  {
  }

  /** A profile with every bucket filled scores 100; with none, 0. */
  lemma ConsistencyIndexExtremes(a: Author)
    ensures a.affiliation.Some? && |a.affiliation.value| > 5 && |a.interests| > 0
            && a.emailDomain.Some? && |a.emailDomain.value| > 3
            && Coherente(a.hIndex, a.citations) && a.hIndex5y > 0
            ==> ConsistencyIndex(a) == 100
    ensures (a.affiliation.None? || |a.affiliation.value| <= 5) && |a.interests| == 0
            && (a.emailDomain.None? || |a.emailDomain.value| <= 3)
            && !Coherente(a.hIndex, a.citations) && a.hIndex5y <= 0
            ==> ConsistencyIndex(a) == 0
  {
  }

  // ---------------------------------------------------------------- calculate_impact_score

  function MinOf(xs: seq<int>): (m: int)
    requires |xs| > 0
    ensures m in xs && forall i :: 0 <= i < |xs| ==> m <= xs[i]
  {
    if |xs| == 1 then xs[0]
    else
      var rest := MinOf(xs[1..]);
      assert forall i :: 1 <= i < |xs| ==> xs[i] == xs[1..][i - 1];
      if xs[0] <= rest then xs[0] else rest
  }

  function MaxOf(xs: seq<int>): (m: int)
    requires |xs| > 0
    ensures m in xs && forall i :: 0 <= i < |xs| ==> m >= xs[i]
  {
    if |xs| == 1 then xs[0]
    else
      var rest := MaxOf(xs[1..]);
      assert forall i :: 1 <= i < |xs| ==> xs[i] == xs[1..][i - 1];
      if xs[0] >= rest then xs[0] else rest
  }

  /** One value rescaled to 0..100 against the column's range. */
  function Scale(x: int, lo: int, hi: int): (r: real)
    requires lo < hi && lo <= x <= hi
    ensures 0.0 <= r <= 100.0
    ensures r == 0.0 <==> x == lo
    ensures r == 100.0 <==> x == hi
  {
    var num := (x - lo) as real;
    var den := (hi - lo) as real;
    assert 0.0 <= num <= den;
    assert num / den <= 1.0 by {
      assert num <= den;
    }
    assert num / den == 1.0 ==> num == den;
    (num / den) * 100.0
  }

  /**
   * `normalize`: a constant column maps to 50 everywhere; otherwise every value lands in
   * 0..100, with the column minimum at 0 and the maximum at 100. An empty column stays empty.
   */
  function Normalize(xs: seq<int>): (r: seq<real>)
    ensures |r| == |xs|
    ensures forall i :: 0 <= i < |r| ==> 0.0 <= r[i] <= 100.0
    ensures |xs| > 0 && MinOf(xs) == MaxOf(xs) ==> forall i :: 0 <= i < |r| ==> r[i] == 50.0
    ensures |xs| > 0 && MinOf(xs) < MaxOf(xs) ==>
              forall i :: 0 <= i < |r| ==> (r[i] == 0.0 <==> xs[i] == MinOf(xs)) && (r[i] == 100.0 <==> xs[i] == MaxOf(xs))
  {
    if |xs| == 0 then []
    else
      var lo := MinOf(xs);
      var hi := MaxOf(xs);
      if hi == lo then seq(|xs|, i => 50.0)
      else seq(|xs|, i requires 0 <= i < |xs| => Scale(xs[i], lo, hi))
  }

  /** `h_norm * 0.4 + cites_norm * 0.3 + h5y_norm * 0.2 + i10_norm * 0.1`, without the final rounding. */
  function Weighted(h: real, c: real, h5: real, i10: real): real
  {
    h * 0.4 + c * 0.3 + h5 * 0.2 + i10 * 0.1
  }

  function HIndexColumn(as_: seq<Author>): (r: seq<int>)
    ensures |r| == |as_| && forall i :: 0 <= i < |as_| ==> r[i] == as_[i].hIndex
  { seq(|as_|, i requires 0 <= i < |as_| => as_[i].hIndex) }

  function CitationsColumn(as_: seq<Author>): (r: seq<int>)
    ensures |r| == |as_| && forall i :: 0 <= i < |as_| ==> r[i] == as_[i].citations
  { seq(|as_|, i requires 0 <= i < |as_| => as_[i].citations) }

  function HIndex5yColumn(as_: seq<Author>): (r: seq<int>)
    ensures |r| == |as_| && forall i :: 0 <= i < |as_| ==> r[i] == as_[i].hIndex5y
  { seq(|as_|, i requires 0 <= i < |as_| => as_[i].hIndex5y) }

  function I10Column(as_: seq<Author>): (r: seq<int>)
    ensures |r| == |as_| && forall i :: 0 <= i < |as_| ==> r[i] == as_[i].i10Index
  { seq(|as_|, i requires 0 <= i < |as_| => as_[i].i10Index) }

  /** `calculate_impact_score`: every score lies in 0..100. */
  function ImpactScores(as_: seq<Author>): (r: seq<real>)
    ensures |r| == |as_|
    ensures forall i :: 0 <= i < |r| ==> 0.0 <= r[i] <= 100.0
  {
    var h := Normalize(HIndexColumn(as_));
    var c := Normalize(CitationsColumn(as_));
    var h5 := Normalize(HIndex5yColumn(as_));
    var i10 := Normalize(I10Column(as_));
    seq(|as_|, i requires 0 <= i < |as_| => Weighted(h[i], c[i], h5[i], i10[i]))
  }

  /** A column whose values are all equal. */
  predicate Constant(xs: seq<int>)
  {
    forall i :: 0 <= i < |xs| ==> xs[i] == xs[0]
  }

  lemma ConstantMinMax(xs: seq<int>)
    requires |xs| > 0 && Constant(xs)
    ensures MinOf(xs) == MaxOf(xs)
  {
  }

  /** When all four metrics are constant across the batch, every author scores exactly 50. */
  lemma ImpactConstantBatch(as_: seq<Author>)
    requires Constant(HIndexColumn(as_)) && Constant(CitationsColumn(as_))
    requires Constant(HIndex5yColumn(as_)) && Constant(I10Column(as_))
    ensures forall i :: 0 <= i < |as_| ==> ImpactScores(as_)[i] == 50.0
  {
    if |as_| > 0 {
      ConstantMinMax(HIndexColumn(as_));
      ConstantMinMax(CitationsColumn(as_));
      ConstantMinMax(HIndex5yColumn(as_));
      ConstantMinMax(I10Column(as_));
    }
  }

  /** The author with the top value in every metric (in a batch where each varies) scores 100. */
  lemma ImpactTopAuthor(as_: seq<Author>, i: nat)
    requires i < |as_|
    requires MinOf(HIndexColumn(as_)) < MaxOf(HIndexColumn(as_)) && as_[i].hIndex == MaxOf(HIndexColumn(as_))
    requires MinOf(CitationsColumn(as_)) < MaxOf(CitationsColumn(as_)) && as_[i].citations == MaxOf(CitationsColumn(as_))
    requires MinOf(HIndex5yColumn(as_)) < MaxOf(HIndex5yColumn(as_)) && as_[i].hIndex5y == MaxOf(HIndex5yColumn(as_))
    requires MinOf(I10Column(as_)) < MaxOf(I10Column(as_)) && as_[i].i10Index == MaxOf(I10Column(as_))
    ensures ImpactScores(as_)[i] == 100.0
  {
  }

  // ---------------------------------------------------------------- generate_ranking

  /** The integer columns `generate_ranking` can sort by. */
  datatype SortColumn = ByHIndex | ByHIndex5y | ByI10Index | ByI10Index5y | ByCitations | ByCitations5y | ByCIndex

  /** A ranked author with the two computed columns. */
  datatype Scored = Scored(author: Author, cIndex: int, impactScore: real)

  function ColumnValue(s: Scored, col: SortColumn): int
  {
    match col
    case ByHIndex => s.author.hIndex
    case ByHIndex5y => s.author.hIndex5y
    case ByI10Index => s.author.i10Index
    case ByI10Index5y => s.author.i10Index5y
    case ByCitations => s.author.citations
    case ByCitations5y => s.author.citations5y
    case ByCIndex => s.cIndex
  }

  /** The `[sort_by, 'citations']` key; negated for an ascending sort. */
  function RankKey(s: Scored, col: SortColumn, ascending: bool): (int, int)
  {
    if ascending then (-ColumnValue(s, col), -s.author.citations)
    else (ColumnValue(s, col), s.author.citations)
  }

  /** Both computed columns, row by row. */
  function ScoreAll(as_: seq<Author>): (r: seq<Scored>)
    ensures |r| == |as_|
    ensures forall i :: 0 <= i < |r| ==> r[i].author == as_[i] && r[i].cIndex == ConsistencyIndex(as_[i])
  {
    var impact := ImpactScores(as_);
    seq(|as_|, i requires 0 <= i < |as_| => Scored(as_[i], ConsistencyIndex(as_[i]), impact[i]))
  }

  /** Lexicographic order on (sort column, citations) in the requested direction. */
  predicate InRankOrder(a: Scored, b: Scored, col: SortColumn, ascending: bool)
  {
    if ascending then
      ColumnValue(a, col) < ColumnValue(b, col) || (ColumnValue(a, col) == ColumnValue(b, col) && a.author.citations <= b.author.citations)
    else
      ColumnValue(a, col) > ColumnValue(b, col) || (ColumnValue(a, col) == ColumnValue(b, col) && a.author.citations >= b.author.citations)
  }

  /**
   * `generate_ranking`: the cleaned authors, scored, ordered by (sort column, citations)
   * in the requested direction and numbered 1..n. An empty author list has no columns,
   * so the source raises there; that is `None`.
   */
  function GenerateRanking(raws: seq<RawAuthor>, col: SortColumn, ascending: bool): (r: Option<seq<Ranked<Scored>>>)
    ensures r.None? <==> |raws| == 0
    ensures r.Some? ==> |r.value| == |CleanData(raws)|
    ensures r.Some? ==> forall i :: 0 <= i < |r.value| ==> r.value[i].rank == i + 1
    ensures r.Some? ==> forall i, j :: 0 <= i < j < |r.value| ==> InRankOrder(r.value[i].item, r.value[j].item, col, ascending)
    ensures r.Some? ==> multiset(Items(r.value)) == multiset(ScoreAll(CleanData(raws)))
  {
    if |raws| == 0 then None
    else
      var scored := ScoreAll(CleanData(raws));
      var sorted := SortDesc(scored, RankKeyOf(col, ascending));
      var ranked := AssignRanks(sorted);
      RankedFacts(scored, col, ascending, sorted, ranked);
      Some(ranked)
  }

  function RankKeyOf(col: SortColumn, ascending: bool): Scored -> (int, int)
  {
    s => RankKey(s, col, ascending)
  }

  /** Numbering a list sorted by the rank key gives ranks 1..n in rank order, with the same rows. */
  lemma RankedFacts(scored: seq<Scored>, col: SortColumn, ascending: bool, sorted: seq<Scored>, ranked: seq<Ranked<Scored>>)
    requires multiset(sorted) == multiset(scored) && SortedDesc(sorted, RankKeyOf(col, ascending))
    requires ranked == AssignRanks(sorted)
    ensures |ranked| == |scored|
    ensures forall i :: 0 <= i < |ranked| ==> ranked[i].rank == i + 1
    ensures forall i, j :: 0 <= i < j < |ranked| ==> InRankOrder(ranked[i].item, ranked[j].item, col, ascending)
    ensures multiset(Items(ranked)) == multiset(scored)
  {
    assert Items(ranked) == sorted;
    assert |sorted| == |multiset(sorted)| == |scored|;
    forall i, j | 0 <= i < j < |ranked|
      ensures InRankOrder(ranked[i].item, ranked[j].item, col, ascending)
    {
      assert GeKey(RankKeyOf(col, ascending)(sorted[i]), RankKeyOf(col, ascending)(sorted[j]));
    }
  }

  // ---------------------------------------------------------------- get_top_by_discipline

  /** Every interest of every author, lowercased, author after author. */
  function AllInterests(as_: seq<Author>): seq<string>
  {
    if |as_| == 0 then []
    else seq(|as_[0].interests|, j requires 0 <= j < |as_[0].interests| => Lower(as_[0].interests[j])) + AllInterests(as_[1..])
  }

  /** How often an interest occurs: `Counter(all_interests)[k]`. */
  function Count(xs: seq<string>, k: string): nat
  {
    multiset(xs)[k]
  }

  function Itself(k: string): string { k }

  function Interest(p: (string, int)): string { p.0 }

  /** An (interest, count) pair is ordered by its count alone. */
  function CountKey(p: (string, int)): (int, int) { (p.1, 0) }

  /** Each distinct interest paired with its number of occurrences, in first-seen order. */
  function Counted(all: seq<string>): (r: seq<(string, int)>)
    ensures UniqueKeys(r, Interest)
    ensures forall i :: 0 <= i < |r| ==> r[i].1 == Count(all, r[i].0) && r[i].0 in all
    ensures forall k :: k in all ==> (k, Count(all, k) as int) in r
  {
    var distinct := DedupBy(all, Itself);
    DedupFacts(all, Itself);
    SubseqMembers(distinct, all);
    var r := seq(|distinct|, i requires 0 <= i < |distinct| => (distinct[i], Count(all, distinct[i]) as int));
    forall k | k in all ensures (k, Count(all, k) as int) in r {
      assert Itself(k) in KeysOf(all, Itself);
      var x :| x in distinct && Itself(x) == k;
      var p :| 0 <= p < |distinct| && distinct[p] == x;
      assert r[p] == (k, Count(all, k) as int);
    }
    r
  }

  /**
   * `Counter(all_interests).most_common(limit)`: distinct interests with their counts, most
   * frequent first. An interest is left out only when the list is already full, and then it
   * is no more frequent than the last one listed.
   */
  function MostCommon(all: seq<string>, limit: int): (r: seq<(string, int)>)
    ensures |r| <= if limit <= 0 then 0 else limit
    ensures forall i :: 0 <= i < |r| ==> r[i].1 == Count(all, r[i].0) && r[i].0 in all
    ensures forall i, j :: 0 <= i < j < |r| ==> r[i].0 != r[j].0 && r[i].1 >= r[j].1
  {
    if limit <= 0 then []
    else
      var counted := Counted(all);
      var sorted := SortDesc(counted, CountKey);
      var r := SliceTo(sorted, limit);
      MostCommonFacts(all, counted, sorted, r);
      r
  }

  /**
   * An interest is left out of `most_common(limit)` only when the list is already full,
   * and then it is no more frequent than the last one listed.
   */
  lemma MostCommonLeftOut(all: seq<string>, limit: int, k: string)
    requires k in all
    ensures var r := MostCommon(all, limit);
            (forall i :: 0 <= i < |r| ==> r[i].0 != k) ==>
              |r| == (if limit <= 0 then 0 else limit) && (|r| > 0 ==> Count(all, k) <= r[|r| - 1].1)
  {
    if limit > 0 {
      var counted := Counted(all);
      var sorted := SortDesc(counted, CountKey);
      var r := SliceTo(sorted, limit);
      assert MostCommon(all, limit) == r;
      MostCommonFacts(all, counted, sorted, r);
    }
  }

  /** The facts `MostCommon` states, for a prefix of the counts sorted by count. */
  lemma MostCommonFacts(all: seq<string>, counted: seq<(string, int)>, sorted: seq<(string, int)>, r: seq<(string, int)>)
    requires UniqueKeys(counted, Interest)
    requires forall i :: 0 <= i < |counted| ==> counted[i].1 == Count(all, counted[i].0) && counted[i].0 in all
    requires forall k :: k in all ==> (k, Count(all, k) as int) in counted
    requires multiset(sorted) == multiset(counted) && SortedDesc(sorted, CountKey) && r <= sorted
    ensures forall i :: 0 <= i < |r| ==> r[i].1 == Count(all, r[i].0) && r[i].0 in all
    ensures forall i, j :: 0 <= i < j < |r| ==> r[i].0 != r[j].0 && r[i].1 >= r[j].1
    ensures forall k :: k in all && (forall i :: 0 <= i < |r| ==> r[i].0 != k) ==>
              |r| < |sorted| && (|r| > 0 ==> Count(all, k) <= r[|r| - 1].1)
  {
    forall i | 0 <= i < |r|
      ensures r[i].1 == Count(all, r[i].0) && r[i].0 in all
    {
      assert r[i] == sorted[i];
      assert sorted[i] in multiset(counted);
    }
    assert UniqueKeys(sorted, Interest) by {
      PermutationKeepsUnique(counted, sorted, Interest);
    }
    forall i, j | 0 <= i < j < |r|
      ensures r[i].0 != r[j].0 && r[i].1 >= r[j].1
    {
      assert r[i] == sorted[i] && r[j] == sorted[j];
      assert GeKey(CountKey(sorted[i]), CountKey(sorted[j]));
    }
    forall k | k in all && (forall i :: 0 <= i < |r| ==> r[i].0 != k)
      ensures |r| < |sorted| && (|r| > 0 ==> Count(all, k) <= r[|r| - 1].1)
    {
      var pair := (k, Count(all, k) as int);
      assert pair in multiset(counted);
      assert pair in multiset(sorted);
      LeftOutComesLater(sorted, r, pair);
    }
  }

  /** A pair of the sorted counts missing from a prefix of them sits after it, with no larger count. */
  lemma LeftOutComesLater(sorted: seq<(string, int)>, r: seq<(string, int)>, pair: (string, int))
    requires pair in sorted && SortedDesc(sorted, CountKey) && r <= sorted
    requires forall i :: 0 <= i < |r| ==> r[i].0 != pair.0
    ensures |r| < |sorted| && (|r| > 0 ==> pair.1 <= r[|r| - 1].1)
  {
    var q :| 0 <= q < |sorted| && sorted[q] == pair;
    assert q >= |r|;
    if |r| > 0 {
      assert GeKey(CountKey(sorted[|r| - 1]), CountKey(sorted[q]));
    }
  }

  /** The mask of the source: some interest of the author contains `interest` after lowercasing. */
  predicate MatchesInterest(a: Author, interest: string)
  {
    exists j :: 0 <= j < |a.interests| && IsSubstring(interest, Lower(a.interests[j]))
  }

  function HKey(a: Author): (int, int) { (a.hIndex, 0) }

  /**
   * `nlargest(n, 'h_index')`: the n rows with the largest h-index, largest first: as many
   * rows as asked for (all of them when fewer), taken from the input, and any row with a
   * larger h-index than the last one listed is listed.
   */
  function NLargestByH(xs: seq<Author>, n: int): (r: seq<Author>)
    ensures |r| == if n <= 0 then 0 else if n < |xs| then n else |xs|
    ensures forall i, j :: 0 <= i < j < |r| ==> r[i].hIndex >= r[j].hIndex
    ensures |r| > 0 ==> forall i :: 0 <= i < |xs| && xs[i].hIndex > r[|r| - 1].hIndex ==> xs[i] in r
    ensures forall i :: 0 <= i < |r| ==> r[i] in xs
  {
    if n <= 0 then []
    else
      var sorted := SortDesc(xs, HKey);
      var r := SliceTo(sorted, n);
      NLargestFacts(xs, sorted, r);
      r
  }

  /** `nlargest` lists each input row at most as often as it occurs. */
  lemma NLargestIsSubMultiset(xs: seq<Author>, n: int)
    ensures multiset(NLargestByH(xs, n)) <= multiset(xs)
  {
    if n > 0 {
      var sorted := SortDesc(xs, HKey);
      var r := SliceTo(sorted, n);
      assert sorted == r + sorted[|r|..];
    }
  }

  /** What a prefix of the rows sorted by h-index holds. */
  lemma NLargestFacts(xs: seq<Author>, sorted: seq<Author>, r: seq<Author>)
    requires multiset(sorted) == multiset(xs) && SortedDesc(sorted, HKey) && r <= sorted
    ensures forall i, j :: 0 <= i < j < |r| ==> r[i].hIndex >= r[j].hIndex
    ensures |r| > 0 ==> forall i :: 0 <= i < |xs| && xs[i].hIndex > r[|r| - 1].hIndex ==> xs[i] in r
    ensures forall i :: 0 <= i < |r| ==> r[i] in xs
  {
    forall i, j | 0 <= i < j < |r|
      ensures r[i].hIndex >= r[j].hIndex
    {
      assert r[i] == sorted[i] && r[j] == sorted[j];
      assert GeKey(HKey(sorted[i]), HKey(sorted[j]));
    }
    forall i | 0 <= i < |xs| && |r| > 0 && xs[i].hIndex > r[|r| - 1].hIndex
      ensures xs[i] in r
    {
      assert xs[i] in multiset(sorted);
      LargerInPrefix(sorted, r, HKey, xs[i]);
    }
    forall i | 0 <= i < |r|
      ensures r[i] in xs
    {
      assert r[i] in multiset(xs);
    }
  }

  /** The authors the mask of one interest selects, in batch order. */
  function Matching(as_: seq<Author>, interest: string): (r: seq<Author>)
    ensures forall a :: a in r <==> a in as_ && MatchesInterest(a, interest)
  {
    Filter(as_, (a: Author) => MatchesInterest(a, interest))
  }

  /** The top list for one interest. */
  function TopFor(as_: seq<Author>, interest: string, n: int): seq<Author>
  {
    NLargestByH(Matching(as_, interest), n)
  }

  /** The top list of every interest, for a fixed batch and list length. */
  function TopsOf(as_: seq<Author>, n: int): string -> seq<Author>
  {
    k => TopFor(as_, k, n)
  }

  /**
   * The loop over the most common interests, filling the result dict: an interest gets an
   * entry exactly when it is counted at least three times and its top list is not empty.
   */
  function TopLists(common: seq<(string, int)>, top: string -> seq<Author>): (m: map<string, seq<Author>>)
    ensures |m.Keys| <= |common|
    ensures forall k :: k in m ==> exists i :: 0 <= i < |common| && common[i].0 == k && common[i].1 >= 3
    ensures forall k :: k in m ==> m[k] == top(k) && |m[k]| > 0
    ensures forall i :: 0 <= i < |common| && common[i].1 >= 3 && |top(common[i].0)| > 0 ==> common[i].0 in m
  {
    if |common| == 0 then map[]
    else
      var init := common[..|common| - 1];
      var last := common[|common| - 1];
      var m := TopLists(init, top);
      assert forall i :: 0 <= i < |init| ==> init[i] == common[i];
      var r := if last.1 >= 3 && |top(last.0)| > 0 then m[last.0 := top(last.0)] else m;
      TopListsStep(common, m, top, r);
      r
  }

  /** One more interest keeps every earlier entry and adds the new one when it qualifies. */
  lemma TopListsStep(common: seq<(string, int)>, m: map<string, seq<Author>>, top: string -> seq<Author>,
                     r: map<string, seq<Author>>)
    requires |common| > 0
    requires forall i :: 0 <= i < |common| - 1 && common[i].1 >= 3 && |top(common[i].0)| > 0 ==> common[i].0 in m
    requires var last := common[|common| - 1];
             r == if last.1 >= 3 && |top(last.0)| > 0 then m[last.0 := top(last.0)] else m
    ensures forall i :: 0 <= i < |common| && common[i].1 >= 3 && |top(common[i].0)| > 0 ==> common[i].0 in r
  {
  }

  /** An interest some author lists is matched, as a substring, by that author. */
  lemma {:induction false} InterestMatches(as_: seq<Author>, k: string)
    requires k in AllInterests(as_)
    ensures exists a :: a in as_ && MatchesInterest(a, k)
    decreases |as_|
  {
    var first := seq(|as_[0].interests|, j requires 0 <= j < |as_[0].interests| => Lower(as_[0].interests[j]));
    assert AllInterests(as_) == first + AllInterests(as_[1..]);
    if k in first {
      var j :| 0 <= j < |first| && first[j] == k;
      assert IsSubstring(k, Lower(as_[0].interests[j]));
      assert MatchesInterest(as_[0], k);
    } else {
      InterestMatches(as_[1..], k);
      var a :| a in as_[1..] && MatchesInterest(a, k);
      assert a in as_;
    }
  }

  /** With room for at least one author, an interest listed often enough has a non-empty top list. */
  lemma FrequentHaveLists(as_: seq<Author>, common: seq<(string, int)>, n: int)
    requires forall i :: 0 <= i < |common| ==> common[i].0 in AllInterests(as_)
    ensures n > 0 ==> forall i :: 0 <= i < |common| ==> |TopFor(as_, common[i].0, n)| > 0
  {
    if n > 0 {
      forall i | 0 <= i < |common|
        ensures |TopFor(as_, common[i].0, n)| > 0
      {
        var k := common[i].0;
        InterestMatches(as_, k);
        var a :| a in as_ && MatchesInterest(a, k);
        var matching := Filter(as_, (a: Author) => MatchesInterest(a, k));
        assert a in matching;
      }
    }
  }

  /**
   * `get_top_by_discipline`: at most 15 interests, each occurring (lowercased) at least
   * three times, each mapped to a non-empty list of at most n matching authors of the
   * batch, by h-index descending.
   */
  function GetTopByDiscipline(as_: seq<Author>, n: int): (m: map<string, seq<Author>>)
    ensures |m.Keys| <= 15
    ensures forall k :: k in m ==> Count(AllInterests(as_), k) >= 3
    ensures forall k :: k in m ==> 0 < |m[k]| && (n >= 0 ==> |m[k]| <= n)
    ensures forall k :: k in m ==> forall i :: 0 <= i < |m[k]| ==> m[k][i] in as_ && MatchesInterest(m[k][i], k)
    ensures forall k :: k in m ==> forall i, j :: 0 <= i < j < |m[k]| ==> m[k][i].hIndex >= m[k][j].hIndex
    ensures n > 0 ==> var common := MostCommon(AllInterests(as_), 15);
                      forall k :: k in m <==> exists i :: 0 <= i < |common| && common[i].0 == k && common[i].1 >= 3
  {
    var common := MostCommon(AllInterests(as_), 15);
    var m := TopLists(common, TopsOf(as_, n));
    TopListsFacts(as_, n, common, m);
    m
  }

  /**
   * Each list of the dict is the top n of its interest: as many matching authors as asked
   * for (all of them when fewer), none listed more often than it occurs, and every matching
   * author with a larger h-index than the last one listed is listed.
   */
  lemma GetTopByDisciplineIsTopN(as_: seq<Author>, n: int, k: string)
    requires k in GetTopByDiscipline(as_, n)
    ensures var top := GetTopByDiscipline(as_, n)[k];
            var matching := Matching(as_, k);
            && 0 < |top|
            && |top| == (if n < |matching| then n else |matching|)
            && multiset(top) <= multiset(matching)
            && forall a :: a in as_ && MatchesInterest(a, k) && a.hIndex > top[|top| - 1].hIndex ==> a in top
  {
    EntryIsTopFor(as_, n, k);
    TopForIsTopN(as_, k, n);
  }

  /** The entry of an interest is that interest's top list. */
  lemma EntryIsTopFor(as_: seq<Author>, n: int, k: string)
    requires k in GetTopByDiscipline(as_, n)
    ensures GetTopByDiscipline(as_, n)[k] == TopFor(as_, k, n)
  {
    var common := MostCommon(AllInterests(as_), 15);
    assert GetTopByDiscipline(as_, n) == TopLists(common, TopsOf(as_, n));
  }

  lemma TopForIsTopN(as_: seq<Author>, k: string, n: int)
    requires |TopFor(as_, k, n)| > 0
    ensures var top := TopFor(as_, k, n);
            var matching := Matching(as_, k);
            && |top| == (if n < |matching| then n else |matching|)
            && multiset(top) <= multiset(matching)
            && forall a :: a in as_ && MatchesInterest(a, k) && a.hIndex > top[|top| - 1].hIndex ==> a in top
  {
    var matching := Matching(as_, k);
    var top := NLargestByH(matching, n);
    NLargestIsSubMultiset(matching, n);
    forall a | a in as_ && MatchesInterest(a, k) && a.hIndex > top[|top| - 1].hIndex
      ensures a in top
    {
      var i :| 0 <= i < |matching| && matching[i] == a;
    }
  }

  /** What the dict holds, for a list of interests each paired with its count. */
  lemma TopListsFacts(as_: seq<Author>, n: int, common: seq<(string, int)>, m: map<string, seq<Author>>)
    requires forall i :: 0 <= i < |common| ==> common[i].1 == Count(AllInterests(as_), common[i].0) && common[i].0 in AllInterests(as_)
    requires m == TopLists(common, TopsOf(as_, n))
    ensures |m.Keys| <= |common|
    ensures forall k :: k in m ==> Count(AllInterests(as_), k) >= 3
    ensures forall k :: k in m ==> 0 < |m[k]| && (n >= 0 ==> |m[k]| <= n)
    ensures forall k :: k in m ==> forall i :: 0 <= i < |m[k]| ==> m[k][i] in as_ && MatchesInterest(m[k][i], k)
    ensures forall k :: k in m ==> forall i, j :: 0 <= i < j < |m[k]| ==> m[k][i].hIndex >= m[k][j].hIndex
    ensures n > 0 ==> forall k :: k in m <==> exists i :: 0 <= i < |common| && common[i].0 == k && common[i].1 >= 3
  {
    assert forall k :: TopsOf(as_, n)(k) == TopFor(as_, k, n);
    FrequentHaveLists(as_, common, n);
    TopForMembers(as_, n);
  }

  /** A top list holds authors of the batch that have the interest. */
  lemma TopForMembers(as_: seq<Author>, n: int)
    ensures forall k, i :: 0 <= i < |TopFor(as_, k, n)| ==> TopFor(as_, k, n)[i] in as_ && MatchesInterest(TopFor(as_, k, n)[i], k)
  {
    forall k, i | 0 <= i < |TopFor(as_, k, n)|
      ensures TopFor(as_, k, n)[i] in as_ && MatchesInterest(TopFor(as_, k, n)[i], k)
    {
      var matching := Filter(as_, (a: Author) => MatchesInterest(a, k));
      var top := TopFor(as_, k, n);
      assert top[i] in matching;
      var j :| 0 <= j < |matching| && matching[j] == top[i];
    }
  }
}
