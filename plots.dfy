/** What `generate_plots` computes before it draws: the yearly totals and
    their analysis (grand total, first and last year, correlation, trend and
    strength), the top-10 stations, the top-15 alcaldías and the per-line
    totals, each with the percentages printed on its bars. */
module Plots {
  import opened Wrappers
  import opened Keys
  import opened Groups
  import opened Loader
  import opened Correlation

  /** The group key of a year: the integer column `año`. */
  function YearKey(year: int): Key {
    Num(year as real)
  }

  /** `df['robos'].sum()` */
  function TotalRobos(df: seq<Record>): real {
    if df == [] then 0.0 else TotalRobos(df[..|df| - 1]) + df[|df| - 1].robos
  }

  /** `es` pairs each row of `df`, in order, with that row's count. */
  predicate CountsOf(es: seq<Entry>, df: seq<Record>) {
    |es| == |df| && forall i :: 0 <= i < |df| ==> es[i].count == df[i].robos
  }

  lemma {:induction false} SumCountsIsTotal(es: seq<Entry>, df: seq<Record>)
    requires CountsOf(es, df)
    ensures SumCounts(es) == TotalRobos(df)
  {
    if df != [] {
      var n := |df| - 1;
      assert CountsOf(es[..n], df[..n]);
      SumCountsIsTotal(es[..n], df[..n]);
    }
  }

  function YearEntries(df: seq<Record>): (es: seq<Entry>)
    ensures |es| == |df|
    ensures forall i :: 0 <= i < |df| ==> es[i] == Entry(YearKey(df[i].year), df[i].robos)
  {
    seq(|df|, i requires 0 <= i < |df| => Entry(YearKey(df[i].year), df[i].robos))
  }

  function StationEntries(df: seq<Record>): (es: seq<Entry>)
    ensures |es| == |df|
    ensures forall i :: 0 <= i < |df| ==> es[i] == Entry(df[i].estacion, df[i].robos)
  {
    seq(|df|, i requires 0 <= i < |df| => Entry(df[i].estacion, df[i].robos))
  }

  function AlcaldiaEntries(df: seq<Record>): (es: seq<Entry>)
    ensures |es| == |df|
    ensures forall i :: 0 <= i < |df| ==> es[i] == Entry(df[i].alcaldia, df[i].robos)
  {
    seq(|df|, i requires 0 <= i < |df| => Entry(df[i].alcaldia, df[i].robos))
  }

  // ----- per year -----

  /** `df.groupby('año')['robos'].sum()` */
  function YearlyTotals(df: seq<Record>): seq<Group> {
    GroupSum(YearEntries(df))
  }

  /** The groups of `YearlyTotals` are exactly the years present in `df`. */
  lemma YearlyKeys(df: seq<Record>, k: Key)
    ensures k in KeySet(YearlyTotals(df)) <==> exists i :: 0 <= i < |df| && k == YearKey(df[i].year)
  {
    EntryKeysIndex(YearEntries(df), k);
  }

  /** Every yearly group is keyed by a year (a number), and there is at
      least one as soon as there is a row. */
  lemma YearlyShape(df: seq<Record>)
    ensures forall i :: 0 <= i < |YearlyTotals(df)| ==> YearlyTotals(df)[i].key.Num?
    ensures df != [] ==> YearlyTotals(df) != []
  {
    var g := YearlyTotals(df);
    forall i | 0 <= i < |g| ensures g[i].key.Num? {
      InKeySet(g, g[i].key);
      YearlyKeys(df, g[i].key);
    }
    if df != [] {
      YearlyKeys(df, YearKey(df[0].year));
      InKeySet(g, YearKey(df[0].year));
    }
  }

  /** `yearly['año']` */
  function Years(g: seq<Group>): (xs: seq<real>)
    requires forall i :: 0 <= i < |g| ==> g[i].key.Num?
    ensures |xs| == |g|
  {
    seq(|g|, i requires 0 <= i < |g| => g[i].key.value)
  }

  /** `yearly['robos']` */
  function Totals(g: seq<Group>): (ys: seq<real>)
    ensures |ys| == |g|
    ensures forall i :: 0 <= i < |g| ==> ys[i] == g[i].total
  {
    seq(|g|, i requires 0 <= i < |g| => g[i].total)
  }

  /** `Series.min()` */
  function SeqMin(xs: seq<real>): (m: real)
    requires xs != []
    ensures m in xs && forall i :: 0 <= i < |xs| ==> m <= xs[i]
  {
    if |xs| == 1 then xs[0]
    else
      var m := SeqMin(xs[1..]);
      assert m in xs[1..];
      if xs[0] <= m then xs[0] else m
  }

  /** `Series.max()` */
  function SeqMax(xs: seq<real>): (m: real)
    requires xs != []
    ensures m in xs && forall i :: 0 <= i < |xs| ==> xs[i] <= m
  {
    if |xs| == 1 then xs[0]
    else
      var m := SeqMax(xs[1..]);
      assert m in xs[1..];
      if xs[0] >= m then xs[0] else m
  }

  // ----- the analysis -----

  const Increasing: string := "\U{2191} Aumenta"
  const Decreasing: string := "\U{2193} Disminuye"
  const NotEnoughData: string := "No hay suficientes datos"

  /** `'↑ Aumenta' if corr > 0 else '↓ Disminuye'` */
  function Trend(c: Coefficient): string {
    if IsPositive(c) then Increasing else Decreasing
  }

  /** `'Fuerte' if abs(corr) > 0.7 else 'Moderada'` */
  function Strength(c: Coefficient): string {
    if IsStrong(c) then "Fuerte" else "Moderada"
  }

  /** The `analysis` dictionary. The total is the number before `{:,}`
      formatting. */
  datatype Analysis = Analysis(
    total: real,
    firstYear: real,
    lastYear: real,
    correlation: Coefficient,
    trend: string,
    strength: string)

  /** The analysis of a non-empty frame: the coefficient is only computed
      from two years on. */
  function AnalysisOf(df: seq<Record>): Analysis
    requires df != []
  {
    YearlyShape(df);
    var yearly := YearlyTotals(df);
    var years := Years(yearly);
    if |yearly| >= 2 then
      var c := ManualCorrelation(years, Totals(yearly));
      Analysis(SumTotals(yearly), SeqMin(years), SeqMax(years), c, Trend(c), Strength(c))
    else
      Analysis(SumTotals(yearly), SeqMin(years), SeqMax(years), Zero, NotEnoughData, "")
  }

  /** Grouping by year loses no theft: the yearly totals add up to the sum of
      `robos` over all rows, and so does the printed grand total. */
  lemma YearlyConservation(df: seq<Record>)
    ensures SumTotals(YearlyTotals(df)) == TotalRobos(df)
    ensures df != [] ==> AnalysisOf(df).total == TotalRobos(df)
  {
    SumCountsIsTotal(YearEntries(df), df);
  }

  /** `first_year` and `last_year` are the earliest and the latest year of any
      row. */
  lemma FirstAndLastYear(df: seq<Record>)
    requires df != []
    ensures forall i :: 0 <= i < |df| ==>
      AnalysisOf(df).firstYear <= df[i].year as real <= AnalysisOf(df).lastYear
    ensures exists i :: 0 <= i < |df| && AnalysisOf(df).firstYear == df[i].year as real
    ensures exists i :: 0 <= i < |df| && AnalysisOf(df).lastYear == df[i].year as real
  {
    YearlyShape(df);
    var g := YearlyTotals(df);
    var years := Years(g);
    var a := AnalysisOf(df);
    assert a.firstYear == SeqMin(years) && a.lastYear == SeqMax(years);
    forall i | 0 <= i < |df|
      ensures a.firstYear <= df[i].year as real <= a.lastYear
    {
      YearlyKeys(df, YearKey(df[i].year));
      InKeySet(g, YearKey(df[i].year));
      var j :| 0 <= j < |g| && g[j].key == YearKey(df[i].year);
      assert years[j] == df[i].year as real;
    }
    var j :| 0 <= j < |years| && years[j] == a.firstYear;
    InKeySet(g, g[j].key);
    YearlyKeys(df, g[j].key);
    var k :| 0 <= k < |years| && years[k] == a.lastYear;
    InKeySet(g, g[k].key);
    YearlyKeys(df, g[k].key);
  }

  /** Distinct groups have distinct years, so from two years on the years
      are never all equal. */
  lemma YearsNotAllEqual(df: seq<Record>)
    requires |YearlyTotals(df)| >= 2
    ensures forall i :: 0 <= i < |YearlyTotals(df)| ==> YearlyTotals(df)[i].key.Num?
    ensures !AllEqual(Years(YearlyTotals(df)))
  {
    YearlyShape(df);
    var g := YearlyTotals(df);
    assert Less(g[0].key, g[1].key);
    assert Years(g)[0] < Years(g)[1];
  }

  /** The guard and the labels: under two years the coefficient is 0 with
      "No hay suficientes datos" and no strength; from two years on it is 0
      exactly when every year has the same total, and otherwise the trend
      says "↑ Aumenta" exactly when the coefficient is positive and the
      strength says "Fuerte" exactly when its absolute value exceeds 0.7. */
  lemma AnalysisLabels(df: seq<Record>, r: real)
    requires df != []
    ensures |YearlyTotals(df)| < 2 ==>
      AnalysisOf(df).correlation == Zero && AnalysisOf(df).trend == NotEnoughData && AnalysisOf(df).strength == ""
    ensures |YearlyTotals(df)| >= 2 ==>
      (AnalysisOf(df).correlation.Zero? <==> AllEqual(Totals(YearlyTotals(df))))
    ensures |YearlyTotals(df)| >= 2 && IsValue(AnalysisOf(df).correlation, r) ==>
      && (AnalysisOf(df).trend == Increasing <==> r > 0.0)
      && (AnalysisOf(df).trend == Decreasing <==> r <= 0.0)
      && (AnalysisOf(df).strength == "Fuerte" <==> (if r < 0.0 then -r else r) > 0.7)
      && (AnalysisOf(df).strength == "Moderada" <==> (if r < 0.0 then -r else r) <= 0.7)
      && -1.0 <= r <= 1.0
  {
    YearlyShape(df);
    var g := YearlyTotals(df);
    if |g| >= 2 {
      var c := ManualCorrelation(Years(g), Totals(g));
      YearsNotAllEqual(df);
      ManualCorrelationZeroIff(Years(g), Totals(g));
      assert AnalysisOf(df).correlation == c;
      if IsValue(c, r) {
        LabelsAgreeWithValue(c, r);
        ManualCorrelationBounded(Years(g), Totals(g), r);
        assert Increasing[0] != Decreasing[0];
      }
    }
  }

  /** The year chart: each year's percentage is its total over the grand
      total of all rows. */
  lemma YearShares(df: seq<Record>)
    ensures forall i :: 0 <= i < |YearlyTotals(df)| ==>
      Chart(YearlyTotals(df))[i].share == Share(YearlyTotals(df)[i].total, TotalRobos(df))
  {
    YearlyConservation(df);
  }

  // ----- rankings -----

  /** Some bar of `r` has key `k`. */
  predicate Shown(r: seq<Group>, k: Key) {
    exists i :: 0 <= i < |r| && r[i].key == k
  }

  /** `r` is `groupby(key).sum().nlargest(n)` of `es`: as many groups as the
      smaller of `n` and the number of keys, by descending total, each a key
      of `es` with the sum of its counts; no key left out has a larger sum
      than a key shown; and with no more than `n` keys, every key is shown. */
  predicate IsRanking(r: seq<Group>, es: seq<Entry>, n: nat) {
    && |r| == Min(n, |EntryKeys(es)|)
    && Descending(r)
    && (forall i :: 0 <= i < |r| ==> r[i].key in EntryKeys(es) && r[i].total == SumWhere(es, r[i].key))
    && (forall k, i :: k in EntryKeys(es) && !Shown(r, k) && 0 <= i < |r| ==> SumWhere(es, k) <= r[i].total)
    && (|EntryKeys(es)| <= n ==> forall k :: k in EntryKeys(es) ==> Shown(r, k))
  }

  /** Each group kept by `nlargest` is a group of `es` with its full sum. */
  lemma RankedAreGroups(es: seq<Entry>, n: nat)
    ensures forall i :: 0 <= i < |Largest(GroupSum(es), n)| ==>
      && Largest(GroupSum(es), n)[i].key in EntryKeys(es)
      && Largest(GroupSum(es), n)[i].total == SumWhere(es, Largest(GroupSum(es), n)[i].key)
  {
    var g := GroupSum(es);
    var r := Largest(g, n);
    GroupSumTotals(es);
    forall i | 0 <= i < |r| ensures r[i].key in EntryKeys(es) && r[i].total == SumWhere(es, r[i].key) {
      assert r[i] in multiset(r);
      assert r[i] in multiset(g);
      var j :| 0 <= j < |g| && g[j] == r[i];
      InKeySet(g, r[i].key);
    }
  }

  /** No key left out of `nlargest` has a larger sum than a key kept. */
  lemma OmittedAreSmaller(es: seq<Entry>, n: nat)
    ensures forall k, i :: k in EntryKeys(es) && !Shown(Largest(GroupSum(es), n), k) && 0 <= i < |Largest(GroupSum(es), n)| ==>
      SumWhere(es, k) <= Largest(GroupSum(es), n)[i].total
  {
    var g := GroupSum(es);
    var r := Largest(g, n);
    GroupSumTotals(es);
    forall k, i | k in EntryKeys(es) && !Shown(r, k) && 0 <= i < |r|
      ensures SumWhere(es, k) <= r[i].total
    {
      InKeySet(g, k);
      var j :| 0 <= j < |g| && g[j].key == k;
      assert forall m :: 0 <= m < |r| ==> r[m] != g[j];
    }
  }

  /** A rearrangement of `g` shows every key of `g`. */
  lemma PermutationShowsAll(g: seq<Group>, r: seq<Group>)
    requires multiset(r) == multiset(g)
    ensures forall k :: k in KeySet(g) ==> Shown(r, k)
  {
    forall k | k in KeySet(g) ensures Shown(r, k) {
      InKeySet(g, k);
      var j :| 0 <= j < |g| && g[j].key == k;
      assert g[j] in multiset(r);
      var m :| 0 <= m < |r| && r[m] == g[j];
    }
  }

  /** With no more than `n` keys, `nlargest(n)` keeps every one of them. */
  lemma FewKeysAllShown(es: seq<Entry>, n: nat)
    ensures |Largest(GroupSum(es), n)| == Min(n, |EntryKeys(es)|)
    ensures |EntryKeys(es)| <= n ==> forall k :: k in EntryKeys(es) ==> Shown(Largest(GroupSum(es), n), k)
  {
    var g := GroupSum(es);
    KeySetSize(g);
    if |EntryKeys(es)| <= n {
      PermutationShowsAll(g, Largest(g, n));
    }
  }

  lemma TopGroups(es: seq<Entry>, n: nat)
    ensures IsRanking(Largest(GroupSum(es), n), es, n)
  {
    RankedAreGroups(es, n);
    OmittedAreSmaller(es, n);
    FewKeysAllShown(es, n);
  }

  /** `df.groupby('estacion')['robos'].sum().nlargest(10)` */
  function StationRanking(df: seq<Record>): seq<Group> {
    Largest(GroupSum(StationEntries(df)), 10)
  }

  /** `df.groupby('alcaldia')['robos'].sum().nlargest(15)` */
  function AlcaldiaRanking(df: seq<Record>): seq<Group> {
    Largest(GroupSum(AlcaldiaEntries(df)), 15)
  }

  /** The top ten stations: at most ten, by descending total, each total the
      station's sum over all rows, and no station left out with more. */
  lemma StationRankingIsTop(df: seq<Record>)
    ensures IsRanking(StationRanking(df), StationEntries(df), 10)
  {
    TopGroups(StationEntries(df), 10);
  }

  /** The same for the top fifteen alcaldías. */
  lemma AlcaldiaRankingIsTop(df: seq<Record>)
    ensures IsRanking(AlcaldiaRanking(df), AlcaldiaEntries(df), 15)
  {
    TopGroups(AlcaldiaEntries(df), 15);
  }

  /** The percentages of a ranking are taken over the displayed bars only:
      they add up to 100% even when stations were left out. */
  lemma RankingSharesOverDisplayed(df: seq<Record>)
    requires SumTotals(StationRanking(df)) != 0.0
    ensures forall i :: 0 <= i < |StationRanking(df)| ==>
      Chart(StationRanking(df))[i].share == Some(StationRanking(df)[i].total / SumTotals(StationRanking(df)))
    ensures SumShares(Chart(StationRanking(df))) == 1.0
  {
    ChartSharesSumToOne(StationRanking(df));
  }

  // ----- per line -----

  const Unknown: string := "DESCONOCIDA"

  /** `df[df['linea'] != 'DESCONOCIDA']`, as group-by input. */
  function LineEntries(df: seq<Record>): seq<Entry> {
    if df == [] then []
    else
      var last := df[|df| - 1];
      LineEntries(df[..|df| - 1]) + (if last.linea != Unknown then [Entry(Str(last.linea), last.robos)] else [])
  }

  /** `by_line.groupby('linea')['robos'].sum()`: not truncated. */
  function LineTotals(df: seq<Record>): seq<Group> {
    GroupSum(LineEntries(df))
  }

  /** The sum of `robos` over the rows of line `line`. */
  function LineRobos(df: seq<Record>, line: string): real {
    if df == [] then 0.0
    else LineRobos(df[..|df| - 1], line) + (if df[|df| - 1].linea == line then df[|df| - 1].robos else 0.0)
  }

  /** The sum of `robos` over the rows whose line is not "DESCONOCIDA". */
  function KnownLineRobos(df: seq<Record>): real {
    if df == [] then 0.0
    else KnownLineRobos(df[..|df| - 1]) + (if df[|df| - 1].linea != Unknown then df[|df| - 1].robos else 0.0)
  }

  lemma {:induction false} LineEntriesSums(df: seq<Record>, line: string)
    ensures SumCounts(LineEntries(df)) == KnownLineRobos(df)
    ensures SumWhere(LineEntries(df), Str(line)) == if line == Unknown then 0.0 else LineRobos(df, line)
  {
    if df != [] {
      var n := |df| - 1;
      LineEntriesSums(df[..n], line);
      var es := LineEntries(df);
      if df[n].linea != Unknown {
        assert es[..|es| - 1] == LineEntries(df[..n]);
      } else {
        assert es == LineEntries(df[..n]);
      }
    }
  }

  lemma {:induction false} LineEntriesKeys(df: seq<Record>, k: Key)
    ensures k in EntryKeys(LineEntries(df)) <==>
      exists i :: 0 <= i < |df| && df[i].linea != Unknown && k == Str(df[i].linea)
  {
    if df != [] {
      var n := |df| - 1;
      LineEntriesKeys(df[..n], k);
      var es := LineEntries(df);
      if df[n].linea != Unknown {
        assert es[..|es| - 1] == LineEntries(df[..n]);
      } else {
        assert es == LineEntries(df[..n]);
      }
      if exists i :: 0 <= i < |df| && df[i].linea != Unknown && k == Str(df[i].linea) {
        var i :| 0 <= i < |df| && df[i].linea != Unknown && k == Str(df[i].linea);
        if i < n {
          assert df[..n][i] == df[i];
        }
      }
    }
  }

  /** The line chart: one bar per line present other than "DESCONOCIDA",
      none left out, each holding the sum of its line's rows; the bars add up
      to the rows whose line is known, and each percentage is taken over that
      sum. */
  lemma LineTotalsExcludeUnknown(df: seq<Record>)
    ensures forall i :: 0 <= i < |LineTotals(df)| ==>
      && LineTotals(df)[i].key.Str?
      && LineTotals(df)[i].key.text != Unknown
      && LineTotals(df)[i].total == LineRobos(df, LineTotals(df)[i].key.text)
    ensures forall i :: 0 <= i < |df| && df[i].linea != Unknown ==> Shown(LineTotals(df), Str(df[i].linea))
    ensures SumTotals(LineTotals(df)) == KnownLineRobos(df)
    ensures forall i :: 0 <= i < |LineTotals(df)| ==>
      Chart(LineTotals(df))[i].share == Share(LineTotals(df)[i].total, KnownLineRobos(df))
  {
    var g := LineTotals(df);
    GroupSumTotals(LineEntries(df));
    LineEntriesSums(df, "");
    forall i | 0 <= i < |g|
      ensures g[i].key.Str? && g[i].key.text != Unknown && g[i].total == LineRobos(df, g[i].key.text)
    {
      InKeySet(g, g[i].key);
      LineEntriesKeys(df, g[i].key);
      LineEntriesSums(df, g[i].key.text);
    }
    forall i | 0 <= i < |df| && df[i].linea != Unknown
      ensures Shown(g, Str(df[i].linea))
    {
      LineEntriesKeys(df, Str(df[i].linea));
      InKeySet(g, Str(df[i].linea));
    }
  }

  // ----- the whole of generate_plots -----

  /** `generate_plots(df)`: an empty frame gives two empty dictionaries;
      otherwise the analysis and the four charts are filled in one after
      the other. The line chart is always drawn, since every loaded frame
      has a `linea` column. */
  method GeneratePlots(df: seq<Record>) returns (plots: map<string, seq<Bar>>, analysis: Option<Analysis>)
    ensures df == [] ==> plots == map[] && analysis == None
    ensures df != [] ==> analysis == Some(AnalysisOf(df))
    ensures df != [] ==> analysis.value.total == TotalRobos(df)
    ensures df != [] ==> plots == map[
      "year" := Chart(YearlyTotals(df)),
      "stations" := Chart(StationRanking(df)),
      "alcaldia" := Chart(AlcaldiaRanking(df)),
      "linea" := Chart(LineTotals(df))]
  {
    plots := map[];
    analysis := None;
    if df == [] {
      return;
    }
    YearlyShape(df);
    var yearly := YearlyTotals(df);
    var total := SumTotals(yearly);
    var years := Years(yearly);
    var firstYear := SeqMin(years);
    var lastYear := SeqMax(years);
    var correlation, trend, strength;
    if |yearly| >= 2 {
      correlation := ManualCorrelation(years, Totals(yearly));
      trend := if IsPositive(correlation) then Increasing else Decreasing;
      strength := if IsStrong(correlation) then "Fuerte" else "Moderada";
    } else {
      correlation := Zero;
      trend := NotEnoughData;
      strength := "";
    }
    analysis := Some(Analysis(total, firstYear, lastYear, correlation, trend, strength));
    assert analysis.value == AnalysisOf(df);
    YearlyConservation(df);

    plots := plots["year" := Chart(yearly)];
    plots := plots["stations" := Chart(StationRanking(df))];
    plots := plots["alcaldia" := Chart(AlcaldiaRanking(df))];
    plots := plots["linea" := Chart(LineTotals(df))];
  }
}
