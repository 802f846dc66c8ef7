/**
  The readers of the averaged index in climate_data.js: the twelve-month
  series plotted for one year and city, the two series of a year comparison,
  and the chart drawn when the data has just been loaded.
 */
module ClimateCharts {

  import opened Wrappers
  import opened ClimateData
  import PropertyKeys

  /** The months of one year: month -> city -> average. */
  type MonthlyData = map<int, map<string, real>>

  /**
    `monthlyData[month] ? monthlyData[month][city] || null : null`: the average
    when it is present and truthy; a missing month or city, and an average of
    exactly 0, give null.
   */
  function MonthValue(monthly: MonthlyData, month: int, city: string): Option<real>
  {
    if month in monthly && city in monthly[month] && monthly[month][city] != 0.0 then
      Some(monthly[month][city])
    else
      None
  }

  /** `months.map(...)` over the months 0..11. */
  function MonthSeries(monthly: MonthlyData, city: string): seq<Option<real>>
  {
    seq(12, m => MonthValue(monthly, m, city))
  }

  /** `series` is the twelve-month trace of `city` in `year`, read off the index. */
  predicate ShowsYear(series: seq<Option<real>>, index: Index, year: int, city: string)
  {
    && |series| == 12
    && forall m :: 0 <= m < 12 ==>
         if HasKey(index, Key(year, m, city)) && At(index, Key(year, m, city)) != 0.0 then
           series[m] == Some(At(index, Key(year, m, city)))
         else
           series[m] == None
  }

  /**
    plotDataForYearAndCity. `data[year]` is undefined for a year the index does
    not hold, and reading a month of it throws: that is the None result.
   */
  function PlotDataForYearAndCity(index: Index, year: int, city: string): (plotted: Option<seq<Option<real>>>)
    ensures plotted.Some? <==> year in index
    ensures plotted.Some? ==> ShowsYear(plotted.value, index, year, city)
  {
    if year in index then Some(MonthSeries(index[year], city)) else None
  }

  /** compareYears: a year missing from the data is read as `{}`, never as an error. */
  function CompareYears(index: Index, year1: int, year2: int, city: string): (traces: (seq<Option<real>>, seq<Option<real>>))
    ensures ShowsYear(traces.0, index, year1, city)
    ensures ShowsYear(traces.1, index, year2, city)
  {
    var data1 := if year1 in index then index[year1] else map[];
    var data2 := if year2 in index then index[year2] else map[];
    (MonthSeries(data1, city), MonthSeries(data2, city))
  }

  /** A year without data compares as twelve nulls. */
  lemma CompareYearsMissingYearIsBlank(index: Index, year1: int, year2: int, city: string)
    requires year1 !in index
    ensures CompareYears(index, year1, year2, city).0 == seq(12, m => None)
  {
  }

  /**
    End to end: a plotted month is the mean of that month's rows for the city,
    and it is null exactly when there are no such rows or their mean is 0.
   */
  lemma PlottedValueIsMeanOfRows(rows: seq<Row>, index: Index, year: int, city: string, m: int)
    requires Aggregates(index, rows)
    requires year in index && 0 <= m < 12
    ensures PlotDataForYearAndCity(index, year, city).Some?
    ensures var k := Key(year, m, city);
            var entry := PlotDataForYearAndCity(index, year, city).value[m];
            && (entry.Some? <==> Produced(rows, k) && TemperaturesFor(rows, k) != [] && Mean(TemperaturesFor(rows, k)) != 0.0)
            && (entry.Some? ==> TemperaturesFor(rows, k) != [] && entry.value == Mean(TemperaturesFor(rows, k)))
  {
    var k := Key(year, m, city);
    if Produced(rows, k) {
      ProducedHasTemperatures(rows, k);
    }
  }

  /**
    Years are array indices, which `Object.keys` lists first and in ascending
    order, and months are the 0..11 that `getMonth` returns.
   */
  predicate CalendarKeys(index: Index)
  {
    forall y :: y in index ==> 0 <= y < 0xFFFF_FFFF && forall m :: m in index[y] ==> 0 <= m < 12
  }

  /** `x` is a member of `s` and no member of `s` is smaller. */
  ghost predicate IsLeast(x: int, s: set<int>)
  {
    x in s && forall k :: k in s ==> x <= k
  }

  lemma {:induction false} LeastExists(s: set<int>)
    requires s != {}
    ensures exists x :: IsLeast(x, s)
    decreases |s|
  {
    HasElement(s);
    var y :| y in s;
    var rest := s - {y};
    if rest == {} {
      assert s == {y};
      assert IsLeast(y, s);
    } else {
      LeastExists(rest);
      var x :| IsLeast(x, rest);
      var least := if y < x then y else x;
      forall k | k in s ensures least <= k {
        if k != y {
          assert k in rest;
        }
      }
      assert IsLeast(least, s);
    }
  }

  /** `Object.keys(obj)[0]` for an object whose keys are all array indices. */
  ghost function FirstKey(keys: set<int>): (first: int)
    requires keys != {}
    ensures first in keys
    ensures forall k :: k in keys ==> first <= k
  {
    LeastExists(keys);
    var first :| IsLeast(first, keys);
    first
  }

  /**
    The chart drawn once the CSV has loaded, as written: the third argument is
    `Object.keys(climateData[firstYear])[0]`, which is a MONTH key, so the
    city looked up is named "0", "1", ... An empty index never gets here:
    populating the city dropdown has already thrown on it.
   */
  ghost function InitialPlotAsWritten(index: Index): Option<seq<Option<real>>>
    requires NoEmptyLevels(index) && CalendarKeys(index)
  {
    if index.Keys == {} then None
    else
      var year := FirstKey(index.Keys);
      var month := FirstKey(index[year].Keys);
      PlotDataForYearAndCity(index, year, PropertyKeys.DecimalString(month))
  }

  /** No city is named like a number. */
  ghost predicate CitiesAreNames(index: Index)
  {
    forall y, m, c :: y in index && m in index[y] && c in index[y][m] ==>
      forall n: nat :: c != PropertyKeys.DecimalString(n)
  }

  /** As written, the first chart is twelve nulls whenever cities have real names. */
  lemma InitialPlotAsWrittenIsBlank(index: Index)
    requires NoEmptyLevels(index) && CalendarKeys(index)
    requires index.Keys != {} && CitiesAreNames(index)
    ensures InitialPlotAsWritten(index) == Some(seq(12, m => None))
  {
    var year := FirstKey(index.Keys);
    var month := FirstKey(index[year].Keys);
    var city := PropertyKeys.DecimalString(month);
    forall m | 0 <= m < 12 ensures !HasKey(index, Key(year, m, city)) {
    }
    assert MonthSeries(index[year], city) == seq(12, m => None);
  }

  /**
    The selection the page starts from, as the dropdowns show it: the first
    year, its first month, and a city of that month (the first one listed; the
    insertion order of city keys is not modelled).
   */
  ghost function InitialSelection(index: Index): (k: Key)
    requires NoEmptyLevels(index) && CalendarKeys(index) && index.Keys != {}
    ensures HasKey(index, k)
    ensures k.year == FirstKey(index.Keys) && k.month == FirstKey(index[k.year].Keys)
  {
    var year := FirstKey(index.Keys);
    var month := FirstKey(index[year].Keys);
    var city :| city in index[year][month].Keys;
    Key(year, month, city)
  }

  /** The first chart with the city argument corrected to a city of the first month. */
  ghost function InitialPlot(index: Index): (plotted: Option<seq<Option<real>>>)
    requires NoEmptyLevels(index) && CalendarKeys(index)
    ensures plotted.Some? <==> index.Keys != {}
    ensures plotted.Some? ==> |plotted.value| == 12
    ensures plotted.Some? ==>
              var k := InitialSelection(index);
              plotted.value[k.month] == if At(index, k) != 0.0 then Some(At(index, k)) else None
    ensures plotted.Some? ==>
              var k := InitialSelection(index);
              ShowsYear(plotted.value, index, k.year, k.city)
  {
    if index.Keys == {} then None
    else
      var k := InitialSelection(index);
      PlotDataForYearAndCity(index, k.year, k.city)
  }

  /** One row for Phoenix in January 2023: the first chart is blank as written, and shows 70 once corrected. */
  lemma InitialPlotExample(index: Index)
    requires index == map[2023 := map[0 := map["Phoenix" := 70.0]]]
    ensures NoEmptyLevels(index) && CalendarKeys(index)
    ensures InitialPlotAsWritten(index) == Some(seq(12, m => None))
    ensures InitialPlot(index).Some? && InitialPlot(index).value[0] == Some(70.0)
  {
    assert NoEmptyLevels(index) by {
      assert index[2023].Keys == {0};
      assert index[2023][0].Keys == {"Phoenix"};
    }
    assert CalendarKeys(index) && index.Keys == {2023};
    assert CitiesAreNames(index) by {
      forall n: nat ensures "Phoenix" != PropertyKeys.DecimalString(n) {
        PropertyKeys.NumeralStartsWithDigit(n);
      }
    }
    InitialPlotAsWrittenIsBlank(index);
  }
}
