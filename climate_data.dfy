/**
  processDataByYearAndMonth: climate rows are filed under year, then month,
  then city, each city collecting its temperatures in row order; afterwards
  every collected list is replaced by its mean.
 */
module ClimateData {

  /**
    One parsed CSV row. `year` and `month` are what `new Date(row.Date)` yields
    (month counted from 0); `temperature` is the parsed "Max Temperature (F)".
   */
  datatype Row = Row(year: int, month: int, city: string, temperature: real)

  /** The three-level key a row is filed under. */
  datatype Key = Key(year: int, month: int, city: string)

  /** year -> month -> city -> value: the nested object literal the source builds. */
  type Nested<T> = map<int, map<int, map<string, T>>>

  /** The index while rows are pushed: each city holds its list of temperatures. */
  type Grouped = Nested<seq<real>>

  /** The index after averaging: each city holds one mean temperature. */
  type Index = Nested<real>

  function KeyOf(row: Row): Key
  {
    Key(row.year, row.month, row.city)
  }

  predicate HasKey<T>(g: Nested<T>, k: Key)
  {
    k.year in g && k.month in g[k.year] && k.city in g[k.year][k.month]
  }

  function At<T>(g: Nested<T>, k: Key): T
    requires HasKey(g, k)
  {
    g[k.year][k.month][k.city]
  }

  /** No year without a month and no month without a city: levels exist only on demand. */
  predicate NoEmptyLevels<T>(g: Nested<T>)
  {
    forall y :: y in g ==> g[y].Keys != {} && forall m :: m in g[y] ==> g[y][m].Keys != {}
  }

  /** A non-empty set of year or month keys has a member to visit. */
  lemma HasElement(s: set<int>)
    requires s != {}
    ensures exists x :: x in s
  {
    if forall x :: x !in s {
      assert false;
    }
  }

  /** Some row is filed under `k`. */
  predicate Produced(rows: seq<Row>, k: Key)
  {
    exists r :: r in rows && KeyOf(r) == k
  }

  /** The temperatures of the rows filed under `k`, in input order. */
  function TemperaturesFor(rows: seq<Row>, k: Key): seq<real>
  {
    if rows == [] then []
    else
      var last := rows[|rows| - 1];
      TemperaturesFor(rows[..|rows| - 1], k) + (if KeyOf(last) == k then [last.temperature] else [])
  }

  /** `temperatures.reduce((a, b) => a + b, 0)`: a left-to-right sum starting at 0. */
  function Sum(s: seq<real>): real
  {
    if s == [] then 0.0 else Sum(s[..|s| - 1]) + s[|s| - 1]
  }

  /** The arithmetic mean, `sum / temperatures.length`. */
  function Mean(s: seq<real>): real
    requires s != []
  {
    Sum(s) / |s| as real
  }

  /** Every key some row produced has a non-empty list, so the division in Mean is defined. */
  lemma {:induction false} ProducedHasTemperatures(rows: seq<Row>, k: Key)
    requires Produced(rows, k)
    ensures TemperaturesFor(rows, k) != []
    decreases |rows|
  {
    var last := rows[|rows| - 1];
    var front := rows[..|rows| - 1];
    if KeyOf(last) != k {
      var r :| r in rows && KeyOf(r) == k;
      assert rows == front + [last];
      assert r in front;
      ProducedHasTemperatures(front, k);
    }
  }

  /** Without a row filed under `k` there is nothing to average. */
  lemma {:induction false} NotProducedHasNoTemperatures(rows: seq<Row>, k: Key)
    requires !Produced(rows, k)
    ensures TemperaturesFor(rows, k) == []
    decreases |rows|
  {
    if rows != [] {
      var front := rows[..|rows| - 1];
      assert rows == front + [rows[|rows| - 1]];
      assert !Produced(front, k);
      NotProducedHasNoTemperatures(front, k);
    }
  }

  /** No row is dropped: each row's temperature is in the list of its own key. */
  lemma {:induction false} RowIsKept(rows: seq<Row>, j: nat)
    requires j < |rows|
    ensures rows[j].temperature in TemperaturesFor(rows, KeyOf(rows[j]))
    decreases |rows|
  {
    if j < |rows| - 1 {
      var front := rows[..|rows| - 1];
      assert front[j] == rows[j];
      RowIsKept(front, j);
    }
  }

  /** An average lies between the smallest and the largest reading it was taken over. */
  lemma {:induction false} SumWithinRange(s: seq<real>, lo: real, hi: real)
    requires forall i :: 0 <= i < |s| ==> lo <= s[i] <= hi
    ensures lo * |s| as real <= Sum(s) <= hi * |s| as real
    decreases |s|
  {
    if s != [] {
      SumWithinRange(s[..|s| - 1], lo, hi);
    }
  }

  lemma MeanWithinRange(s: seq<real>, lo: real, hi: real)
    requires s != []
    requires forall i :: 0 <= i < |s| ==> lo <= s[i] <= hi
    ensures lo <= Mean(s) <= hi
  {
    SumWithinRange(s, lo, hi);
    var n := |s| as real;
    assert Mean(s) * n == Sum(s);
    assert (Mean(s) - lo) * n >= 0.0;
    assert (hi - Mean(s)) * n >= 0.0;
  }

  /**
    One push: if `before` groups the rows `done`, and `after` differs from it
    only by `row.temperature` appended at the row's key (the key created if it
    was missing), then `after` groups `done + [row]`.
   */
  lemma GroupedAfterPush(before: Grouped, after: Grouped, done: seq<Row>, row: Row)
    requires forall k :: HasKey(before, k) <==> Produced(done, k)
    requires forall k :: HasKey(before, k) ==> At(before, k) == TemperaturesFor(done, k)
    requires forall k :: HasKey(after, k) <==> HasKey(before, k) || k == KeyOf(row)
    requires forall k :: HasKey(after, k) ==>
               At(after, k) == (if HasKey(before, k) then At(before, k) else []) + (if k == KeyOf(row) then [row.temperature] else [])
    ensures forall k :: HasKey(after, k) <==> Produced(done + [row], k)
    ensures forall k :: HasKey(after, k) ==> At(after, k) == TemperaturesFor(done + [row], k)
  {
    var rows := done + [row];
    assert rows[..|done|] == done;
    forall k ensures HasKey(after, k) <==> Produced(rows, k) {
      if Produced(rows, k) && !Produced(done, k) {
        var r :| r in rows && KeyOf(r) == k;
        assert r == row;
      }
    }
    forall k | HasKey(after, k) ensures At(after, k) == TemperaturesFor(rows, k) {
      if !HasKey(before, k) {
        NotProducedHasNoTemperatures(done, k);
      }
    }
  }

  /**
    The first pass: every row is pushed onto the list at [year][month][city],
    creating the year, month and city levels the first time they are needed.
   */
  method GroupRows(rows: seq<Row>) returns (g: Grouped)
    ensures forall k :: HasKey(g, k) <==> Produced(rows, k)
    ensures forall k :: HasKey(g, k) ==> At(g, k) == TemperaturesFor(rows, k)
    ensures NoEmptyLevels(g)
  {
    g := map[];
    var i := 0;
    while i < |rows|
      invariant 0 <= i <= |rows|
      invariant forall k :: HasKey(g, k) <==> Produced(rows[..i], k)
      invariant forall k :: HasKey(g, k) ==> At(g, k) == TemperaturesFor(rows[..i], k)
      invariant NoEmptyLevels(g)
    {
      var row := rows[i];
      ghost var before := g;
      var year, month, city := row.year, row.month, row.city;
      // Missing levels start out empty: `if (!g[year]) g[year] = {}` and so on.
      var months := if year in g then g[year] else map[];
      var cities := if month in months then months[month] else map[];
      var temperatures := if city in cities then cities[city] else [];
      g := g[year := months[month := cities[city := temperatures + [row.temperature]]]];
      forall k ensures HasKey(g, k) <==> HasKey(before, k) || k == KeyOf(row) {
      }
      forall k | HasKey(g, k)
        ensures At(g, k) == (if HasKey(before, k) then At(before, k) else []) + (if k == KeyOf(row) then [row.temperature] else [])
      {
      }
      GroupedAfterPush(before, g, rows[..i], row);
      assert rows[..i + 1] == rows[..i] + [row];
      i := i + 1;
    }
    assert rows[..|rows|] == rows;
  }

  /** The averaging pass over one month: each city's list becomes its mean. */
  method AverageCities(cities: map<string, seq<real>>) returns (avg: map<string, real>)
    requires forall c :: c in cities ==> cities[c] != []
    ensures avg.Keys == cities.Keys
    ensures forall c :: c in cities ==> avg[c] == Mean(cities[c])
  {
    avg := map[];
    var todo := cities.Keys;
    while todo != {}
      invariant todo <= cities.Keys
      invariant avg.Keys == cities.Keys - todo
      invariant forall c :: c in avg ==> avg[c] == Mean(cities[c])
      decreases todo
    {
      var c :| c in todo;
      avg := avg[c := Mean(cities[c])];
      todo := todo - {c};
    }
  }

  /** The averaging pass over one year: every month is averaged city by city. */
  method AverageMonths(months: map<int, map<string, seq<real>>>) returns (avg: map<int, map<string, real>>)
    requires forall m, c :: m in months && c in months[m] ==> months[m][c] != []
    ensures avg.Keys == months.Keys
    ensures forall m :: m in months ==> avg[m].Keys == months[m].Keys
    ensures forall m, c :: m in months && c in months[m] ==> avg[m][c] == Mean(months[m][c])
  {
    avg := map[];
    var todo := months.Keys;
    while todo != {}
      invariant todo <= months.Keys
      invariant avg.Keys == months.Keys - todo
      invariant forall m :: m in avg ==> avg[m].Keys == months[m].Keys
      invariant forall m, c :: m in avg && c in months[m] ==> avg[m][c] == Mean(months[m][c])
      decreases todo
    {
      HasElement(todo);
      var m :| m in todo;
      var cities := AverageCities(months[m]);
      avg := avg[m := cities];
      todo := todo - {m};
    }
  }

  /** Same year, month and city keys at every level. */
  predicate SameShape<A, B>(a: Nested<A>, b: Nested<B>)
  {
    && a.Keys == b.Keys
    && (forall y :: y in a ==> a[y].Keys == b[y].Keys)
    && (forall y, m :: y in a && m in a[y] ==> a[y][m].Keys == b[y][m].Keys)
  }

  /**
    The second pass: every list is replaced by its mean, and no year, month or
    city key is added or removed.
   */
  method AverageIndex(g: Grouped) returns (avg: Index)
    requires forall y, m, c :: y in g && m in g[y] && c in g[y][m] ==> g[y][m][c] != []
    ensures SameShape(avg, g)
    ensures forall k :: HasKey(g, k) ==> HasKey(avg, k) && At(avg, k) == Mean(At(g, k))
  {
    avg := map[];
    var todo := g.Keys;
    while todo != {}
      invariant todo <= g.Keys
      invariant avg.Keys == g.Keys - todo
      invariant forall y :: y in avg ==> avg[y].Keys == g[y].Keys
      invariant forall y, m :: y in avg && m in avg[y] ==> avg[y][m].Keys == g[y][m].Keys
      invariant forall y, m, c :: y in avg && m in g[y] && c in g[y][m] ==> avg[y][m][c] == Mean(g[y][m][c])
      decreases todo
    {
      HasElement(todo);
      var y :| y in todo;
      var months := AverageMonths(g[y]);
      avg := avg[y := months];
      todo := todo - {y};
    }
    forall k | HasKey(g, k) ensures HasKey(avg, k) && At(avg, k) == Mean(At(g, k)) {
    }
  }

  /** What the finished index says about the rows it was built from. */
  ghost predicate Aggregates(index: Index, rows: seq<Row>)
  {
    && NoEmptyLevels(index)
    && (forall k :: HasKey(index, k) <==> Produced(rows, k))
    && (forall k :: HasKey(index, k) ==>
          TemperaturesFor(rows, k) != [] && At(index, k) == Mean(TemperaturesFor(rows, k)))
  }

  /**
    processDataByYearAndMonth: a key is present exactly when some row produced
    it, and its value is the mean of those rows' temperatures, in row order.
    Rows are never skipped.
   */
  method ProcessDataByYearAndMonth(rows: seq<Row>) returns (index: Index)
    ensures Aggregates(index, rows)
    ensures rows == [] ==> index == map[]
  {
    var g := GroupRows(rows);
    forall y, m, c | y in g && m in g[y] && c in g[y][m] ensures g[y][m][c] != [] {
      assert HasKey(g, Key(y, m, c));
      ProducedHasTemperatures(rows, Key(y, m, c));
    }
    index := AverageIndex(g);
    forall k | HasKey(index, k) ensures HasKey(g, k) {
      assert k.year in g && k.month in g[k.year];
    }
    assert NoEmptyLevels(index) by {
      forall y | y in index ensures index[y].Keys != {} && forall m :: m in index[y] ==> index[y][m].Keys != {} {
        assert index[y].Keys == g[y].Keys;
        forall m | m in index[y] ensures index[y][m].Keys != {} {
          assert index[y][m].Keys == g[y][m].Keys;
        }
      }
    }
    if rows == [] {
      AggregatesEmpty(index);
    }
  }

  /** Aggregating no rows gives the empty index. */
  lemma AggregatesEmpty(index: Index)
    requires Aggregates(index, [])
    ensures index == map[]
  {
    if index != map[] {
      HasElement(index.Keys);
      var y :| y in index.Keys;
      HasElement(index[y].Keys);
      var m :| m in index[y].Keys;
      var c :| c in index[y][m].Keys;
      assert HasKey(index, Key(y, m, c));
      assert false;
    }
  }

  /**
    The index is determined by the rows alone: whatever order the averaging
    pass visits the keys in, running it twice on the same rows gives the same
    index.
   */
  lemma AggregatesUnique(a: Index, b: Index, rows: seq<Row>)
    requires Aggregates(a, rows) && Aggregates(b, rows)
    ensures a == b
  {
    forall y ensures y in a <==> y in b {
      if y in a {
        HasElement(a[y].Keys);
        var m :| m in a[y].Keys;
        var c :| c in a[y][m].Keys;
        assert HasKey(b, Key(y, m, c));
      }
      if y in b {
        HasElement(b[y].Keys);
        var m :| m in b[y].Keys;
        var c :| c in b[y][m].Keys;
        assert HasKey(a, Key(y, m, c));
      }
    }
    forall y | y in a ensures a[y] == b[y] {
      forall m ensures m in a[y] <==> m in b[y] {
        if m in a[y] {
          var c :| c in a[y][m].Keys;
          assert HasKey(b, Key(y, m, c));
        }
        if m in b[y] {
          var c :| c in b[y][m].Keys;
          assert HasKey(a, Key(y, m, c));
        }
      }
      forall m | m in a[y] ensures a[y][m] == b[y][m] {
        forall c ensures c in a[y][m] <==> c in b[y][m] {
          assert HasKey(a, Key(y, m, c)) <==> HasKey(b, Key(y, m, c));
        }
        forall c | c in a[y][m] ensures a[y][m][c] == b[y][m][c] {
          assert HasKey(a, Key(y, m, c)) && HasKey(b, Key(y, m, c));
        }
      }
    }
  }

  /** Two January readings and one February reading for one city. */
  const JanuaryAndFebruaryRows: seq<Row> :=
    [Row(2023, 0, "X", 70.0), Row(2023, 0, "X", 80.0), Row(2023, 1, "X", 50.0)]

  /** The index those rows average to. */
  const JanuaryAndFebruaryIndex: Index := map[2023 := map[0 := map["X" := 75.0], 1 := map["X" := 50.0]]]

  /** January collects [70, 80] and February [50], in row order; their means are 75 and 50. */
  lemma JanuaryAndFebruaryExample()
    ensures TemperaturesFor(JanuaryAndFebruaryRows, Key(2023, 0, "X")) == [70.0, 80.0]
    ensures TemperaturesFor(JanuaryAndFebruaryRows, Key(2023, 1, "X")) == [50.0]
    ensures Mean([70.0, 80.0]) == 75.0 && Mean([50.0]) == 50.0
  {
    var rows := JanuaryAndFebruaryRows;
    var jan, feb := Key(2023, 0, "X"), Key(2023, 1, "X");
    var one, two := rows[..1], rows[..2];
    assert rows[..|rows| - 1] == two && two[..|two| - 1] == one && one[..|one| - 1] == [];
    assert TemperaturesFor(one, jan) == [70.0] && TemperaturesFor(one, feb) == [];
    assert TemperaturesFor(two, jan) == [70.0, 80.0] && TemperaturesFor(two, feb) == [];
    assert TemperaturesFor(rows, jan) == [70.0, 80.0];
    assert TemperaturesFor(rows, feb) == [50.0];
    assert Sum([70.0, 80.0]) == 150.0 by {
      assert [70.0, 80.0][..1] == [70.0];
      assert [70.0][..0] == [];
    }
    assert Sum([50.0]) == 50.0 by {
      assert [50.0][..0] == [];
    }
  }

  /** Whatever order the averaging visits keys in, those rows give exactly that index. */
  lemma JanuaryAndFebruaryAggregate(index: Index)
    requires Aggregates(index, JanuaryAndFebruaryRows)
    ensures index == JanuaryAndFebruaryIndex
  {
    var rows: seq<Row>, expected: Index := JanuaryAndFebruaryRows, JanuaryAndFebruaryIndex;
    var jan, feb := Key(2023, 0, "X"), Key(2023, 1, "X");
    JanuaryAndFebruaryExample();
    assert NoEmptyLevels(expected) by {
      assert expected[2023][0].Keys == {"X"} && expected[2023][1].Keys == {"X"};
    }
    forall k ensures HasKey(expected, k) <==> Produced(rows, k) {
      assert HasKey(expected, k) <==> k == jan || k == feb;
      assert Produced(rows, k) ==> k == jan || k == feb;
      if k == jan {
        assert rows[0] in rows && KeyOf(rows[0]) == k;
      }
      if k == feb {
        assert rows[2] in rows && KeyOf(rows[2]) == k;
      }
    }
    assert Aggregates(expected, rows);
    AggregatesUnique(index, expected, rows);
  }
}
