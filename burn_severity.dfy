/**
  burnSeverity.js: wildfire features from the fire-occurrence service are
  filtered to the fires of 1984 and later, and each kept fire becomes a heat
  point at the first vertex of its first polygon ring.
 */
module BurnSeverity {

  import opened Wrappers
  import opened HeatMap

  /** A polygon vertex, `[x, y]` = `[longitude, latitude]`. */
  datatype Position = Position(x: real, y: real)

  /** A polygon geometry as the service returns it: a list of rings. */
  datatype Geometry = Geometry(rings: seq<seq<Position>>)

  /**
    The `FIRE_YEAR` attribute: the service may send the year as a number or as
    text. `YearText(year)` stands for `year` written with four digits,
    zero-padded ("1984", "0984").
   */
  datatype FireYearField = Number(n: int) | YearText(year: int)

  datatype Attributes = Attributes(fireYear: FireYearField, fireName: string)

  /** One feature; `geometry` is None when it is missing. */
  datatype Feature = Feature(attributes: Attributes, geometry: Option<Geometry>)

  /** The response body; `features` is None when it is missing. */
  datatype FeatureCollection = FeatureCollection(features: Option<seq<Feature>>)

  const FirstRecentYear: int := 1984

  /** The calendar year the attribute states. */
  function FireYear(field: FireYearField): int
  {
    match field
    case Number(n) => n
    case YearText(year) => year
  }

  predicate IsRecent(f: Feature)
  {
    FireYear(f.attributes.fireYear) >= FirstRecentYear
  }

  /** `features.filter(keep)`, written from the end of the list. */
  function Filter(fs: seq<Feature>, keep: Feature -> bool): (kept: seq<Feature>)
    ensures |kept| <= |fs|
    ensures forall f :: f in kept <==> f in fs && keep(f)
  {
    if fs == [] then []
    else
      var init := fs[..|fs| - 1];
      var last := fs[|fs| - 1];
      assert fs == init + [last];
      var rest := Filter(init, keep);
      if keep(last) then rest + [last] else rest
  }

  /**
    Filtering a concatenation filters each part in place: kept features keep
    their relative order, and each one's fate depends on itself alone.
   */
  lemma {:induction false} FilterAppend(a: seq<Feature>, b: seq<Feature>, keep: Feature -> bool)
    ensures Filter(a + b, keep) == Filter(a, keep) + Filter(b, keep)
    decreases |b|
  {
    if b == [] {
      assert a + b == a;
    } else {
      var init := b[..|b| - 1];
      assert (a + b)[..|a + b| - 1] == a + init;
      FilterAppend(a, init, keep);
    }
  }

  /** The fires of 1984 and later, in their original order. */
  function KeepRecent(fs: seq<Feature>): (kept: seq<Feature>)
    ensures |kept| <= |fs|
    ensures forall f :: f in kept <==> f in fs && FireYear(f.attributes.fireYear) >= 1984
  {
    Filter(fs, IsRecent)
  }

  /** Filtering two batches separately gives the same fires as filtering them together. */
  lemma KeepRecentAppend(a: seq<Feature>, b: seq<Feature>)
    ensures KeepRecent(a + b) == KeepRecent(a) + KeepRecent(b)
  {
    FilterAppend(a, b, IsRecent);
  }

  /** `feature.geometry?.rings[0][0]`; None where reading it, or `coordinates[1]` after it, throws. */
  function FirstVertex(f: Feature): Option<Position>
  {
    match f.geometry
    case None => None
    case Some(g) => if g.rings != [] && g.rings[0] != [] then Some(g.rings[0][0]) else None
  }

  /**
    `filteredData.map(feature => [lat, lng, 1])`: None when some feature has no
    first vertex, because the whole map throws then.
   */
  function HeatPoints(fs: seq<Feature>): (points: Option<seq<HeatPoint>>)
    ensures points.Some? <==> forall i :: 0 <= i < |fs| ==> FirstVertex(fs[i]).Some?
    ensures points.Some? ==>
              && |points.value| == |fs|
              && forall i :: 0 <= i < |fs| ==>
                   && points.value[i].lat == FirstVertex(fs[i]).value.y
                   && points.value[i].lng == FirstVertex(fs[i]).value.x
                   && points.value[i].intensity == 1.0
  {
    if fs == [] then Some([])
    else
      match (FirstVertex(fs[0]), HeatPoints(fs[1..]))
      case (Some(v), Some(rest)) => Some([HeatPoint(v.y, v.x, 1.0)] + rest)
      case _ => None
  }

  /** What processWildfireData leaves on the map. */
  datatype Outcome =
    | MissingFeatures
      // the console message, no layer
    | GeometryError
      // a kept fire without a first vertex: the heat-point map throws before any layer is added
    | Rendered(perimeters: seq<Feature>, heat: seq<HeatPoint>)
      // the perimeter layer and the heat layer

  /**
    processWildfireData with the year test corrected to the stated year
    (`KeepRecent`); the test as written is `KeepRecentAsWritten` below.
   */
  function ProcessWildfireData(data: Option<FeatureCollection>): (outcome: Outcome)
    ensures outcome.MissingFeatures? <==> data.None? || data.value.features.None?
    ensures outcome.GeometryError? <==>
              && data.Some? && data.value.features.Some?
              && exists f :: f in data.value.features.value && IsRecent(f) && FirstVertex(f).None?
    ensures outcome.Rendered? ==>
              var fs := data.value.features.value;
              && outcome.perimeters == KeepRecent(fs)
              && |outcome.heat| == |outcome.perimeters| <= |fs|
              && (forall f :: f in outcome.perimeters <==> f in fs && IsRecent(f))
              && forall i :: 0 <= i < |outcome.heat| ==>
                   && FirstVertex(outcome.perimeters[i]).Some?
                   && outcome.heat[i] == HeatPoint(FirstVertex(outcome.perimeters[i]).value.y,
                                                   FirstVertex(outcome.perimeters[i]).value.x, 1.0)
  {
    if data.None? || data.value.features.None? then MissingFeatures
    else
      var kept := KeepRecent(data.value.features.value);
      match HeatPoints(kept)
      case None =>
        var i :| 0 <= i < |kept| && FirstVertex(kept[i]).None?;
        assert kept[i] in kept;
        GeometryError
      case Some(points) => Rendered(kept, points)
  }

  // ---------------------------------------------------------------------
  // The year test as written: `new Date(FIRE_YEAR).getFullYear() >= 1984`.
  // ---------------------------------------------------------------------

  const MsPerDay: int := 86_400_000
  /** The largest time value a Date can hold, in milliseconds either side of 1970. */
  const MaxTimeValue: int := 8_640_000_000_000_000
  /** The widest local-time offset in use, 14 hours. */
  const MaxOffset: int := 50_400_000

  /** The proleptic Gregorian year of the day `days` after 1 January 1970. */
  function YearOfDay(days: int): int
  {
    var z := days + 719468;
    var era := z / 146097;
    var dayOfEra := z - era * 146097;
    var yearOfEra := (dayOfEra - dayOfEra / 1460 + dayOfEra / 36524 - dayOfEra / 146096) / 365;
    var dayOfYear := dayOfEra - (365 * yearOfEra + yearOfEra / 4 - yearOfEra / 100);
    var shiftedMonth := (5 * dayOfYear + 2) / 153;
    var month := if shiftedMonth < 10 then shiftedMonth + 3 else shiftedMonth - 9;
    yearOfEra + era * 400 + (if month <= 2 then 1 else 0)
  }

  /** The day number of 1 January of `year`, counted from 1 January 1970. */
  function JanuaryFirst(year: int): int
  {
    var y := year - 1;
    var era := y / 400;
    var yearOfEra := y - era * 400;
    var dayOfEra := yearOfEra * 365 + yearOfEra / 4 - yearOfEra / 100 + 306;
    era * 146097 + dayOfEra - 719468
  }

  // The days the year test turns on: the last day of 1969, the epoch, and either side of 1 January 1984.

  lemma LastDayOf1969()
    ensures YearOfDay(-1) == 1969
  {
  }

  lemma FirstDayOf1970()
    ensures YearOfDay(0) == 1970
  {
  }

  lemma JanuaryFirst1984()
    ensures JanuaryFirst(1984) == 5113
  {
  }

  lemma LastDayOf1983()
    ensures YearOfDay(5112) == 1983
  {
  }

  lemma FirstDayOf1984()
    ensures YearOfDay(5113) == 1984
  {
  }

  /**
    `new Date(FIRE_YEAR)`'s time value, None for an invalid date. A number is
    taken as milliseconds since 1970; a four-digit year text is the ISO
    date-only form, midnight UTC on 1 January of that year.
   */
  function TimeValueAsWritten(field: FireYearField): Option<int>
  {
    match field
    case Number(n) => if -MaxTimeValue <= n <= MaxTimeValue then Some(n) else None
    case YearText(year) => if 0 <= year <= 9999 then Some(JanuaryFirst(year) * MsPerDay) else None
  }

  /** `.getFullYear()` where local time is `offset` milliseconds ahead of UTC; None is NaN. */
  function FireYearAsWritten(field: FireYearField, offset: int): Option<int>
  {
    match TimeValueAsWritten(field)
    case None => None
    case Some(time) => Some(YearOfDay((time + offset) / MsPerDay))
  }

  /** The filter's test as written; NaN >= 1984 is false. */
  predicate IsRecentAsWritten(f: Feature, offset: int)
  {
    match FireYearAsWritten(f.attributes.fireYear, offset)
    case None => false
    case Some(year) => year >= FirstRecentYear
  }

  function KeepRecentAsWritten(fs: seq<Feature>, offset: int): seq<Feature>
  {
    Filter(fs, f => IsRecentAsWritten(f, offset))
  }

  /** A year sent as a number is a few seconds from 1970, so its local year is 1969 or 1970. */
  lemma NumericYearIsReadAsMilliseconds(n: int, offset: int)
    requires 0 <= n <= 9999 && -MaxOffset <= offset <= MaxOffset
    ensures FireYearAsWritten(Number(n), offset) == Some(if n + offset < 0 then 1969 else 1970)
  {
    LastDayOf1969();
    FirstDayOf1970();
    if n + offset < 0 {
      assert (n + offset) / MsPerDay == -1;
    } else {
      assert (n + offset) / MsPerDay == 0;
    }
  }

  /** As written, a batch whose years are numbers loses every fire. */
  lemma NumericYearsAreAllDropped(fs: seq<Feature>, offset: int)
    requires forall f :: f in fs ==> f.attributes.fireYear.Number? && 0 <= f.attributes.fireYear.n <= 9999
    requires -MaxOffset <= offset <= MaxOffset
    ensures KeepRecentAsWritten(fs, offset) == []
  {
    var kept := KeepRecentAsWritten(fs, offset);
    if kept != [] {
      var f := kept[0];
      assert f in kept;
      NumericYearIsReadAsMilliseconds(f.attributes.fireYear.n, offset);
      assert false;
    }
  }

  /** West of UTC the text "1984" is still 1983 in local time, so the boundary year is dropped. */
  lemma TextYearWestOfUtc(offset: int)
    requires -MaxOffset <= offset < 0
    ensures FireYearAsWritten(YearText(1984), offset) == Some(1983)
  {
    JanuaryFirst1984();
    LastDayOf1983();
    assert (5113 * MsPerDay + offset) / MsPerDay == 5112;
  }

  /** At UTC and east of it the text "1984" reads as 1984. */
  lemma TextYearAtOrEastOfUtc(offset: int)
    requires 0 <= offset <= MaxOffset
    ensures FireYearAsWritten(YearText(1984), offset) == Some(1984)
  {
    JanuaryFirst1984();
    FirstDayOf1984();
    assert (5113 * MsPerDay + offset) / MsPerDay == 5113;
  }

  /** A 2020 fire sent with a numeric year: dropped as written, kept by the intended test. */
  lemma Fire2020Example(f: Feature, offset: int)
    requires f.attributes.fireYear == Number(2020)
    requires -MaxOffset <= offset <= MaxOffset
    ensures KeepRecentAsWritten([f], offset) == []
    ensures KeepRecent([f]) == [f]
  {
    NumericYearsAreAllDropped([f], offset);
    assert [f][..0] == [];
  }
}
