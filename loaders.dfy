/** The date-keyed selections the Greenland albedo dashboard makes before it
    draws anything: the Watson River flux window, the hourly and daily weather
    station series, the year-partitioned hexagon snapshot, the albedo slice and
    the histogram-rectangle lookup. Tables are given as sequences of rows;
    reading them from disk is not modelled. */
module Loaders {
  import opened Tables

  /** Instants are integers (seconds on one fixed clock); a calendar day is
      the instant of its midnight. */
  const SecondsPerDay: int := 86400

  /** The date the user picked, with the year and day-of-year the calendar
      library derives from it. */
  datatype CalendarDay = CalendarDay(year: int, dayOfYear: int, midnight: int)

  /** `t` lies within `days` whole days of `centre`, both ends included. */
  predicate WithinDays(t: int, centre: int, days: nat)
  {
    centre - days * SecondsPerDay <= t && t <= centre + days * SecondsPerDay
  }

  datatype LoadError = NoHistogramForDate | NoPartitionForYear(year: int)

  // ---------------------------------------------------------------- rows

  /** One hourly Watson River record: its calendar date, its timestamp and the flux. */
  datatype FluxRow = FluxRow(date: int, datetimeDate: int, flux: real)

  /** One hourly reading of a KAN weather station. */
  datatype HourlyRow = HourlyRow(datetimeDate: int, ta: real)

  /** One daily reading of a KAN weather station. */
  datatype DailyRow = DailyRow(year: int, dayOfYear: int, airTemperatureC: real)

  /** One hexagon cell on one date with its three relative abundances. */
  datatype HexRow = HexRow(datetimeDate: int, cell: int, darkIce: real, wetSnow: real, snow: real)

  /** One satellite albedo observation, stored under its (yyyy, doy) partition. */
  datatype AlbedoPoint = AlbedoPoint(yyyy: int, doy: int, lat: real, lon: real, elev: real, albedo: real, temp: real)

  /** One bar of the precomputed albedo histogram: it starts at albedo `yfrom`
      and is `w` wide (the share of observations) and `h` high. */
  datatype Rect = Rect(yfrom: int, w: real, h: real)

  /** One row of the histogram table: the bars for one (yyyy, doy). */
  datatype HistogramRow = HistogramRow(yyyy: int, doy: int, histogram: seq<Rect>)

  // ---------------------------------------------------------------- windows

  /** The Watson River rows whose date is at most seven days before or after
      the selected day; an empty window is an ordinary answer. */
  function FluxWindow(rows: seq<FluxRow>, d: CalendarDay): (r: seq<FluxRow>)
    ensures IsSubsequence(r, rows)
    ensures forall x :: x in r <==> x in rows && WithinDays(x.date, d.midnight, 7)
    ensures forall x :: multiset(r)[x] == if WithinDays(x.date, d.midnight, 7) then multiset(rows)[x] else 0
  {
    Filter(rows, (x: FluxRow) => WithinDays(x.date, d.midnight, 7))
  }

  /** The hourly station rows at most fourteen days before or after midnight of
      the selected day; used for KAN_B and KAN_L alike. */
  function HourlyWindow(rows: seq<HourlyRow>, d: CalendarDay): (r: seq<HourlyRow>)
    ensures IsSubsequence(r, rows)
    ensures forall x :: x in r <==> x in rows && WithinDays(x.datetimeDate, d.midnight, 14)
    ensures forall x :: multiset(r)[x] == if WithinDays(x.datetimeDate, d.midnight, 14) then multiset(rows)[x] else 0
  {
    Filter(rows, (x: HourlyRow) => WithinDays(x.datetimeDate, d.midnight, 14))
  }

  /** The daily station rows of the selected year: the points drawn in black. */
  function DailyOfYear(rows: seq<DailyRow>, year: int): (r: seq<DailyRow>)
    ensures IsSubsequence(r, rows)
    ensures forall x :: x in r <==> x in rows && x.year == year
    ensures forall x :: multiset(r)[x] == if x.year == year then multiset(rows)[x] else 0
  {
    Filter(rows, (x: DailyRow) => x.year == year)
  }

  // ---------------------------------------------------------------- exact keys

  /** The hexagon snapshot: the partition of the selected day's year, cut down
      to the rows of exactly that day. A year without a partition is an error;
      a day without rows gives an empty snapshot. */
  function HexagonSnapshot(partitions: map<int, seq<HexRow>>, d: CalendarDay): (r: Result<seq<HexRow>, LoadError>)
    ensures r.Err? <==> d.year !in partitions
    ensures r.Err? ==> r.error == NoPartitionForYear(d.year)
    ensures r.Ok? ==> IsSubsequence(r.value, partitions[d.year])
    ensures r.Ok? ==> forall x :: x in r.value <==> x in partitions[d.year] && x.datetimeDate == d.midnight
    ensures r.Ok? ==> forall x :: multiset(r.value)[x] ==
                        if x.datetimeDate == d.midnight then multiset(partitions[d.year])[x] else 0
  {
    if d.year !in partitions then Err(NoPartitionForYear(d.year))
    else Ok(Filter(partitions[d.year], (x: HexRow) => x.datetimeDate == d.midnight))
  }

  /** The albedo observations of one (yyyy, doy) partition. */
  function AlbedoSlice(store: seq<AlbedoPoint>, yyyy: int, doy: int): (r: seq<AlbedoPoint>)
    ensures IsSubsequence(r, store)
    ensures forall x :: x in r <==> x in store && x.yyyy == yyyy && x.doy == doy
    ensures forall x :: multiset(r)[x] == if x.yyyy == yyyy && x.doy == doy then multiset(store)[x] else 0
  {
    Filter(store, (x: AlbedoPoint) => x.yyyy == yyyy && x.doy == doy)
  }

  predicate HasKey(row: HistogramRow, yyyy: int, doy: int)
  {
    row.yyyy == yyyy && row.doy == doy
  }

  /** The histogram of the first table row keyed (yyyy, doy); later rows with
      the same key are ignored, and no such row is an error. */
  function HistogramFor(table: seq<HistogramRow>, yyyy: int, doy: int): (r: Result<seq<Rect>, LoadError>)
    ensures r.Err? <==> forall i :: 0 <= i < |table| ==> !HasKey(table[i], yyyy, doy)
    ensures r.Err? ==> r.error == NoHistogramForDate
  {
    var matches := Filter(table, (row: HistogramRow) => HasKey(row, yyyy, doy));
    if matches == [] then
      assert forall i :: 0 <= i < |table| ==> table[i] in table;
      Err(NoHistogramForDate)
    else Ok(matches[0].histogram)
  }

  /** The lookup answers with the first row carrying the key. */
  lemma HistogramForFirstMatch(table: seq<HistogramRow>, yyyy: int, doy: int, i: nat)
    requires i < |table| && HasKey(table[i], yyyy, doy)
    requires forall j :: 0 <= j < i ==> !HasKey(table[j], yyyy, doy)
    ensures HistogramFor(table, yyyy, doy) == Ok(table[i].histogram)
  {
    FilterHead(table, (row: HistogramRow) => HasKey(row, yyyy, doy), i);
  }

  /** Narrowing an already narrowed flux window with the same day changes nothing. */
  lemma FluxWindowIdempotent(rows: seq<FluxRow>, d: CalendarDay)
    ensures FluxWindow(FluxWindow(rows, d), d) == FluxWindow(rows, d)
  {
    FilterIdempotent(rows, (x: FluxRow) => WithinDays(x.date, d.midnight, 7));
  }

  // ---------------------------------------------------------------- albedo slice

  /** The page's albedo object: the observations and the histogram bars of the
      last day it loaded. */
  class Albedo {
    var points: seq<AlbedoPoint>
    var rectangles: seq<Rect>

    constructor ()
      ensures points == [] && rectangles == []
    {
      points := [];
      rectangles := [];
    }

    /** Loads the observations of (yyyy, doy), then the histogram of that day.
        The observations are replaced first, so a missing histogram leaves the
        new observations beside the old bars and reports the error. */
    method GetData(store: seq<AlbedoPoint>, table: seq<HistogramRow>, yyyy: int, doy: int)
      returns (failure: Option<LoadError>)
      modifies this
      ensures points == AlbedoSlice(store, yyyy, doy)
      ensures HistogramFor(table, yyyy, doy).Ok? ==>
                failure == None && rectangles == HistogramFor(table, yyyy, doy).value
      ensures HistogramFor(table, yyyy, doy).Err? ==>
                failure == Some(NoHistogramForDate) && rectangles == old(rectangles)
    {
      points := AlbedoSlice(store, yyyy, doy);
      var found := HistogramFor(table, yyyy, doy);
      if found.Ok? {
        rectangles := found.value;
        failure := None;
      } else {
        failure := Some(found.error);
      }
    }
  }
}
