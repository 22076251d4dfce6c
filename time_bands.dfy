/** Stage 5, `calculate_time_based_toll_rates`: every priced row becomes one
    row per day of the week and time band, with every vehicle price scaled by
    the band's factor. */
module TimeBands {
  import opened TollRates

  datatype Day = Monday | Tuesday | Wednesday | Thursday | Friday | Saturday | Sunday

  const DaysOfWeek: seq<Day> := [Monday, Tuesday, Wednesday, Thursday, Friday, Saturday, Sunday]

  /** A time of day: hours, minutes and seconds. */
  datatype Time = Time(hour: nat, minute: nat, second: nat)

  /** A weekday band: its start, its end and the factor applied to the prices. */
  datatype Band = Band(start: Time, end: Time, factor: real)

  /** The weekday table, in its declaration order. */
  const WeekdayBands: seq<Band> := [
    Band(Time(0, 0, 0), Time(10, 0, 0), 0.8),
    Band(Time(10, 0, 0), Time(18, 0, 0), 1.2),
    Band(Time(18, 0, 0), Time(23, 59, 59), 0.8)
  ]

  const WeekendFactor: real := 0.7

  /** One output row. Only the five price columns are carried over. */
  datatype ScheduledPrice = ScheduledPrice(
    id_start: int, id_end: int,
    start_day: Day, start_time: Time, end_day: Day, end_time: Time,
    prices: map<Vehicle, real>)

  datatype Option<T> = None | Some(value: T)

  /** Reading a price column the row does not have: which row and which column. */
  datatype Error = MissingColumn(row: nat, column: Vehicle)

  datatype Result<T> = Ok(value: T) | Err(error: Error)

  /** Every price column the expansion reads is present. */
  predicate HasVehicleColumns(row: PricedPair) {
    forall v :: v in VehicleColumns ==> v in row.prices
  }

  predicate AllPriced(rows: seq<PricedPair>) {
    forall k :: 0 <= k < |rows| ==> HasVehicleColumns(rows[k])
  }

  /** The position of the first price column, in reading order, that `prices` lacks. */
  function FirstMissing(prices: map<Vehicle, real>, from: nat): (r: Option<nat>)
    requires from <= |VehicleColumns|
    ensures r.None? <==> forall q :: from <= q < |VehicleColumns| ==> VehicleColumns[q] in prices
    ensures r.Some? ==> from <= r.value < |VehicleColumns| && VehicleColumns[r.value] !in prices &&
                        forall q :: from <= q < r.value ==> VehicleColumns[q] in prices
    decreases |VehicleColumns| - from
  {
    if from == |VehicleColumns| then None
    else if VehicleColumns[from] !in prices then Some(from)
    else FirstMissing(prices, from + 1)
  }

  /** The five prices, each multiplied by `factor`. */
  function Scaled(prices: map<Vehicle, real>, factor: real): (scaled: map<Vehicle, real>)
    requires forall v :: v in VehicleColumns ==> v in prices
  {
    map v | v in VehicleColumns :: prices[v] * factor
  }

  function Entry(row: PricedPair, day: Day, start: Time, end: Time, factor: real): ScheduledPrice
    requires HasVehicleColumns(row)
  {
    ScheduledPrice(row.id_start, row.id_end, day, start, day, end, Scaled(row.prices, factor))
  }

  /** The rows for the first `b` weekday bands of `day`. */
  function WeekdayEntries(row: PricedPair, day: Day, b: nat): seq<ScheduledPrice>
    requires HasVehicleColumns(row) && b <= |WeekdayBands|
  {
    if b == 0 then []
    else
      var band := WeekdayBands[b - 1];
      WeekdayEntries(row, day, b - 1) + [Entry(row, day, band.start, band.end, band.factor)]
  }

  /** The rows for the first `h` hours of a weekend `day`: start and end are both `hour:00`. */
  function WeekendEntries(row: PricedPair, day: Day, h: nat): seq<ScheduledPrice>
    requires HasVehicleColumns(row) && h <= 24
  {
    if h == 0 then []
    else WeekendEntries(row, day, h - 1) + [Entry(row, day, Time(h - 1, 0, 0), Time(h - 1, 0, 0), WeekendFactor)]
  }

  /** A weekday is one of the first five days of the list. */
  predicate IsWeekday(day: Day) {
    day in DaysOfWeek[..5]
  }

  function DayEntries(row: PricedPair, day: Day): seq<ScheduledPrice>
    requires HasVehicleColumns(row)
  {
    if IsWeekday(day) then WeekdayEntries(row, day, |WeekdayBands|) else WeekendEntries(row, day, 24)
  }

  /** The rows for the first `d` days of the week. */
  function RowEntries(row: PricedPair, d: nat): seq<ScheduledPrice>
    requires HasVehicleColumns(row) && d <= |DaysOfWeek|
  {
    if d == 0 then [] else RowEntries(row, d - 1) + DayEntries(row, DaysOfWeek[d - 1])
  }

  /** The whole expansion, row after row. */
  function Schedule(rows: seq<PricedPair>): seq<ScheduledPrice>
    requires AllPriced(rows)
  {
    if rows == [] then []
    else Schedule(rows[..|rows| - 1]) + RowEntries(rows[|rows| - 1], |DaysOfWeek|)
  }

  /** Extending a fully priced prefix by one priced row. */
  lemma AllPricedNext(rows: seq<PricedPair>, k: nat)
    requires k < |rows| && AllPriced(rows[..k]) && HasVehicleColumns(rows[k])
    ensures AllPriced(rows[..k + 1])
    ensures Schedule(rows[..k + 1]) == Schedule(rows[..k]) + RowEntries(rows[k], |DaysOfWeek|)
  {
    assert rows[..k + 1][..k] == rows[..k];
  }

  /** The body of the day loop: a weekday gets one row per band, a weekend
      day one row per hour, appended to `results`. */
  method AppendDay(results: seq<ScheduledPrice>, row: PricedPair, day: Day) returns (extended: seq<ScheduledPrice>)
    requires HasVehicleColumns(row)
    ensures extended == results + DayEntries(row, day)
  {
    extended := results;
    if day in DaysOfWeek[..5] {
      for b := 0 to |WeekdayBands|
        invariant extended == results + WeekdayEntries(row, day, b)
      {
        var band := WeekdayBands[b];
        extended := extended + [Entry(row, day, band.start, band.end, band.factor)];
      }
    } else {
      for hour := 0 to 24
        invariant extended == results + WeekendEntries(row, day, hour)
      {
        var time := Time(hour, 0, 0);
        extended := extended + [Entry(row, day, time, time, WeekendFactor)];
      }
    }
  }

  /** The body of the row loop: the rows of every day of the week, in order. */
  method AppendRow(results: seq<ScheduledPrice>, row: PricedPair) returns (extended: seq<ScheduledPrice>)
    requires HasVehicleColumns(row)
    ensures extended == results + RowEntries(row, |DaysOfWeek|)
  {
    extended := results;
    for d := 0 to |DaysOfWeek|
      invariant extended == results + RowEntries(row, d)
    {
      extended := AppendDay(extended, row, DaysOfWeek[d]);
    }
  }

  /** The loop over the rows; a row lacking a price column stops
      the expansion with an error. */
  method CalculateTimeBasedTollRates(rows: seq<PricedPair>) returns (result: Result<seq<ScheduledPrice>>)
    ensures result.Ok? <==> AllPriced(rows)
    ensures result.Ok? ==> result.value == Schedule(rows)
    ensures result.Err? ==>
              var k := result.error.row;
              k < |rows| && AllPriced(rows[..k]) && !HasVehicleColumns(rows[k]) &&
              exists p :: 0 <= p < |VehicleColumns| && VehicleColumns[p] == result.error.column &&
                          result.error.column !in rows[k].prices &&
                          forall q :: 0 <= q < p ==> VehicleColumns[q] in rows[k].prices
  {
    var results: seq<ScheduledPrice> := [];
    for k := 0 to |rows|
      invariant AllPriced(rows[..k])
      invariant results == Schedule(rows[..k])
    {
      var row := rows[k];
      var missing := FirstMissing(row.prices, 0);
      if missing.Some? {
        return Err(MissingColumn(k, VehicleColumns[missing.value]));
      }
      AllPricedNext(rows, k);
      results := AppendRow(results, row);
    }
    assert rows[..|rows|] == rows;
    return Ok(results);
  }

  /** The slot that position `s` of one row's 63 rows stands for: five
      weekdays of three bands, then two weekend days of 24 hours. */
  datatype Slot = Slot(day: Day, start: Time, end: Time, factor: real)

  function SlotAt(s: nat): Slot
    requires s < 63
  {
    if s < 15 then
      var band := WeekdayBands[s % 3];
      Slot(DaysOfWeek[s / 3], band.start, band.end, band.factor)
    else
      var hour := Time((s - 15) % 24, 0, 0);
      Slot(DaysOfWeek[5 + (s - 15) / 24], hour, hour, WeekendFactor)
  }

  function SlotEntry(row: PricedPair, slot: Slot): ScheduledPrice
    requires HasVehicleColumns(row)
  {
    Entry(row, slot.day, slot.start, slot.end, slot.factor)
  }

  lemma {:induction false} WeekdayEntriesAt(row: PricedPair, day: Day, b: nat, x: nat)
    requires HasVehicleColumns(row) && x < b <= |WeekdayBands|
    ensures |WeekdayEntries(row, day, b)| == b
    ensures WeekdayEntries(row, day, b)[x] ==
              Entry(row, day, WeekdayBands[x].start, WeekdayBands[x].end, WeekdayBands[x].factor)
  {
    if x < b - 1 {
      WeekdayEntriesAt(row, day, b - 1, x);
    } else if b > 1 {
      WeekdayEntriesAt(row, day, b - 1, 0);
    }
  }

  lemma {:induction false} WeekendEntriesAt(row: PricedPair, day: Day, h: nat, x: nat)
    requires HasVehicleColumns(row) && x < h <= 24
    ensures |WeekendEntries(row, day, h)| == h
    ensures WeekendEntries(row, day, h)[x] == Entry(row, day, Time(x, 0, 0), Time(x, 0, 0), WeekendFactor)
  {
    if x < h - 1 {
      WeekendEntriesAt(row, day, h - 1, x);
    } else if h > 1 {
      WeekendEntriesAt(row, day, h - 1, 0);
    }
  }

  /** Number of rows for the first `d` days. */
  function RowsForDays(d: nat): nat {
    if d <= 5 then 3 * d else 15 + 24 * (d - 5)
  }

  /** Position `x` within day `p` is the slot at RowsForDays(p) + x. */
  lemma SlotWithinDay(p: nat, x: nat)
    requires p < 7 && x < (if p < 5 then 3 else 24)
    ensures RowsForDays(p) + x < 63
    ensures SlotAt(RowsForDays(p) + x) ==
              if p < 5 then Slot(DaysOfWeek[p], WeekdayBands[x].start, WeekdayBands[x].end, WeekdayBands[x].factor)
              else Slot(DaysOfWeek[p], Time(x, 0, 0), Time(x, 0, 0), WeekendFactor)
  {
    var s := RowsForDays(p) + x;
    if p < 5 {
      assert s / 3 == p && s % 3 == x;
    } else {
      assert (s - 15) / 24 == p - 5 && (s - 15) % 24 == x;
    }
  }

  /** Number of rows one day contributes: three bands or 24 hours. */
  function DayLength(p: nat): nat {
    if p < 5 then |WeekdayBands| else 24
  }

  lemma DayEntriesAt(row: PricedPair, p: nat, x: nat)
    requires HasVehicleColumns(row) && p < 7 && x < DayLength(p)
    ensures |DayEntries(row, DaysOfWeek[p])| == DayLength(p)
    ensures RowsForDays(p) + x < 63
    ensures DayEntries(row, DaysOfWeek[p])[x] == SlotEntry(row, SlotAt(RowsForDays(p) + x))
  {
    var day := DaysOfWeek[p];
    if p < 5 {
      assert IsWeekday(day) by { assert DaysOfWeek[..5][p] == day; }
      WeekdayEntriesAt(row, day, 3, x);
    } else {
      assert !IsWeekday(day);
      WeekendEntriesAt(row, day, 24, x);
    }
    SlotWithinDay(p, x);
  }

  lemma {:induction false} RowEntriesLength(row: PricedPair, d: nat)
    requires HasVehicleColumns(row) && d <= 7
    ensures |RowEntries(row, d)| == RowsForDays(d)
  {
    if d > 0 {
      RowEntriesLength(row, d - 1);
      DayEntriesAt(row, d - 1, 0);
    }
  }

  lemma {:induction false} RowEntriesAt(row: PricedPair, d: nat, s: nat)
    requires HasVehicleColumns(row) && d <= 7 && s < RowsForDays(d)
    ensures |RowEntries(row, d)| == RowsForDays(d)
    ensures RowEntries(row, d)[s] == SlotEntry(row, SlotAt(s))
  {
    RowEntriesLength(row, d);
    var p := d - 1;
    RowEntriesLength(row, p);
    if s < RowsForDays(p) {
      RowEntriesAt(row, p, s);
    } else {
      DayEntriesAt(row, p, s - RowsForDays(p));
    }
  }

  /** The expansion has 63 rows per input row. */
  lemma {:induction false} ScheduleLength(rows: seq<PricedPair>)
    requires AllPriced(rows)
    ensures |Schedule(rows)| == 63 * |rows|
  {
    if rows != [] {
      var n := |rows| - 1;
      assert AllPriced(rows[..n]);
      ScheduleLength(rows[..n]);
      RowEntriesLength(rows[n], 7);
    }
  }

  /** The row `t / 63` of the input, at position `t % 63` within it. */
  lemma RowOfPosition(t: nat, n: nat)
    requires 63 * n <= t < 63 * n + 63
    ensures t / 63 == n && t % 63 == t - 63 * n
  {
  }

  lemma {:induction false} ScheduleEntryAt(rows: seq<PricedPair>, t: nat)
    requires AllPriced(rows) && t < 63 * |rows|
    ensures |Schedule(rows)| == 63 * |rows|
    ensures Schedule(rows)[t] == SlotEntry(rows[t / 63], SlotAt(t % 63))
  {
    ScheduleLength(rows);
    var n := |rows| - 1;
    var init := rows[..n];
    assert AllPriced(init);
    ScheduleLength(init);
    if t < 63 * n {
      ScheduleEntryAt(init, t);
      assert rows[t / 63] == init[t / 63];
    } else {
      RowOfPosition(t, n);
      RowEntriesAt(rows[n], 7, t - 63 * n);
    }
  }

  /** Output row `t` comes from input row `t / 63`: it copies the ids, has one
      day as both start and end, and applies 0.8, 1.2, 0.8 across the weekday
      bands and 0.7 on every weekend hour, whose start and end times coincide. */
  lemma ScheduleAt(rows: seq<PricedPair>, t: nat)
    requires AllPriced(rows) && t < 63 * |rows|
    ensures |Schedule(rows)| == 63 * |rows|
    ensures var e, row, s := Schedule(rows)[t], rows[t / 63], t % 63;
            && e.id_start == row.id_start && e.id_end == row.id_end
            && e.start_day == e.end_day
            && (s < 15 ==>
                  && e.start_day == DaysOfWeek[s / 3] && e.start_day != Saturday && e.start_day != Sunday
                  && e.start_time == WeekdayBands[s % 3].start && e.end_time == WeekdayBands[s % 3].end
                  && e.prices == Scaled(row.prices, [0.8, 1.2, 0.8][s % 3]))
            && (15 <= s ==>
                  && e.start_day == DaysOfWeek[5 + (s - 15) / 24] && (e.start_day == Saturday || e.start_day == Sunday)
                  && e.start_time == Time((s - 15) % 24, 0, 0) && e.end_time == e.start_time
                  && e.prices == Scaled(row.prices, 0.7))
  {
    ScheduleEntryAt(rows, t);
    var s := t % 63;
    if s < 15 {
      assert WeekdayBands[s % 3].factor == [0.8, 1.2, 0.8][s % 3];
      assert s / 3 < 5;
    } else {
      assert 5 + (s - 15) / 24 < 7;
    }
  }

  /** One pair 15 apart, priced by every vehicle coefficient: its car price
      18 becomes 21.6 in Monday's 10:00-18:00 band and 12.6 in Saturday's
      first hour. */
  lemma ScheduleExample()
    ensures var row := PricedPair(1, 3, 15.0, PricesAfter(15.0, |Rates|));
            && AllPriced([row])
            && |Schedule([row])| == 63
            && Schedule([row])[1].start_day == Monday
            && Schedule([row])[1].start_time == Time(10, 0, 0) && Schedule([row])[1].end_time == Time(18, 0, 0)
            && Car in Schedule([row])[1].prices && Schedule([row])[1].prices[Car] == 21.6
            && Schedule([row])[15].start_day == Saturday && Schedule([row])[15].start_time == Time(0, 0, 0)
            && Car in Schedule([row])[15].prices && Schedule([row])[15].prices[Car] == 12.6
  {
    var row := PricedPair(1, 3, 15.0, PricesAfter(15.0, |Rates|));
    PricesAfterAll(15.0);
    assert HasVehicleColumns(row);
    ScheduleAt([row], 1);
    ScheduleAt([row], 15);
  }
}
