/** Stage 4, `calculate_toll_rate`: one price column per vehicle class, each
    the distance times that class's fixed coefficient. */
module TollRates {
  import opened Unroll

  datatype Vehicle = Moto | Car | Rv | Bus | Truck

  /** The price columns in the order the table lists them. */
  const VehicleColumns: seq<Vehicle> := [Moto, Car, Rv, Bus, Truck]

  /** The coefficient table, in its declaration order. */
  const Rates: seq<(Vehicle, real)> := [(Moto, 0.8), (Car, 1.2), (Rv, 1.5), (Bus, 2.2), (Truck, 3.6)]

  /** A row of the unrolled table together with the price columns present so far. */
  datatype PricedPair = PricedPair(id_start: int, id_end: int, distance: real, prices: map<Vehicle, real>)

  /** The price columns after the first `v` coefficients have been applied. */
  function PricesAfter(distance: real, v: nat): map<Vehicle, real>
    requires v <= |Rates|
  {
    if v == 0 then map[]
    else PricesAfter(distance, v - 1)[Rates[v - 1].0 := distance * Rates[v - 1].1]
  }

  /** Applying coefficient `v` adds or overwrites exactly that vehicle's column. */
  lemma PricesAfterStep(d: real, v: nat)
    requires v < |Rates|
    ensures PricesAfter(d, v + 1) == PricesAfter(d, v)[Rates[v].0 := d * Rates[v].1]
  {
  }

  /** After all five coefficients, a distance has exactly the five prices. */
  lemma PricesAfterAll(d: real)
    ensures var p := PricesAfter(d, |Rates|);
            p.Keys == {Moto, Car, Rv, Bus, Truck} &&
            p[Moto] == d * 0.8 && p[Car] == d * 1.2 && p[Rv] == d * 1.5 && p[Bus] == d * 2.2 && p[Truck] == d * 3.6
  {
    assert Rates[0] == (Moto, 0.8) && Rates[1] == (Car, 1.2) && Rates[2] == (Rv, 1.5);
    assert Rates[3] == (Bus, 2.2) && Rates[4] == (Truck, 3.6);
    var p1 := PricesAfter(d, 1);
    assert p1 == PricesAfter(d, 0)[Moto := d * 0.8];
    assert p1 == map[Moto := d * 0.8];
    var p2 := PricesAfter(d, 2);
    assert p2 == p1[Car := d * 1.2];
    var p3 := PricesAfter(d, 3);
    assert p3 == p2[Rv := d * 1.5];
    var p4 := PricesAfter(d, 4);
    assert p4 == p3[Bus := d * 2.2];
    var p5 := PricesAfter(d, 5);
    assert p5 == p4[Truck := d * 3.6];
    assert p5.Keys == {Moto, Car, Rv, Bus, Truck};
  }

  /** Adds the five columns, one coefficient at a time; every other column of
      every row, and the rows' number and order, stay as they were. */
  method CalculateTollRate(rows: seq<DistancePair>) returns (priced: seq<PricedPair>)
    ensures |priced| == |rows|
    ensures forall k :: 0 <= k < |rows| ==>
              priced[k].id_start == rows[k].id_start && priced[k].id_end == rows[k].id_end &&
              priced[k].distance == rows[k].distance
    ensures forall k :: 0 <= k < |rows| ==>
              var d, p := rows[k].distance, priced[k].prices;
              p.Keys == {Moto, Car, Rv, Bus, Truck} &&
              p[Moto] == d * 0.8 && p[Car] == d * 1.2 && p[Rv] == d * 1.5 && p[Bus] == d * 2.2 && p[Truck] == d * 3.6
  {
    priced := seq(|rows|, k requires 0 <= k < |rows| =>
      PricedPair(rows[k].id_start, rows[k].id_end, rows[k].distance, map[]));
    for v := 0 to |Rates|
      invariant |priced| == |rows|
      invariant forall k :: 0 <= k < |rows| ==>
                  priced[k] == PricedPair(rows[k].id_start, rows[k].id_end, rows[k].distance, PricesAfter(rows[k].distance, v))
    {
      var vehicle, rate := Rates[v].0, Rates[v].1;
      var next := seq(|priced|, k requires 0 <= k < |priced| =>
        var row := priced[k];
        PricedPair(row.id_start, row.id_end, row.distance, row.prices[vehicle := row.distance * rate]));
      forall k | 0 <= k < |rows|
        ensures next[k] == PricedPair(rows[k].id_start, rows[k].id_end, rows[k].distance, PricesAfter(rows[k].distance, v + 1))
      {
        PricesAfterStep(rows[k].distance, v);
      }
      priced := next;
    }
    forall k | 0 <= k < |rows| {
      PricesAfterAll(rows[k].distance);
    }
  }
}
