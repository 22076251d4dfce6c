/** Stage 3, `find_ids_within_ten_percentage_threshold`: the start ids whose
    mean distance lies within ten percent of the reference id's mean. */
module Proximity {
  import opened Sequences
  import opened Unroll

  /** The distances of the rows that start at `id`, in table order. */
  function DistancesFrom(rows: seq<DistancePair>, id: int): seq<real>
    decreases |rows|
  {
    if rows == [] then []
    else
      var last := rows[|rows| - 1];
      DistancesFrom(rows[..|rows| - 1], id) + (if last.id_start == id then [last.distance] else [])
  }

  function Sum(xs: seq<real>): real
    decreases |xs|
  {
    if xs == [] then 0.0 else Sum(xs[..|xs| - 1]) + xs[|xs| - 1]
  }

  function Mean(xs: seq<real>): real
    requires |xs| > 0
  {
    Sum(xs) / (|xs| as real)
  }

  /** The id_start column. */
  function StartIds(rows: seq<DistancePair>): seq<int> {
    seq(|rows|, k requires 0 <= k < |rows| => rows[k].id_start)
  }

  /** An id has distances exactly when it starts some row. */
  lemma {:induction false} DistancesFromNonEmpty(rows: seq<DistancePair>, id: int)
    ensures |DistancesFrom(rows, id)| > 0 <==> id in StartIds(rows)
  {
    if rows != [] {
      var init := rows[..|rows| - 1];
      DistancesFromNonEmpty(init, id);
      assert StartIds(rows) == StartIds(init) + [rows[|rows| - 1].id_start];
    }
  }

  /** The closed window [0.9 * reference, 1.1 * reference]. */
  predicate WithinTenPercent(average: real, reference: real) {
    average >= reference * 0.90 && average <= reference * 1.10
  }

  /** A mean lies in its own window exactly when it is not negative. */
  lemma SelfWithinTenPercent(average: real)
    ensures WithinTenPercent(average, average) <==> average >= 0.0
  {
  }

  /** One row of the answer: an id and its mean distance. */
  datatype AverageDistance = AverageDistance(id_start: int, distance: real)

  function Ids(result: seq<AverageDistance>): seq<int> {
    seq(|result|, k requires 0 <= k < |result| => result[k].id_start)
  }

  lemma IdsHoldEveryRow(result: seq<AverageDistance>)
    ensures forall k :: 0 <= k < |result| ==> result[k].id_start in Ids(result)
  {
    forall k | 0 <= k < |result| ensures result[k].id_start in Ids(result) {
      assert Ids(result)[k] == result[k].id_start;
    }
  }

  /** Whether `id` belongs in the answer: both it and the reference start
      some row, and its mean distance lies in the reference's window. */
  predicate Selected(rows: seq<DistancePair>, referenceId: int, id: int) {
    var own, reference := DistancesFrom(rows, id), DistancesFrom(rows, referenceId);
    |own| > 0 && |reference| > 0 && WithinTenPercent(Mean(own), Mean(reference))
  }

  /** Putting a smaller id in front keeps the ids ascending. */
  lemma PrependAscending(x: AverageDistance, rest: seq<AverageDistance>)
    requires StrictlyAscending(Ids(rest))
    requires forall id :: id in Ids(rest) ==> x.id_start < id
    ensures StrictlyAscending(Ids([x] + rest))
    ensures forall id :: id in Ids([x] + rest) <==> id == x.id_start || id in Ids(rest)
  {
    assert Ids([x] + rest) == [x.id_start] + Ids(rest);
    IdsHoldEveryRow(rest);
  }

  /** The filter over the ascending group keys, each with its group mean. */
  function KeepWithin(rows: seq<DistancePair>, ids: seq<int>, reference: real): (kept: seq<AverageDistance>)
    requires StrictlyAscending(ids)
    requires forall id :: id in ids ==> |DistancesFrom(rows, id)| > 0
    ensures StrictlyAscending(Ids(kept))
    ensures forall k :: 0 <= k < |kept| ==>
              kept[k].id_start in ids && kept[k].distance == Mean(DistancesFrom(rows, kept[k].id_start))
    ensures forall id :: id in Ids(kept) <==>
              id in ids && WithinTenPercent(Mean(DistancesFrom(rows, id)), reference)
  {
    if ids == [] then []
    else
      assert forall id :: id in ids[1..] ==> ids[0] < id by {
        forall id | id in ids[1..] ensures ids[0] < id {
          var k :| 0 <= k < |ids[1..]| && ids[1..][k] == id;
          assert ids[k + 1] == id;
        }
      }
      assert forall id :: id in ids <==> id == ids[0] || id in ids[1..] by {
        assert ids == [ids[0]] + ids[1..];
      }
      var rest := KeepWithin(rows, ids[1..], reference);
      var average := Mean(DistancesFrom(rows, ids[0]));
      if WithinTenPercent(average, reference) then
        var x := AverageDistance(ids[0], average);
        PrependAscending(x, rest);
        [x] + rest
      else
        rest
  }

  /** The stage: the reference mean, the per-id means, the inclusive window
      and the ascending order. A reference that starts no row has no mean, and
      then nothing passes the window. */
  function FindIdsWithinTenPercentageThreshold(rows: seq<DistancePair>, referenceId: int): (result: seq<AverageDistance>)
    ensures StrictlyAscending(Ids(result))
    ensures forall id :: id in Ids(result) <==> Selected(rows, referenceId, id)
    ensures forall k :: 0 <= k < |result| ==>
              |DistancesFrom(rows, result[k].id_start)| > 0 &&
              result[k].distance == Mean(DistancesFrom(rows, result[k].id_start))
    ensures |DistancesFrom(rows, referenceId)| > 0 ==>
              (referenceId in Ids(result) <==> Mean(DistancesFrom(rows, referenceId)) >= 0.0)
  {
    var referenceDistances := DistancesFrom(rows, referenceId);
    if |referenceDistances| == 0 then []
    else
      var reference := Mean(referenceDistances);
      var groups := SortAscending(Dedup(StartIds(rows)));
      forall id | id in groups ensures |DistancesFrom(rows, id)| > 0 {
        DistancesFromNonEmpty(rows, id);
      }
      forall id ensures id in groups <==> |DistancesFrom(rows, id)| > 0 {
        DistancesFromNonEmpty(rows, id);
      }
      var result := KeepWithin(rows, groups, reference);
      IdsHoldEveryRow(result);
      SelfWithinTenPercent(reference);
      assert forall id :: id in Ids(result) <==> Selected(rows, referenceId, id);
      result
  }

  lemma {:induction false} SumNonNegative(xs: seq<real>)
    requires forall k :: 0 <= k < |xs| ==> xs[k] >= 0.0
    ensures Sum(xs) >= 0.0
  {
    if xs != [] {
      SumNonNegative(xs[..|xs| - 1]);
    }
  }

  lemma {:induction false} DistancesFromNonNegative(rows: seq<DistancePair>, id: int)
    requires forall r :: r in rows ==> r.distance >= 0.0
    ensures forall k :: 0 <= k < |DistancesFrom(rows, id)| ==> DistancesFrom(rows, id)[k] >= 0.0
  {
    if rows != [] {
      DistancesFromNonNegative(rows[..|rows| - 1], id);
      assert rows[|rows| - 1] in rows;
    }
  }

  /** With non-negative distances, as the closed matrix yields, the
      reference id is always part of its own answer. */
  lemma ReferenceIncluded(rows: seq<DistancePair>, referenceId: int)
    requires forall r :: r in rows ==> r.distance >= 0.0
    requires referenceId in StartIds(rows)
    ensures referenceId in Ids(FindIdsWithinTenPercentageThreshold(rows, referenceId))
  {
    DistancesFromNonEmpty(rows, referenceId);
    DistancesFromNonNegative(rows, referenceId);
    var xs := DistancesFrom(rows, referenceId);
    SumNonNegative(xs);
    assert Mean(xs) >= 0.0;
  }
}
