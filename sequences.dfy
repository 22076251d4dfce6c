/** Sequence helpers shared by the pipeline stages: first-seen de-duplication
    (the location list and the groupby keys), label lookup and ascending order. */
module Sequences {

  /** No value occurs twice in `s`. */
  predicate NoDup<T(==)>(s: seq<T>) {
    forall i, j :: 0 <= i < j < |s| ==> s[i] != s[j]
  }

  /** Sorted ascending with no repeated value. */
  predicate StrictlyAscending(s: seq<int>) {
    forall i, j :: 0 <= i < j < |s| ==> s[i] < s[j]
  }

  /** Position of the first occurrence of `x` in `s`: how a label is looked up. */
  function IndexOf(s: seq<int>, x: int): (p: nat)
    requires x in s
    ensures p < |s| && s[p] == x && x !in s[..p]
  {
    if s[0] == x then 0
    else
      var p := 1 + IndexOf(s[1..], x);
      assert s[..p] == [s[0]] + s[1..][..p - 1];
      p
  }

  /** In a sequence without repetitions the label at position `p` is found at `p`. */
  lemma IndexOfNoDup(s: seq<int>, p: nat)
    requires NoDup(s) && p < |s|
    ensures IndexOf(s, s[p]) == p
  {
  }

  /** The distinct values of `s`, each kept where it first occurs. */
  function Dedup(s: seq<int>): (r: seq<int>)
    ensures NoDup(r)
    ensures forall x :: x in r <==> x in s
  {
    if s == [] then []
    else
      var p := Dedup(s[..|s| - 1]);
      assert forall x :: x in s <==> x in s[..|s| - 1] || x == s[|s| - 1] by {
        assert s == s[..|s| - 1] + [s[|s| - 1]];
      }
      if s[|s| - 1] in p then p else p + [s[|s| - 1]]
  }

  /** Appending one value: it is kept only when it has not been seen before. */
  lemma DedupAppendOne(s: seq<int>, x: int)
    ensures Dedup(s + [x]) == if x in s then Dedup(s) else Dedup(s) + [x]
  {
    assert (s + [x])[..|s|] == s;
  }

  /** Looking a value up in a longer sequence finds its first occurrence in the prefix. */
  lemma {:induction false} IndexOfAppend(s: seq<int>, t: seq<int>, x: int)
    requires x in s
    ensures IndexOf(s + t, x) == IndexOf(s, x)
  {
    if s[0] != x {
      assert (s + t)[1..] == s[1..] + t;
      IndexOfAppend(s[1..], t, x);
    }
  }

  /** Dedup keeps values in the order of their first occurrence in `s`. */
  lemma {:induction false} DedupKeepsFirstSeenOrder(s: seq<int>)
    ensures forall i, j :: 0 <= i < j < |Dedup(s)| ==>
              IndexOf(s, Dedup(s)[i]) < IndexOf(s, Dedup(s)[j])
  {
    if s != [] {
      var init, x := s[..|s| - 1], s[|s| - 1];
      assert s == init + [x];
      DedupKeepsFirstSeenOrder(init);
      var p, r := Dedup(init), Dedup(s);
      forall y | y in p
        ensures IndexOf(s, y) == IndexOf(init, y) < |init|
      {
        IndexOfAppend(init, [x], y);
      }
      if x !in p {
        forall i, j | 0 <= i < j < |r|
          ensures IndexOf(s, r[i]) < IndexOf(s, r[j])
        {
          assert r[i] in p;
          if j < |p| {
            assert r[j] in p;
          }
        }
      }
    }
  }

  /** Inserts `x` into the strictly ascending `s`. */
  function InsertAscending(s: seq<int>, x: int): (r: seq<int>)
    requires StrictlyAscending(s) && x !in s
    ensures StrictlyAscending(r)
    ensures forall y :: y in r <==> y == x || y in s
  {
    if s == [] || x < s[0] then
      [x] + s
    else
      var rest := InsertAscending(s[1..], x);
      assert forall y :: y in rest ==> s[0] < y by {
        forall y | y in s[1..] ensures s[0] < y {
          var k :| 0 <= k < |s[1..]| && s[1..][k] == y;
          assert s[k + 1] == y;
        }
      }
      var r := [s[0]] + rest;
      assert forall i, j :: 0 <= i < j < |r| ==> r[i] < r[j] by {
        forall i, j | 0 <= i < j < |r| ensures r[i] < r[j] {
          if i == 0 { assert r[j] in rest; }
        }
      }
      r
  }

  /** The values of `s` in ascending order: how the group keys are ordered. */
  function SortAscending(s: seq<int>): (r: seq<int>)
    requires NoDup(s)
    ensures StrictlyAscending(r)
    ensures forall y :: y in r <==> y in s
  {
    if s == [] then []
    else
      assert s == s[..|s| - 1] + [s[|s| - 1]];
      InsertAscending(SortAscending(s[..|s| - 1]), s[|s| - 1])
  }
}
