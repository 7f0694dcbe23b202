/**
 * The two rebalancers of the A/B-test editor: adding a variant and removing
 * one. Each keeps the traffic split summing to 100 either by re-splitting
 * evenly or by moving one entry's share, and touches nothing but
 * percentages.
 */
module Rebalance {
  import opened LinkTests

  /**
   * What one rebalancing action does to the editor's list: return early,
   * write a whole new list, or throw (a property read on `undefined`).
   */
  datatype Edit = NoChange | Replace(tests: seq<Variant>) | Throws

  function Abs(x: int): (a: nat)
  {
    if x < 0 then -x else x
  }

  /**
   * The "intentionally even" test: every percentage is within one point of
   * the FIRST entry's percentage (not of each other). Pairwise within one
   * point is enough for it; it promises only pairwise within two.
   */
  predicate AllEqual(tests: seq<Variant>)
    ensures (forall i, j :: 0 <= i < |tests| && 0 <= j < |tests| ==>
               Abs(tests[i].percentage - tests[j].percentage) <= 1) ==> AllEqual(tests)
    ensures AllEqual(tests) ==> forall i, j :: 0 <= i < |tests| && 0 <= j < |tests| ==>
              Abs(tests[i].percentage - tests[j].percentage) <= 2
  {
    forall i :: 0 <= i < |tests| ==> Abs(tests[i].percentage - tests[0].percentage) <= 1
  }

  /** Whether an entry's share can be halved with both halves at the minimum. */
  predicate Splittable(v: Variant)
  {
    v.percentage >= MIN_TEST_PERCENTAGE * 2
  }

  /** `findLastIndex(Splittable)`: the last splittable index, or -1 if none. */
  function LastSplittable(tests: seq<Variant>): (k: int)
    ensures -1 <= k < |tests|
    ensures k >= 0 ==> Splittable(tests[k])
    ensures forall j :: k < j < |tests| ==> !Splittable(tests[j])
    decreases |tests|
  {
    if tests == [] then -1
    else if Splittable(tests[|tests| - 1]) then |tests| - 1
    else LastSplittable(tests[..|tests| - 1])
  }

  /** Every entry of `tests` with its percentage replaced by `p`. */
  function WithPercentage(tests: seq<Variant>, p: int): (r: seq<Variant>)
    ensures |r| == |tests|
    ensures forall i :: 0 <= i < |r| ==> r[i] == Variant(tests[i].url, p)
  {
    seq(|tests|, i requires 0 <= i < |tests| => tests[i].(percentage := p))
  }

  /**
   * `addTestUrl`: append an empty-url variant. An empty or full list is left
   * alone; an even list is re-split evenly with the new entry taking the
   * rounding remainder; otherwise the last splittable entry is halved and the
   * new entry takes the other half. With no splittable entry the source reads
   * `tests[-1].percentage` and throws.
   */
  function AddTestUrl(tests: seq<Variant>): (e: Edit)
    ensures e.NoChange? <==> |tests| == 0 || |tests| >= MAX_TEST_COUNT
    ensures e.Throws? <==> 0 < |tests| < MAX_TEST_COUNT && !AllEqual(tests) && LastSplittable(tests) < 0
    ensures e.Replace? ==> |e.tests| == |tests| + 1 && Urls(e.tests) == Urls(tests) + [""]
  {
    if |tests| == 0 || |tests| >= MAX_TEST_COUNT then NoChange
    else if AllEqual(tests) then
      var each := 100 / (|tests| + 1);
      Replace(WithPercentage(tests, each) + [Variant("", 100 - each * |tests|)])
    else
      var k := LastSplittable(tests);
      if k < 0 then Throws
      else
        var p := tests[k].percentage;
        Replace(tests[k := tests[k].(percentage := p / 2)] + [Variant("", p - p / 2)])
  }

  /** `filter((_, i) => i !== index)`: every entry except the one at `index`. */
  function Without(tests: seq<Variant>, index: int): (r: seq<Variant>)
    ensures 0 <= index < |tests| ==> |r| == |tests| - 1
    ensures 0 <= index < |tests| ==> forall i :: 0 <= i < |r| ==> r[i] == tests[if i < index then i else i + 1]
    ensures !(0 <= index < |tests|) ==> r == tests
  {
    if 0 <= index < |tests| then tests[..index] + tests[index + 1..] else tests
  }

  /** Every entry gets `each`, except the last, which gets `lastShare`. */
  function SplitEvenly(rest: seq<Variant>, each: int, lastShare: int): (r: seq<Variant>)
    ensures |r| == |rest|
    ensures forall i :: 0 <= i < |r| - 1 ==> r[i] == Variant(rest[i].url, each)
    ensures |r| > 0 ==> r[|r| - 1] == Variant(rest[|r| - 1].url, lastShare)
  {
    seq(|rest|, i requires 0 <= i < |rest| =>
      rest[i].(percentage := if i == |rest| - 1 then lastShare else each))
  }

  /**
   * `removeTestUrl`: drop the entry at `index`. Fewer than two entries are
   * left alone (two are not refused). An even list (judged BEFORE removal) is
   * re-split evenly over the survivors with the last survivor taking the
   * remainder; otherwise the removed share goes in full to the last
   * survivor, where an index outside the list makes `tests[index]`
   * undefined and the source throws.
   */
  function RemoveTestUrl(tests: seq<Variant>, index: int): (e: Edit)
    ensures e.NoChange? <==> |tests| < 2
    ensures e.Throws? <==> |tests| >= 2 && !AllEqual(tests) && !(0 <= index < |tests|)
    ensures e.Replace? ==> Urls(e.tests) == Urls(Without(tests, index))
  {
    if |tests| < 2 then NoChange
    else if AllEqual(tests) then
      var each := 100 / (|tests| - 1);
      Replace(SplitEvenly(Without(tests, index), each, 100 - each * (|tests| - 2)))
    else if !(0 <= index < |tests|) then Throws
    else
      var rest := Without(tests, index);
      var last := |rest| - 1;
      Replace(rest[last := rest[last].(percentage := rest[last].percentage + tests[index].percentage)])
  }

  // ---------------------------------------------------------------------
  // Adding a variant

  /**
   * Even branch: all old entries get floor(100 / (n + 1)), the new entry the
   * remainder, and the total is exactly 100 whatever it was before.
   */
  lemma AddEvenSplit(tests: seq<Variant>)
    requires 0 < |tests| < MAX_TEST_COUNT && AllEqual(tests)
    ensures AddTestUrl(tests).Replace?
    ensures var r := AddTestUrl(tests).tests; var n := |tests|;
      && (forall i :: 0 <= i < n ==> r[i] == Variant(tests[i].url, 100 / (n + 1)))
      && r[n] == Variant("", 100 - n * (100 / (n + 1)))
      && Total(r) == 100
  {
    var n := |tests|;
    var each := 100 / (n + 1);
    var r := AddTestUrl(tests).tests;
    var old_part := WithPercentage(tests, each);
    assert r == old_part + [Variant("", 100 - each * n)];
    assert Percentages(r) == Percentages(old_part) + [100 - each * n];
    SumAppend(Percentages(old_part), [100 - each * n]);
    SumConstant(Percentages(old_part), each);
  }

  /**
   * Uneven branch: only the last splittable entry `k` changes, to half its
   * share (rounded down); the new entry takes the other half; both halves are
   * at least the minimum; the total is unchanged.
   */
  lemma AddUnevenSplit(tests: seq<Variant>, k: nat)
    requires 0 < |tests| < MAX_TEST_COUNT && !AllEqual(tests)
    requires k < |tests| && Splittable(tests[k])
    requires forall j :: k < j < |tests| ==> !Splittable(tests[j])
    ensures AddTestUrl(tests).Replace?
    ensures var r := AddTestUrl(tests).tests; var n := |tests|; var p := tests[k].percentage;
      && (forall i :: 0 <= i < n && i != k ==> r[i] == tests[i])
      && r[k] == Variant(tests[k].url, p / 2)
      && r[n] == Variant("", p - p / 2)
      && r[k].percentage >= MIN_TEST_PERCENTAGE && r[n].percentage >= MIN_TEST_PERCENTAGE
      && Total(r) == Total(tests)
  {
    var n := |tests|;
    var j := LastSplittable(tests);
    assert j == k;
    var p := tests[k].percentage;
    var r := AddTestUrl(tests).tests;
    var head := tests[k := tests[k].(percentage := p / 2)];
    assert r == head + [Variant("", p - p / 2)];
    assert Percentages(head) == Percentages(tests)[k := p / 2];
    assert Percentages(r) == Percentages(head) + [p - p / 2];
    SumAppend(Percentages(head), [p - p / 2]);
    SumUpdate(Percentages(tests), k, p / 2);
  }

  /** The source throws exactly when the list is uneven and nothing can be split. */
  lemma AddNothingToSplit(tests: seq<Variant>)
    requires 0 < |tests| < MAX_TEST_COUNT && !AllEqual(tests)
    ensures AddTestUrl(tests).Throws? <==> forall j :: 0 <= j < |tests| ==> !Splittable(tests[j])
  {
    var k := LastSplittable(tests);
    if k >= 0 {
      assert Splittable(tests[k]);
    }
  }

  /** A list that sums to 100 still sums to 100 after a successful add. */
  lemma AddKeepsTotal(tests: seq<Variant>)
    requires Total(tests) == 100
    requires AddTestUrl(tests).Replace?
    ensures Total(AddTestUrl(tests).tests) == 100
  {
    if AllEqual(tests) {
      AddEvenSplit(tests);
    } else {
      AddUnevenSplit(tests, LastSplittable(tests));
    }
  }

  // ---------------------------------------------------------------------
  // Removing a variant

  /** The survivors' total plus the removed share is the old total. */
  lemma TotalWithout(tests: seq<Variant>, index: nat)
    requires index < |tests|
    ensures Total(Without(tests, index)) + tests[index].percentage == Total(tests)
  {
    var ps := Percentages(tests);
    assert ps == ps[..index] + [ps[index]] + ps[index + 1..];
    assert Percentages(Without(tests, index)) == ps[..index] + ps[index + 1..];
    SumAppend(ps[..index] + [ps[index]], ps[index + 1..]);
    SumAppend(ps[..index], [ps[index]]);
    SumAppend(ps[..index], ps[index + 1..]);
  }

  /**
   * Even branch (judged on the list before removal): the first n - 2
   * survivors get floor(100 / (n - 1)), the last survivor the remainder, and
   * the total is exactly 100.
   */
  lemma RemoveEvenSplit(tests: seq<Variant>, index: nat)
    requires 2 <= |tests| && AllEqual(tests) && index < |tests|
    ensures RemoveTestUrl(tests, index).Replace?
    ensures var r := RemoveTestUrl(tests, index).tests; var n := |tests|;
      var rest := Without(tests, index); var each := 100 / (n - 1);
      && |r| == n - 1
      && (forall i :: 0 <= i < n - 2 ==> r[i] == Variant(rest[i].url, each))
      && r[n - 2] == Variant(rest[n - 2].url, 100 - (n - 2) * each)
      && Total(r) == 100
  {
    var n := |tests|;
    var each := 100 / (n - 1);
    var lastShare := 100 - each * (n - 2);
    var r := SplitEvenly(Without(tests, index), each, lastShare);
    assert RemoveTestUrl(tests, index) == Replace(r);
    SplitEvenlyTotal(Without(tests, index), each, lastShare);
  }

  lemma SplitEvenlyTotal(rest: seq<Variant>, each: int, lastShare: int)
    requires |rest| > 0
    ensures Total(SplitEvenly(rest, each, lastShare)) == (|rest| - 1) * each + lastShare
  {
    var ps := Percentages(SplitEvenly(rest, each, lastShare));
    var m := |rest| - 1;
    assert ps == ps[..m] + [lastShare];
    SumAppend(ps[..m], [lastShare]);
    SumConstant(ps[..m], each);
  }

  /**
   * Uneven branch: the removed share is added in full to the last survivor;
   * every other survivor is unchanged and the total is preserved.
   */
  lemma RemoveUnevenSplit(tests: seq<Variant>, index: nat)
    requires 2 <= |tests| && !AllEqual(tests) && index < |tests|
    ensures RemoveTestUrl(tests, index).Replace?
    ensures var r := RemoveTestUrl(tests, index).tests; var n := |tests|;
      var rest := Without(tests, index);
      && |r| == n - 1
      && (forall i :: 0 <= i < n - 2 ==> r[i] == rest[i])
      && r[n - 2] == Variant(rest[n - 2].url, rest[n - 2].percentage + tests[index].percentage)
      && Total(r) == Total(tests)
  {
    var rest := Without(tests, index);
    var last := |rest| - 1;
    var r := RemoveTestUrl(tests, index).tests;
    assert Percentages(r) == Percentages(rest)[last := rest[last].percentage + tests[index].percentage];
    SumUpdate(Percentages(rest), last, rest[last].percentage + tests[index].percentage);
    TotalWithout(tests, index);
  }

  /** A list that sums to 100 still sums to 100 after removing a listed entry. */
  lemma RemoveKeepsTotal(tests: seq<Variant>, index: nat)
    requires Total(tests) == 100 && 2 <= |tests| && index < |tests|
    ensures RemoveTestUrl(tests, index).Replace?
    ensures Total(RemoveTestUrl(tests, index).tests) == 100
  {
    if AllEqual(tests) {
      RemoveEvenSplit(tests, index);
    } else {
      RemoveUnevenSplit(tests, index);
    }
  }

  /** The worked examples: even and uneven add, even and uneven remove. */
  lemma Examples()
    requires MAX_TEST_COUNT >= 3 && MIN_TEST_PERCENTAGE == 10
    ensures AddTestUrl([Variant("a", 50), Variant("b", 50)])
         == Replace([Variant("a", 33), Variant("b", 33), Variant("", 34)])
    ensures AddTestUrl([Variant("a", 70), Variant("b", 30)])
         == Replace([Variant("a", 70), Variant("b", 15), Variant("", 15)])
    ensures RemoveTestUrl([Variant("a", 33), Variant("b", 33), Variant("c", 34)], 0)
         == Replace([Variant("b", 50), Variant("c", 50)])
    ensures RemoveTestUrl([Variant("a", 70), Variant("b", 15), Variant("c", 15)], 1)
         == Replace([Variant("a", 70), Variant("c", 30)])
    ensures RemoveTestUrl([Variant("a", 33), Variant("b", 33), Variant("", 34)], 2)
         == Replace([Variant("a", 50), Variant("b", 50)])
  {
    var uneven := [Variant("a", 70), Variant("b", 30)];
    assert Abs(uneven[1].percentage - uneven[0].percentage) > 1;
    assert LastSplittable(uneven) == 1;
    var uneven3 := [Variant("a", 70), Variant("b", 15), Variant("c", 15)];
    assert Abs(uneven3[1].percentage - uneven3[0].percentage) > 1;
  }

  /** Evenness is judged against the first entry: 51 and 49 are both "even" with 50. */
  lemma EvenIsRelativeToFirst()
    ensures AllEqual([Variant("a", 50), Variant("b", 51), Variant("c", 49)])
    ensures !AllEqual([Variant("b", 51), Variant("c", 49), Variant("a", 50)])
  {
    var t := [Variant("b", 51), Variant("c", 49), Variant("a", 50)];
    assert Abs(t[1].percentage - t[0].percentage) == 2;
  }
}
