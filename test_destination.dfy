/**
 * The request-time variant selector of a link under an A/B test: a time gate,
 * a count check, a sticky cookie, and a weighted draw over cumulative
 * percentages. Every failure inside it is caught and becomes "no test
 * destination" (None), so the caller falls back to the link's own url.
 *
 * The visitor's `dub_test_url` cookie is the parameter `cookie`; the draw
 * `Math.random()` is the parameter `u`, a number in [0, 1), and the sample is
 * the exact product `u * total`.
 */
module TestDestination {
  import opened LinkTests

  /** The cumulative weight through index `k`: `percentage[0] + ... + percentage[k]`. */
  function Weight(ps: seq<int>, k: nat): (w: int)
    requires k < |ps|
  {
    Sum(ps[..k + 1])
  }

  lemma WeightFirst(ps: seq<int>)
    requires 0 < |ps|
    ensures Weight(ps, 0) == ps[0]
  {
    var s := ps[..1];
    assert s[..0] == [];
    assert Sum(s) == Sum(s[..0]) + s[0];
  }

  lemma WeightStep(ps: seq<int>, k: nat)
    requires k + 1 < |ps|
    ensures Weight(ps, k + 1) == Weight(ps, k) + ps[k + 1]
  {
    SumPrefixStep(ps, k + 1);
  }

  lemma WeightLast(ps: seq<int>)
    requires 0 < |ps|
    ensures Weight(ps, |ps| - 1) == Sum(ps)
  {
    assert ps[..|ps|] == ps;
  }

  /** With non-negative percentages the cumulative weights never decrease. */
  lemma {:induction false} WeightMonotone(ps: seq<int>, j: nat, k: nat)
    requires j <= k < |ps|
    requires forall i :: 0 <= i < |ps| ==> ps[i] >= 0
    ensures Weight(ps, j) <= Weight(ps, k)
    decreases k - j
  {
    if j < k {
      WeightMonotone(ps, j, k - 1);
      WeightStep(ps, k - 1);
    }
  }

  /**
   * The scan from index `i`: the first index at or after `i` whose cumulative
   * weight `percentage[0] + ... + percentage[k]` is strictly greater than
   * `r`, or `|ps|` when there is none.
   */
  function ScanFrom(ps: seq<int>, r: real, i: nat): (k: nat)
    requires i <= |ps|
    ensures i <= k <= |ps|
    ensures forall j :: i <= j < k ==> Weight(ps, j) as real <= r
    ensures k < |ps| ==> Weight(ps, k) as real > r
    decreases |ps| - i
  {
    if i == |ps| then |ps|
    else if Weight(ps, i) as real > r then i
    else ScanFrom(ps, r, i + 1)
  }

  /**
   * The index the draw `r` selects: the FIRST index whose cumulative weight
   * is strictly greater than `r` (so a sample on a boundary goes to the
   * later index), or `|ps|` when no weight exceeds `r`.
   */
  function Pick(ps: seq<int>, r: real): (k: nat)
    ensures k <= |ps|
    ensures forall j :: 0 <= j < k ==> Weight(ps, j) as real <= r
    ensures k < |ps| ==> Weight(ps, k) as real > r
  {
    ScanFrom(ps, r, 0)
  }

  /** `cookieUrl && urls.includes(cookieUrl)`: an empty cookie is falsy. */
  predicate Sticky(tests: seq<Variant>, cookie: Option<string>)
  {
    cookie.Some? && cookie.value != "" && cookie.value in Urls(tests)
  }

  /** Whether the test is still running at `now` (strictly before completion). */
  predicate Running(completeAt: Option<int>, now: int)
  {
    completeAt.Some? && completeAt.value > now
  }

  /** The number of variants the selector accepts. */
  predicate CountInRange(tests: seq<Variant>)
  {
    2 <= |tests| <= MAX_TEST_COUNT
  }

  /**
   * Reference definition of the selector's result. An answer is only ever
   * given for a running test with an accepted count, and it is always the
   * url of one of the variants.
   */
  function Destination(variants: Option<seq<Variant>>, completeAt: Option<int>, now: int,
                       cookie: Option<string>, u: real): (d: Option<string>)
    ensures d.Some? ==> variants.Some? && Running(completeAt, now) && CountInRange(variants.value)
    ensures d.Some? ==> d.value in Urls(variants.value)
  {
    if variants.None? || !Running(completeAt, now) then None
    else if !CountInRange(variants.value) then None
    else if Sticky(variants.value, cookie) then cookie
    else WeightedDraw(variants.value, u)
  }

  /**
   * The weighted draw for a sample `u` in [0, 1): the variant whose range of
   * cumulative weight holds `u * total`, or None when the scan runs off the
   * end (reading `undefined.url` throws and is caught).
   */
  function WeightedDraw(tests: seq<Variant>, u: real): (d: Option<string>)
    ensures d.None? <==>
      forall j :: 0 <= j < |tests| ==> Weight(Percentages(tests), j) as real <= Sample(u, Total(tests))
    ensures d.Some? ==>
      exists k :: 0 <= k < |tests| && d.value == tests[k].url &&
        Weight(Percentages(tests), k) as real > Sample(u, Total(tests)) &&
        forall j :: 0 <= j < k ==> Weight(Percentages(tests), j) as real <= Sample(u, Total(tests))
  {
    var ps := Percentages(tests);
    var k := Pick(ps, Sample(u, Sum(ps)));
    if k < |tests| then Some(tests[k].url) else None
  }

  /** `Math.random() * total`, computed exactly. */
  function Sample(u: real, total: int): (x: real)
  {
    u * total as real
  }

  /**
   * `getTestDestinationURL`. The cumulative weights are filled in place into
   * `weights`; the scan leaves the chosen index in `i`; an index past the end
   * reads `undefined.url`, which throws and is caught as None, as is the
   * thrown count error.
   */
  method GetTestDestinationUrl(testVariants: Option<seq<Variant>>, testCompletedAt: Option<int>,
                               now: int, cookie: Option<string>, u: real)
    returns (dest: Option<string>)
    ensures dest == Destination(testVariants, testCompletedAt, now, cookie, u)
  {
    if testVariants.None? || testCompletedAt.None? || !(testCompletedAt.value > now) {
      return None;
    }
    var tests := testVariants.value;
    if |tests| < 2 || |tests| > MAX_TEST_COUNT {
      return None;
    }
    if cookie.Some? && cookie.value != "" && cookie.value in Urls(tests) {
      return cookie;
    }

    ghost var ps := Percentages(tests);
    var n := |tests|;
    var weights := new int[n];
    weights[0] := tests[0].percentage;
    WeightFirst(ps);
    var i := 1;
    while i < n
      invariant 1 <= i <= n
      invariant forall k :: 0 <= k < i ==> weights[k] == Weight(ps, k)
    {
      WeightStep(ps, i - 1);
      weights[i] := tests[i].percentage + weights[i - 1];
      i := i + 1;
    }

    WeightLast(ps);
    var random := Sample(u, weights[n - 1]);

    i := 0;
    while i < n
      invariant 0 <= i <= n
      invariant ScanFrom(ps, random, i) == Pick(ps, random)
    {
      if weights[i] as real > random {
        break;
      }
      i := i + 1;
    }

    assert i == Pick(ps, random);
    if i < n {
      dest := Some(tests[i].url);
    } else {
      dest := None;
    }
  }

  // ---------------------------------------------------------------------
  // Properties of the selector

  /** After completion there is no test destination, for every cookie and sample. */
  lemma CompletedGivesNone(variants: Option<seq<Variant>>, completeAt: int, now: int,
                           cookie: Option<string>, u: real)
    requires now >= completeAt
    ensures Destination(variants, Some(completeAt), now, cookie, u) == None
  {
  }

  /** A variant count outside [2, MAX_TEST_COUNT] gives None, even for a sticky cookie. */
  lemma BadCountGivesNone(tests: seq<Variant>, completeAt: Option<int>, now: int,
                          cookie: Option<string>, u: real)
    requires !CountInRange(tests)
    ensures Destination(Some(tests), completeAt, now, cookie, u) == None
  {
  }

  /** A sticky cookie is returned unchanged, independently of the sample. */
  lemma StickyIsKept(tests: seq<Variant>, completeAt: Option<int>, now: int,
                     cookie: Option<string>, u: real)
    requires Running(completeAt, now) && CountInRange(tests) && Sticky(tests, cookie)
    ensures Destination(Some(tests), completeAt, now, cookie, u) == cookie
    ensures exists i :: 0 <= i < |tests| && cookie == Some(tests[i].url)
  {
    var i :| 0 <= i < |tests| && Urls(tests)[i] == cookie.value;
  }

  /** `Math.random() * total` lies in [0, total) for a positive total. */
  lemma SampleInRange(u: real, total: int)
    requires 0.0 <= u < 1.0 && total > 0
    ensures 0.0 <= Sample(u, total) < total as real
  {
    assert total as real - Sample(u, total) == (1.0 - u) * total as real;
  }

  /**
   * With non-negative percentages and a sample in [0, total), the chosen
   * index is in range and carries a positive percentage: a zero-weight
   * variant is never drawn.
   */
  lemma PickIsPositive(ps: seq<int>, r: real)
    requires forall i :: 0 <= i < |ps| ==> ps[i] >= 0
    requires 0.0 <= r < Sum(ps) as real
    ensures Pick(ps, r) < |ps| && ps[Pick(ps, r)] > 0
  {
    var k := Pick(ps, r);
    WeightLast(ps);
    assert k < |ps|;
    if k == 0 {
      WeightFirst(ps);
    } else {
      WeightStep(ps, k - 1);
    }
  }

  /** A sample on the boundary `weights[k]` goes to the next index, when that has positive weight. */
  lemma BoundaryGoesToNext(ps: seq<int>, k: nat)
    requires forall i :: 0 <= i < |ps| ==> ps[i] >= 0
    requires k + 1 < |ps| && ps[k + 1] > 0
    ensures Pick(ps, Weight(ps, k) as real) == k + 1
  {
    var p := Pick(ps, Weight(ps, k) as real);
    if p <= k {
      WeightMonotone(ps, p, k);
    }
    WeightStep(ps, k);
  }

  /** The {60, 40} split: 0 goes to index 0; 60 and 99.999 go to index 1. */
  lemma SixtyFortyDraws()
    ensures Pick([60, 40], 0.0) == 0
    ensures Pick([60, 40], 60.0) == 1
    ensures Pick([60, 40], 99.999) == 1
  {
    WeightFirst([60, 40]);
    WeightStep([60, 40], 0);
  }

  /**
   * A running test with a valid count, no sticky cookie, non-negative
   * percentages and a positive total always answers with one of its
   * variants, and that variant has positive weight.
   */
  lemma RunningTestRoutes(tests: seq<Variant>, completeAt: Option<int>, now: int,
                          cookie: Option<string>, u: real)
    requires Running(completeAt, now) && CountInRange(tests) && !Sticky(tests, cookie)
    requires forall i :: 0 <= i < |tests| ==> tests[i].percentage >= 0
    requires Total(tests) > 0
    requires 0.0 <= u < 1.0
    ensures var d := Destination(Some(tests), completeAt, now, cookie, u);
      exists k :: 0 <= k < |tests| && d == Some(tests[k].url) && tests[k].percentage > 0
  {
    var ps := Percentages(tests);
    var r := Sample(u, Sum(ps));
    SampleInRange(u, Sum(ps));
    PickIsPositive(ps, r);
    var k := Pick(ps, r);
    assert Destination(Some(tests), completeAt, now, cookie, u) == Some(tests[k].url);
  }

  /**
   * When every percentage is zero-or-more and the total is 0, the sample is
   * 0, no cumulative weight exceeds it, the scan runs off the end and the
   * caught error gives None.
   */
  lemma ZeroTotalGivesNone(tests: seq<Variant>, completeAt: Option<int>, now: int,
                           cookie: Option<string>, u: real)
    requires Running(completeAt, now) && CountInRange(tests) && !Sticky(tests, cookie)
    requires forall i :: 0 <= i < |tests| ==> tests[i].percentage >= 0
    requires Total(tests) == 0
    ensures Destination(Some(tests), completeAt, now, cookie, u) == None
  {
    var ps := Percentages(tests);
    var k := Pick(ps, 0.0);
    WeightLast(ps);
    if k < |ps| {
      WeightMonotone(ps, k, |ps| - 1);
    }
  }
}
