/**
 * The value types shared by the A/B-test editor and the request-time selector:
 * a test variant (destination url and its share of traffic), the two limits
 * the link schema imposes, and sums over the variants' percentages.
 */
module LinkTests {

  datatype Option<T> = None | Some(value: T)

  /** One destination of a split test and its integer share of traffic. */
  datatype Variant = Variant(url: string, percentage: int)

  type AtLeastTwo = n: int | 2 <= n witness 2
  type Positive = n: int | 1 <= n witness 1

  /**
   * The two limits are defined by the link schema, which is not part of this
   * model. They are left without a value, so every proof below holds for any
   * maximum count of at least 2 and any minimum percentage of at least 1.
   */
  const MAX_TEST_COUNT: AtLeastTwo
  const MIN_TEST_PERCENTAGE: Positive

  /** Sum of a sequence of integers, peeled from the back. */
  function Sum(ps: seq<int>): (s: int)
  {
    if ps == [] then 0 else Sum(ps[..|ps| - 1]) + ps[|ps| - 1]
  }

  function Percentages(tests: seq<Variant>): (ps: seq<int>)
    ensures |ps| == |tests|
    ensures forall i :: 0 <= i < |tests| ==> ps[i] == tests[i].percentage
  {
    seq(|tests|, i requires 0 <= i < |tests| => tests[i].percentage)
  }

  function Urls(tests: seq<Variant>): (us: seq<string>)
    ensures |us| == |tests|
    ensures forall i :: 0 <= i < |tests| ==> us[i] == tests[i].url
  {
    seq(|tests|, i requires 0 <= i < |tests| => tests[i].url)
  }

  /** The total traffic share of a list of variants. */
  function Total(tests: seq<Variant>): (t: int)
  {
    Sum(Percentages(tests))
  }

  lemma {:induction false} SumAppend(a: seq<int>, b: seq<int>)
    ensures Sum(a + b) == Sum(a) + Sum(b)
    decreases |b|
  {
    if b == [] {
      assert a + b == a;
    } else {
      var b' := b[..|b| - 1];
      assert (a + b)[..|a + b| - 1] == a + b';
      SumAppend(a, b');
    }
  }

  /** The prefix sums grow one element at a time from the front. */
  lemma SumPrefixStep(ps: seq<int>, k: nat)
    requires k < |ps|
    ensures Sum(ps[..k + 1]) == Sum(ps[..k]) + ps[k]
  {
    assert ps[..k + 1][..k] == ps[..k];
  }

  lemma {:induction false} SumConstant(ps: seq<int>, c: int)
    requires forall i :: 0 <= i < |ps| ==> ps[i] == c
    ensures Sum(ps) == |ps| * c
    decreases |ps|
  {
    if ps != [] {
      SumConstant(ps[..|ps| - 1], c);
    }
  }

  /** Changing one element changes the sum by exactly the difference. */
  lemma {:induction false} SumUpdate(ps: seq<int>, k: nat, v: int)
    requires k < |ps|
    ensures Sum(ps[k := v]) == Sum(ps) - ps[k] + v
    decreases |ps|
  {
    var last := |ps| - 1;
    if k == last {
      assert ps[k := v][..last] == ps[..last];
    } else {
      assert ps[k := v][..last] == ps[..last][k := v];
      SumUpdate(ps[..last], k, v);
    }
  }
}
