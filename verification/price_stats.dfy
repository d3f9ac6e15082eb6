/**
 * The minimum and maximum of a list of prices and how often each occurs,
 * as `logPriceStats` computes them before printing.
 */
module PriceStats {
  import opened Wrappers

  /** `s.filter(x => x === v).length`. */
  function Count(s: seq<int>, v: int): (n: nat)
    ensures n <= |s|
    ensures n > 0 <==> v in s
  {
    if |s| == 0 then 0 else (if s[0] == v then 1 else 0) + Count(s[1..], v)
  }

  /** `math.min` of a non-empty list of integers. */
  function Min(s: seq<int>): (m: int)
    requires |s| > 0
    ensures m in s
    ensures forall x :: x in s ==> m <= x
  {
    if |s| == 1 then s[0]
    else
      var rest := Min(s[1..]);
      assert forall x :: x in s ==> x == s[0] || x in s[1..];
      if s[0] <= rest then s[0] else rest
  }

  /** `math.max` of a non-empty list of integers. */
  function Max(s: seq<int>): (m: int)
    requires |s| > 0
    ensures m in s
    ensures forall x :: x in s ==> x <= m
  {
    if |s| == 1 then s[0]
    else
      var rest := Max(s[1..]);
      assert forall x :: x in s ==> x == s[0] || x in s[1..];
      if s[0] >= rest then s[0] else rest
  }

  /** The figures `logPriceStats` reports besides mean, median and mode. */
  datatype Summary = Summary(min: int, minCount: nat, max: int, maxCount: nat, offers: nat)

  /**
   * None where the list is empty and nothing is computed; otherwise the
   * minimum, the maximum, their occurrence counts and the number of offers.
   */
  function LogPriceStats(prices: seq<int>): (r: Option<Summary>)
    ensures r.None? <==> |prices| == 0
    ensures r.Some? ==> r.value.offers == |prices|
    ensures r.Some? ==> 1 <= r.value.minCount <= |prices| && 1 <= r.value.maxCount <= |prices|
    ensures r.Some? ==> r.value.min in prices && forall x :: x in prices ==> r.value.min <= x
    ensures r.Some? ==> r.value.max in prices && forall x :: x in prices ==> x <= r.value.max
    ensures r.Some? ==>
      r.value.minCount == multiset(prices)[r.value.min] && r.value.maxCount == multiset(prices)[r.value.max]
  {
    if |prices| == 0 then None
    else
      var min := Min(prices);
      var max := Max(prices);
      CountIsMultiplicity(prices, min);
      CountIsMultiplicity(prices, max);
      Some(Summary(min, Count(prices, min), max, Count(prices, max), |prices|))
  }

  /** The count is the multiplicity of the value in the list. */
  lemma {:induction false} CountIsMultiplicity(s: seq<int>, v: int)
    ensures Count(s, v) == multiset(s)[v]
  {
    if |s| > 0 {
      CountIsMultiplicity(s[1..], v);
      assert s == [s[0]] + s[1..];
      assert multiset(s) == multiset([s[0]]) + multiset(s[1..]);
    }
  }

  /** A value occurs at every position exactly when its count is the length. */
  lemma {:induction false} CountAll(s: seq<int>, v: int)
    ensures Count(s, v) == |s| <==> forall i :: 0 <= i < |s| ==> s[i] == v
  {
    if |s| > 0 {
      CountAll(s[1..], v);
      assert forall i :: 1 <= i < |s| ==> s[i] == s[1..][i - 1];
    }
  }

  /** Two distinct values together occur at most once per position. */
  lemma {:induction false} CountTwoValues(s: seq<int>, a: int, b: int)
    requires a != b
    ensures Count(s, a) + Count(s, b) <= |s|
  {
    if |s| > 0 {
      CountTwoValues(s[1..], a, b);
    }
  }

  /** Minimum and maximum coincide exactly when every price is the minimum. */
  lemma MinEqualsMaxIffUniform(prices: seq<int>)
    requires |prices| > 0
    ensures var r := LogPriceStats(prices).value;
      (r.min == r.max <==> r.minCount == |prices|) &&
      (r.min == r.max <==> r.maxCount == |prices|)
  {
    var r := LogPriceStats(prices).value;
    CountAll(prices, r.min);
    CountAll(prices, r.max);
    if r.min == r.max {
      assert forall i :: 0 <= i < |prices| ==> prices[i] == r.min by {
        forall i | 0 <= i < |prices| ensures prices[i] == r.min {
          assert prices[i] in prices;
        }
      }
    } else {
      assert r.max in prices;
      assert r.min in prices;
    }
  }

  /** With distinct minimum and maximum, the two counts share no offer. */
  lemma MinAndMaxCountsDisjoint(prices: seq<int>)
    requires |prices| > 0
    ensures var r := LogPriceStats(prices).value;
      r.min != r.max ==> r.minCount + r.maxCount <= |prices|
  {
    var r := LogPriceStats(prices).value;
    if r.min != r.max {
      CountTwoValues(prices, r.min, r.max);
    }
  }
}
