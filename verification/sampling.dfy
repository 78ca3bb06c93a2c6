/** `random.sample(population, k)` as a choice: the random source draws `k`
    distinct positions of the population, and the sample lists the elements at
    those positions in the order drawn. Nothing about the distribution is modelled. */
module Sampling {

  predicate Distinct(picks: seq<nat>)
  {
    forall i, j | 0 <= i < j < |picks| :: picks[i] != picks[j]
  }

  predicate InRange(picks: seq<nat>, n: nat)
  {
    forall i | 0 <= i < |picks| :: picks[i] < n
  }

  /** A valid draw of `k` positions out of a population of `n`. */
  predicate IsDraw(picks: seq<nat>, n: nat, k: nat)
  {
    |picks| == k && InRange(picks, n) && Distinct(picks)
  }

  /** A random source: for every population size and sample size it can serve,
      a valid draw. */
  ghost predicate IsSampler(draw: (nat, nat) -> seq<nat>)
  {
    forall n: nat, k: nat | k <= n :: IsDraw(draw(n, k), n, k)
  }

  function Sample<T>(xs: seq<T>, picks: seq<nat>): (ys: seq<T>)
    requires InRange(picks, |xs|)
    ensures |ys| == |picks|
    ensures forall i | 0 <= i < |picks| :: ys[i] == xs[picks[i]]
  {
    seq(|picks|, i requires 0 <= i < |picks| => xs[picks[i]])
  }

  /** `xs` without the element at position `p`. */
  function RemoveAt<T>(xs: seq<T>, p: nat): seq<T>
    requires p < |xs|
  {
    xs[..p] + xs[p + 1..]
  }

  /** A position of `xs` renamed to the same element's position in `RemoveAt(xs, p)`. */
  function Shift(q: nat, p: nat): nat
    requires q != p
  {
    if q < p then q else q - 1
  }

  /** A sample drawn at distinct positions takes no element more often than the
      population holds it: it is a sub-multiset of the population, of exactly
      `|picks|` elements. */
  lemma {:induction false} SampleIsSubMultiset<T>(xs: seq<T>, picks: seq<nat>)
    requires InRange(picks, |xs|) && Distinct(picks)
    ensures multiset(Sample(xs, picks)) <= multiset(xs)
    decreases |picks|
  {
    if |picks| > 0 {
      var p := picks[0];
      var rest := picks[1..];
      var xs' := RemoveAt(xs, p);
      var rest' := seq(|rest|, i requires 0 <= i < |rest| => (assert rest[i] == picks[i + 1]; Shift(rest[i], p)));
      assert InRange(rest', |xs'|);
      assert Distinct(rest') by {
        forall i, j | 0 <= i < j < |rest'| ensures rest'[i] != rest'[j] {
          assert picks[i + 1] != picks[j + 1];
        }
      }
      assert Sample(xs, rest) == Sample(xs', rest') by {
        forall i | 0 <= i < |rest| ensures Sample(xs, rest)[i] == Sample(xs', rest')[i] {
          assert rest[i] == picks[i + 1];
          assert picks[i + 1] != p;
        }
      }
      SampleIsSubMultiset(xs', rest');
      assert xs == xs[..p] + [xs[p]] + xs[p + 1..];
      assert multiset(xs) == multiset(xs') + multiset{xs[p]};
      assert Sample(xs, picks) == [xs[p]] + Sample(xs, rest);
    }
  }
}
