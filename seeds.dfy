/**
 * The seed loop of `generate_optimized_loop`: after `random.seed(seed_base)`, `randint(1, 10000)`
 * is drawn into a set until the set holds `num_candidates` seeds. The generator is a
 * deterministic function of the base seed and the index of the draw.
 */
module Seeds {

  const SeedLow := 1
  const SeedHigh := 10000

  /** What `random.randint(1, 10000)` can return: both bounds included. */
  type Seed = x: int | SeedLow <= x <= SeedHigh witness SeedLow

  /** `Rng(base, i)`: the `i`-th draw of `randint(1, 10000)` after `random.seed(base)`. */
  type Rng = (int, nat) -> Seed

  /** The set of the first `k` draws. */
  function Drawn(rng: Rng, base: int, k: nat): set<Seed>
  {
    if k == 0 then {} else Drawn(rng, base, k - 1) + {rng(base, k - 1)}
  }

  /** One draw adds at most one seed. */
  lemma DrawnStep(rng: Rng, base: int, k: nat)
    ensures |Drawn(rng, base, k)| <= |Drawn(rng, base, k + 1)| <= |Drawn(rng, base, k)| + 1
  {
    SubsetCardinality(Drawn(rng, base, k), Drawn(rng, base, k + 1));
  }

  lemma {:induction false} DrawnMonotone(rng: Rng, base: int, j: nat, k: nat)
    requires j <= k
    ensures Drawn(rng, base, j) <= Drawn(rng, base, k)
  {
    if j < k {
      DrawnMonotone(rng, base, j, k - 1);
    }
  }

  /** A set of seeds all at most `hi` has at most `hi - SeedLow + 1` elements. */
  lemma {:induction false} SeedCardinality(s: set<Seed>, hi: int)
    requires forall x :: x in s ==> x <= hi
    ensures |s| <= if hi < SeedLow then 0 else hi - SeedLow + 1
  {
    if hi < SeedLow {
      assert s == {};
    } else {
      var rest := s - {hi};
      SeedCardinality(rest, hi - 1);
      assert |s| <= |rest| + 1;
    }
  }

  /** No more than 10000 distinct seeds can ever be drawn. */
  lemma AtMostAllSeeds(rng: Rng, base: int, k: nat)
    ensures |Drawn(rng, base, k)| <= SeedHigh - SeedLow + 1
  {
    SeedCardinality(Drawn(rng, base, k), SeedHigh);
  }

  /**
   * The seed loop cannot stop when more than 10000 candidates are asked for: after any number
   * of draws the set is still smaller than `n`.
   */
  lemma SeedLoopNeverEndsAbove10000(rng: Rng, base: int, n: int, k: nat)
    requires n > SeedHigh - SeedLow + 1
    ensures |Drawn(rng, base, k)| < n
  {
    AtMostAllSeeds(rng, base, k);
  }

  /** Fewer than `n` seeds after `k` draws means fewer than `n` after any earlier number of draws. */
  lemma FewerBefore(rng: Rng, base: int, n: int, k: nat)
    requires |Drawn(rng, base, k)| < n
    ensures forall j :: 0 <= j <= k ==> |Drawn(rng, base, j)| < n
  {
    forall j | 0 <= j <= k ensures |Drawn(rng, base, j)| < n {
      DrawnMonotone(rng, base, j, k);
      SubsetCardinality(Drawn(rng, base, j), Drawn(rng, base, k));
    }
  }

  /**
   * The number of draws after which the loop stops: the first `k` whose draws hold `n` distinct
   * seeds, given a `bound` by which they do.
   */
  ghost function Stop(rng: Rng, base: int, n: int, bound: nat): (k: nat)
    requires n <= |Drawn(rng, base, bound)|
    ensures k <= bound && |Drawn(rng, base, k)| == if n < 0 then 0 else n
    ensures forall j :: 0 <= j < k ==> |Drawn(rng, base, j)| < n
    decreases bound
  {
    if bound > 0 && n <= |Drawn(rng, base, bound - 1)| then Stop(rng, base, n, bound - 1)
    else if bound == 0 then 0
    else
      FewerBefore(rng, base, n, bound - 1);
      DrawnStep(rng, base, bound - 1);
      bound
  }

  lemma SubsetCardinality<T>(a: set<T>, b: set<T>)
    requires a <= b
    ensures |a| <= |b|
  {
    assert b == a + (b - a);
  }

  /** The set the seed loop ends with. */
  ghost function SeedSet(rng: Rng, base: int, n: int, bound: nat): set<Seed>
    requires n <= |Drawn(rng, base, bound)|
  {
    Drawn(rng, base, Stop(rng, base, n, bound))
  }

  /** Exactly `n` distinct seeds, each in [1, 10000] (none when `n` is not positive). */
  lemma SeedSetSize(rng: Rng, base: int, n: int, bound: nat)
    requires n <= |Drawn(rng, base, bound)|
    ensures |SeedSet(rng, base, n, bound)| == if n < 0 then 0 else n
    ensures forall x :: x in SeedSet(rng, base, n, bound) ==> 1 <= x <= 10000
  {
  }

  /** At most one point of stopping: the first draw count reaching `n` distinct seeds. */
  lemma StopUnique(rng: Rng, base: int, n: int, k1: nat, k2: nat)
    requires |Drawn(rng, base, k1)| >= n && forall j :: 0 <= j < k1 ==> |Drawn(rng, base, j)| < n
    requires |Drawn(rng, base, k2)| >= n && forall j :: 0 <= j < k2 ==> |Drawn(rng, base, j)| < n
    ensures k1 == k2
  {
  }

  /**
   * The seed set is a function of the generator, the base seed and `n` alone: it does not depend
   * on which bound witnesses that the loop stops.
   */
  lemma SeedSetDeterministic(rng: Rng, base: int, n: int, bound1: nat, bound2: nat)
    requires n <= |Drawn(rng, base, bound1)| && n <= |Drawn(rng, base, bound2)|
    ensures SeedSet(rng, base, n, bound1) == SeedSet(rng, base, n, bound2)
  {
    StopUnique(rng, base, n, Stop(rng, base, n, bound1), Stop(rng, base, n, bound2));
  }

  /**
   * The seed loop itself. `bound` is a number of draws by which `n` distinct seeds have come up;
   * the loop stops at the first such number.
   */
  method DrawSeeds(rng: Rng, seedBase: int, n: int, ghost bound: nat) returns (seeds: set<Seed>)
    requires n <= |Drawn(rng, seedBase, bound)|
    ensures seeds == SeedSet(rng, seedBase, n, bound)
    ensures |seeds| == if n < 0 then 0 else n
  {
    seeds := {};
    var draws: nat := 0;
    while |seeds| < n
      invariant seeds == Drawn(rng, seedBase, draws)
      invariant forall j :: 0 <= j < draws ==> |Drawn(rng, seedBase, j)| < n
      invariant draws <= bound
      decreases bound - draws
    {
      seeds := seeds + {rng(seedBase, draws)};
      draws := draws + 1;
    }
    StopUnique(rng, seedBase, n, draws, Stop(rng, seedBase, n, bound));
  }
}
