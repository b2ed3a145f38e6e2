/**
 * `RouteLoopOptimiser.generate_optimized_loop` and its wrapper `calculate_round_trip`: one
 * round-trip request per seed, each answer scored against the user's original target, failed
 * seeds dropped, and the lowest score kept (the first of equals).
 */
module LoopOptimiser {
  import opened Wrappers
  import opened GeoJson
  import opened Overlap
  import opened Scoring
  import opened Seeds
  import opened Selection

  /** The via-point count sent with every round-trip request. */
  const RoundTripPoints := 5
  /** The factor by which the requested length undercuts the target. */
  const LengthFactor: real := 0.8
  const LoopFailedMessage := "Could not generate loop. Try adjusting distance."
  /** How many candidates `calculate_round_trip` asks for. */
  const RoundTripCandidates := 3

  /** A `directions` call with `options.round_trip = {length, points, seed}`. */
  datatype RoundTripRequest = RoundTripRequest(
    coordinates: seq<Position>, profile: string, format: string,
    length: int, points: int, seed: int, validate: bool)

  /**
   * A `RouteLoopOptimiser`: the routing client, answering a request with a GeoJSON document or
   * `None` when the call raises, and the geometry library of the overlap estimate.
   */
  datatype Optimiser = Optimiser(directions: RoundTripRequest -> Option<Document>, geometry: Geometry)

  /** What `generate_optimized_loop` returns: the winning answer, or a dictionary with an `error` text. */
  datatype LoopResult = Route(response: Document) | Error(message: string)

  /** Python's `int(x)` of a float: truncation toward zero. */
  function Trunc(x: real): (r: int)
    ensures x >= 0.0 ==> r as real <= x < r as real + 1.0
    ensures x < 0.0 ==> r as real - 1.0 < x <= r as real
  {
    if x >= 0.0 then x.Floor else -((-x).Floor)
  }

  /** `int(target_dist_meters * 0.8)`. */
  function AdjustedLength(targetDist: real): int
  {
    Trunc(targetDist * LengthFactor)
  }

  /** The request sent for one seed. */
  function RequestFor(start: Position, profile: string, targetDist: real, seed: Seed): (req: RoundTripRequest)
    ensures req.coordinates == [start] && req.profile == profile && req.seed == seed
    ensures req.points == 5 && req.format == "geojson" && !req.validate
    ensures targetDist >= 0.0 ==> 0 <= req.length && req.length as real <= 0.8 * targetDist < req.length as real + 1.0
    ensures targetDist < 0.0 ==> req.length <= 0 && req.length as real - 1.0 < 0.8 * targetDist <= req.length as real
  {
    RoundTripRequest([start], profile, "geojson", AdjustedLength(targetDist), RoundTripPoints, seed, false)
  }

  /**
   * The candidate one seed contributes, if any: `None` when the request raises, the answer lacks
   * the first feature's coordinates or distance, or the target is zero (the division raises).
   */
  function CandidateFor(opt: Optimiser, start: Position, profile: string, targetDist: real, seed: Seed)
    : (r: Option<Candidate>)
    ensures var answer := opt.directions(RequestFor(start, profile, targetDist, seed));
      r.Some? <==> (&& targetDist != 0.0 && answer.Some? && FirstFeature(answer.value).Some?
                    && FirstFeature(answer.value).value.coordinates.Some?
                    && FirstFeature(answer.value).value.distance.Some?)
    ensures r.Some? ==>
      var answer := opt.directions(RequestFor(start, profile, targetDist, seed));
      var feature := FirstFeature(answer.value).value;
      && answer == Some(r.value.route)
      && r.value.finalScore == FinalScore(DistanceScore(feature.distance.value, targetDist),
                                          OverlapRatio(opt.geometry, feature.coordinates.value))
  {
    match opt.directions(RequestFor(start, profile, targetDist, seed))
    case None => None
    case Some(response) =>
      match FirstFeature(response)
      case None => None
      case Some(feature) =>
        if feature.coordinates.None? || feature.distance.None? || targetDist == 0.0 then None
        else
          var ratio := OverlapRatio(opt.geometry, feature.coordinates.value);
          Some(Candidate(FinalScore(DistanceScore(feature.distance.value, targetDist), ratio), response))
  }

  /** For a positive target every candidate's score is at least zero, and zero only for a perfect route. */
  lemma CandidateScoreNonNegative(opt: Optimiser, start: Position, profile: string, targetDist: real, seed: Seed)
    requires targetDist > 0.0 && CandidateFor(opt, start, profile, targetDist, seed).Some?
    ensures var c := CandidateFor(opt, start, profile, targetDist, seed).value;
      && c.finalScore >= 0.0
      && (c.finalScore == 0.0 <==>
            var f := FirstFeature(c.route).value;
            f.distance.value == targetDist && OverlapRatio(opt.geometry, f.coordinates.value) == 1.0)
  {
    var c := CandidateFor(opt, start, profile, targetDist, seed).value;
    var f := FirstFeature(c.route).value;
    ScoreZeroExactlyWhenPerfect(f.distance.value, targetDist, OverlapRatio(opt.geometry, f.coordinates.value));
  }

  /** The outcome of every seed, as a function of the seed. */
  function Attempt(opt: Optimiser, start: Position, profile: string, targetDist: real): Seed -> Option<Candidate>
  {
    (seed: Seed) => CandidateFor(opt, start, profile, targetDist, seed)
  }

  /** The candidates appended while visiting `order`: the successful outcomes, in visiting order. */
  function Harvest(f: Seed -> Option<Candidate>, order: seq<Seed>): seq<Candidate>
  {
    if order == [] then []
    else
      var before := Harvest(f, order[..|order| - 1]);
      match f(order[|order| - 1])
      case None => before
      case Some(c) => before + [c]
  }

  /** The candidate list after visiting the seeds of `order`, in that order. */
  function Candidates(opt: Optimiser, start: Position, profile: string, targetDist: real, order: seq<Seed>)
    : seq<Candidate>
  {
    Harvest(Attempt(opt, start, profile, targetDist), order)
  }

  /** The end of `generate_optimized_loop`: the error when nothing succeeded, else the sorted list's head. */
  function Select(cs: seq<Candidate>): LoopResult
  {
    if cs == [] then Error(LoopFailedMessage) else Route(SortByScore(cs)[0].route)
  }

  /** `order` lists the elements of `s`, each once: how Python's `for seed in seeds` visits the set. */
  ghost predicate Enumerates(order: seq<Seed>, s: set<Seed>)
  {
    |order| == |s| && forall x :: x in s <==> x in order
  }

  /**
   * `generate_optimized_loop`. `rng` is the draw sequence of Python's `random` after `random.seed`,
   * `visit` the order in which Python iterates a set, and `bound` a number of draws within which
   * `numCandidates` distinct seeds come up (so that the seed loop stops).
   */
  method GenerateOptimizedLoop(opt: Optimiser, rng: Rng, visit: set<Seed> -> seq<Seed>,
                               start: Position, targetDist: real, numCandidates: int,
                               profile: string, seedBase: int, ghost bound: nat)
    returns (result: LoopResult)
    requires numCandidates <= |Drawn(rng, seedBase, bound)|
    requires Enumerates(visit(SeedSet(rng, seedBase, numCandidates, bound)), SeedSet(rng, seedBase, numCandidates, bound))
    ensures result == Select(Candidates(opt, start, profile, targetDist,
                                        visit(SeedSet(rng, seedBase, numCandidates, bound))))
    ensures LoopOutcome(opt, start, profile, targetDist, SeedSet(rng, seedBase, numCandidates, bound),
                        visit(SeedSet(rng, seedBase, numCandidates, bound)), result)
  {
    var candidates: seq<Candidate> := [];
    var seeds := DrawSeeds(rng, seedBase, numCandidates, bound);
    var adjustedTarget := Trunc(targetDist * LengthFactor);
    var order := visit(seeds);
    for i := 0 to |order|
      invariant candidates == Candidates(opt, start, profile, targetDist, order[..i])
    {
      assert order[..i + 1][..i] == order[..i];
      var seed := order[i];
      var routeResponse := opt.directions(
        RoundTripRequest([start], profile, "geojson", adjustedTarget, RoundTripPoints, seed, false));
      if routeResponse.None? {
        continue;
      }
      var feature := FirstFeature(routeResponse.value);
      if feature.None? || feature.value.coordinates.None? || feature.value.distance.None? {
        continue;
      }
      var geometry := feature.value.coordinates.value;
      var actualDist := feature.value.distance.value;
      if targetDist == 0.0 {
        continue;
      }
      var distError := Abs(actualDist - targetDist);
      var distScore := distError / targetDist;
      var overlapRatio := OverlapRatio(opt.geometry, geometry);
      var overlapPenalty := 1.0 - overlapRatio;
      var finalScore := (distScore * DistanceWeight) + (overlapPenalty * OverlapWeight);
      candidates := candidates + [Candidate(finalScore, routeResponse.value)];
    }
    assert order[..|order|] == order;
    if candidates == [] {
      LoopResultMeaning(opt, start, profile, targetDist, seeds, order);
      return Error(LoopFailedMessage);
    }
    result := Route(SortByScore(candidates)[0].route);
    LoopResultMeaning(opt, start, profile, targetDist, seeds, order);
  }

  /**
   * `calculate_round_trip`: the key lookup failing gives its error text; otherwise three candidates
   * around `int(target_km * 1000)` metres. `connect` builds a `RouteLoopOptimiser` from the key.
   */
  method CalculateRoundTrip(apiKey: Result<string, string>, connect: string -> Optimiser, rng: Rng,
                            visit: set<Seed> -> seq<Seed>, start: Position, targetKm: real,
                            profile: string, seed: int, ghost bound: nat)
    returns (result: LoopResult)
    requires RoundTripCandidates <= |Drawn(rng, seed, bound)|
    requires Enumerates(visit(SeedSet(rng, seed, RoundTripCandidates, bound)), SeedSet(rng, seed, RoundTripCandidates, bound))
    ensures apiKey.Failure? ==> result == Error(apiKey.error)
    ensures apiKey.Success? ==>
      result == Select(Candidates(connect(apiKey.value), start, profile, Trunc(targetKm * 1000.0) as real,
                                  visit(SeedSet(rng, seed, RoundTripCandidates, bound))))
    ensures apiKey.Success? ==>
      LoopOutcome(connect(apiKey.value), start, profile, Trunc(targetKm * 1000.0) as real,
                  SeedSet(rng, seed, RoundTripCandidates, bound), visit(SeedSet(rng, seed, RoundTripCandidates, bound)),
                  result)
    ensures apiKey.Success? && -0.001 < targetKm < 0.001 ==> result == Error(LoopFailedMessage)
  {
    if apiKey.Failure? {
      return Error(apiKey.error);
    }
    var optimizer := connect(apiKey.value);
    var targetMeters := Trunc(targetKm * 1000.0);
    result := GenerateOptimizedLoop(optimizer, rng, visit, start, targetMeters as real,
                                    RoundTripCandidates, profile, seed, bound);
    if -0.001 < targetKm < 0.001 {
      ZeroTargetNeverLoops(optimizer, start, profile, visit(SeedSet(rng, seed, RoundTripCandidates, bound)));
    }
  }

  /**
   * Seeds are independent: the candidates of a longer visit are those of its first part followed
   * by those of the rest, so a failing seed removes only its own candidate and stops nothing.
   */
  lemma {:induction false} HarvestAppend(f: Seed -> Option<Candidate>, a: seq<Seed>, b: seq<Seed>)
    ensures Harvest(f, a + b) == Harvest(f, a) + Harvest(f, b)
    decreases |b|
  {
    if b == [] {
      assert a + b == a;
    } else {
      assert (a + b)[..|a + b| - 1] == a + b[..|b| - 1];
      HarvestAppend(f, a, b[..|b| - 1]);
    }
  }

  /** Every candidate comes from a visited seed that succeeded, and every such seed gives one. */
  lemma {:induction false} HarvestMembers(f: Seed -> Option<Candidate>, order: seq<Seed>, c: Candidate)
    ensures c in Harvest(f, order) <==> exists s :: s in order && f(s) == Some(c)
    decreases |order|
  {
    if order != [] {
      var init := order[..|order| - 1];
      HarvestMembers(f, init, c);
      assert order == init + [order[|order| - 1]];
      forall s | s in init ensures s in order { }
    }
  }

  /** No candidate at all exactly when every visited seed fails. */
  lemma HarvestEmptyIffAllFail(f: Seed -> Option<Candidate>, order: seq<Seed>)
    ensures Harvest(f, order) == [] <==> forall s :: s in order ==> f(s).None?
  {
    var cs := Harvest(f, order);
    if cs != [] {
      HarvestMembers(f, order, cs[0]);
    } else {
      forall s | s in order ensures f(s).None? {
        if f(s).Some? {
          HarvestMembers(f, order, f(s).value);
        }
      }
    }
  }

  /** `k` is the first of the lowest-scoring entries of `cs`. */
  ghost predicate FirstBest(cs: seq<Candidate>, k: int)
  {
    && 0 <= k < |cs|
    && (forall j :: 0 <= j < |cs| ==> cs[k].finalScore <= cs[j].finalScore)
    && (forall j :: 0 <= j < k ==> cs[j].finalScore > cs[k].finalScore)
  }

  lemma FirstBestUnique(cs: seq<Candidate>, k: int)
    requires FirstBest(cs, k)
    ensures k == FirstMinimum(cs)
  {
  }

  /** Appending one entry: it wins only by scoring strictly below the earlier winner. */
  lemma FirstMinimumAppend(cs: seq<Candidate>, c: Candidate)
    requires cs != []
    ensures var m := FirstMinimum(cs);
      FirstMinimum(cs + [c]) == if cs[m].finalScore <= c.finalScore then m else |cs|
  {
    var m := FirstMinimum(cs);
    var all := cs + [c];
    if cs[m].finalScore <= c.finalScore {
      assert FirstBest(all, m);
      FirstBestUnique(all, m);
    } else {
      assert FirstBest(all, |cs|);
      FirstBestUnique(all, |cs|);
    }
  }

  /** Seed `order[i]` produced `w`, which scores at most every success and below every earlier one. */
  ghost predicate EarliestBestSeed(f: Seed -> Option<Candidate>, order: seq<Seed>, i: int, w: Candidate)
  {
    && 0 <= i < |order|
    && f(order[i]) == Some(w)
    && (forall j :: 0 <= j < |order| && f(order[j]).Some? ==> w.finalScore <= f(order[j]).value.finalScore)
    && (forall j :: 0 <= j < i && f(order[j]).Some? ==> w.finalScore < f(order[j]).value.finalScore)
  }

  /** A seed visited last that fails or scores no lower leaves the earlier winner in place. */
  lemma KeepEarlierWinner(f: Seed -> Option<Candidate>, order: seq<Seed>, i: int, w: Candidate)
    requires |order| > 0 && EarliestBestSeed(f, order[..|order| - 1], i, w)
    requires f(order[|order| - 1]).Some? ==> w.finalScore <= f(order[|order| - 1]).value.finalScore
    ensures EarliestBestSeed(f, order, i, w)
  {
    var init := order[..|order| - 1];
    assert forall j :: 0 <= j < |init| ==> order[j] == init[j];
  }

  /** A seed visited last that scores below every earlier success is the winner. */
  lemma LastSeedWins(f: Seed -> Option<Candidate>, order: seq<Seed>, w: Candidate)
    requires |order| > 0 && f(order[|order| - 1]) == Some(w)
    requires forall j :: 0 <= j < |order| - 1 && f(order[j]).Some? ==> w.finalScore < f(order[j]).value.finalScore
    ensures EarliestBestSeed(f, order, |order| - 1, w)
  {
  }

  /**
   * The first lowest-scoring candidate belongs to a visited seed whose score is at most every other
   * successful seed's, and every successful seed visited before it scores strictly higher.
   */
  lemma {:induction false} WinnerIsEarliestBestSeed(f: Seed -> Option<Candidate>, order: seq<Seed>)
    requires Harvest(f, order) != []
    ensures var cs := Harvest(f, order);
      exists i :: EarliestBestSeed(f, order, i, cs[FirstMinimum(cs)])
    decreases |order|
  {
    var cs := Harvest(f, order);
    var n := |order|;
    var init := order[..n - 1];
    var before := Harvest(f, init);
    var last := f(order[n - 1]);
    if last.None? {
      assert cs == before;
      WinnerIsEarliestBestSeed(f, init);
      var i :| EarliestBestSeed(f, init, i, before[FirstMinimum(before)]);
      KeepEarlierWinner(f, order, i, cs[FirstMinimum(cs)]);
    } else if before == [] {
      assert cs == [last.value];
      HarvestEmptyIffAllFail(f, init);
      forall j | 0 <= j < n - 1 ensures f(order[j]).None? {
        assert order[j] in init;
      }
      LastSeedWins(f, order, cs[FirstMinimum(cs)]);
    } else {
      var c := last.value;
      assert cs == before + [c];
      WinnerIsEarliestBestSeed(f, init);
      var m := FirstMinimum(before);
      var i :| EarliestBestSeed(f, init, i, before[m]);
      FirstMinimumAppend(before, c);
      if before[m].finalScore <= c.finalScore {
        KeepEarlierWinner(f, order, i, cs[FirstMinimum(cs)]);
      } else {
        forall j | 0 <= j < n - 1 && f(order[j]).Some? ensures c.finalScore < f(order[j]).value.finalScore {
          assert order[j] == init[j];
        }
        LastSeedWins(f, order, cs[FirstMinimum(cs)]);
      }
    }
  }

  /** `Select` is the error exactly for an empty list, and otherwise the first lowest-scoring entry. */
  lemma SelectFirstBest(cs: seq<Candidate>)
    ensures Select(cs) == Error(LoopFailedMessage) <==> cs == []
    ensures cs != [] ==> exists i :: FirstBest(cs, i) && Select(cs) == Route(cs[i].route)
  {
    if cs != [] {
      SortedHeadIsFirstMinimum(cs);
      assert FirstBest(cs, FirstMinimum(cs));
    }
  }

  /** A zero target makes every seed raise in the division: the result is always the error. */
  lemma ZeroTargetNeverLoops(opt: Optimiser, start: Position, profile: string, order: seq<Seed>)
    ensures Select(Candidates(opt, start, profile, 0.0, order)) == Error(LoopFailedMessage)
  {
    HarvestEmptyIffAllFail(Attempt(opt, start, profile, 0.0), order);
  }

  /**
   * What the optimiser's result means for a set of seeds visited in `order`: the error exactly
   * when every seed fails; otherwise the answer of a successful seed `order[i]` whose score is the
   * lowest of all successful seeds' scores and below that of every success visited before it.
   */
  ghost predicate LoopOutcome(opt: Optimiser, start: Position, profile: string, targetDist: real,
                              seeds: set<Seed>, order: seq<Seed>, result: LoopResult)
  {
    && ((result == Error(LoopFailedMessage)) <==>
          (forall s :: s in seeds ==> CandidateFor(opt, start, profile, targetDist, s).None?))
    && (result.Route? || result == Error(LoopFailedMessage))
    && (result.Route? ==> exists i :: (&& 0 <= i < |order| && order[i] in seeds
          && CandidateFor(opt, start, profile, targetDist, order[i]).Some?
          && result == Route(CandidateFor(opt, start, profile, targetDist, order[i]).value.route)
          && (forall t :: t in seeds && CandidateFor(opt, start, profile, targetDist, t).Some?
                ==> CandidateFor(opt, start, profile, targetDist, order[i]).value.finalScore
                    <= CandidateFor(opt, start, profile, targetDist, t).value.finalScore)
          && (forall j :: 0 <= j < i && CandidateFor(opt, start, profile, targetDist, order[j]).Some?
                ==> CandidateFor(opt, start, profile, targetDist, order[i]).value.finalScore
                    < CandidateFor(opt, start, profile, targetDist, order[j]).value.finalScore)))
  }

  /** For any order that visits each seed of the set once, the selection has the meaning above. */
  lemma LoopResultMeaning(opt: Optimiser, start: Position, profile: string, targetDist: real,
                          seeds: set<Seed>, order: seq<Seed>)
    requires Enumerates(order, seeds)
    ensures LoopOutcome(opt, start, profile, targetDist, seeds, order,
                        Select(Candidates(opt, start, profile, targetDist, order)))
  {
    var f := Attempt(opt, start, profile, targetDist);
    var cs := Harvest(f, order);
    HarvestEmptyIffAllFail(f, order);
    if cs != [] {
      WinnerIsEarliestBestSeed(f, order);
      SortedHeadIsFirstMinimum(cs);
      var w := cs[FirstMinimum(cs)];
      var i :| EarliestBestSeed(f, order, i, w);
      forall t | t in seeds && f(t).Some?
        ensures w.finalScore <= f(t).value.finalScore
      {
        var j :| 0 <= j < |order| && order[j] == t;
      }
      assert order[i] in seeds;
    }
  }

  /**
   * A worked example: for a 5000 m target, answers of 4200 m, 5300 m and 4950 m with overlap
   * ratios 0.9, 0.6 and 0.95 score 0.44, 0.89 and 0.115, and the third wins.
   */
  lemma WorkedExample(first: Document, second: Document, third: Document)
    ensures var cs := [Candidate(FinalScore(DistanceScore(4200.0, 5000.0), 0.9), first),
                       Candidate(FinalScore(DistanceScore(5300.0, 5000.0), 0.6), second),
                       Candidate(FinalScore(DistanceScore(4950.0, 5000.0), 0.95), third)];
      && cs[0].finalScore == 0.44 && cs[1].finalScore == 0.89 && cs[2].finalScore == 0.115
      && Select(cs) == Route(third)
  {
    var cs := [Candidate(FinalScore(DistanceScore(4200.0, 5000.0), 0.9), first),
               Candidate(FinalScore(DistanceScore(5300.0, 5000.0), 0.6), second),
               Candidate(FinalScore(DistanceScore(4950.0, 5000.0), 0.95), third)];
    assert cs[0].finalScore == 0.44 && cs[1].finalScore == 0.89 && cs[2].finalScore == 0.115;
    assert FirstBest(cs, 2);
    FirstBestUnique(cs, 2);
    SortedHeadIsFirstMinimum(cs);
  }
}
