# DRouted route logic in Dafny

DRouted finds a round-trip walking or cycling loop of a target length. Its route logic
(`core/route_logic.py`) sends several seeded round-trip requests to an openrouteservice client.
It scores every answer by its distance error and by how much the path doubles back on itself,
and keeps the best one. The same file holds a GPX 1.1 serialiser for the chosen route and the
address-label shortener used by forward and reverse geocoding. This project models that logic
in Dafny and proves what it promises.

Modules, one per piece of the source file:

- `Seeds` (`seeds.dfy`): the loop that draws `randint(1, 10000)` into a set until it holds
  `num_candidates` seeds. The generator is a deterministic function of the base seed and the draw index.
- `Scoring` (`scoring.dfy`): `dist_score` and `final_score = 1.5·dist_score + 2.0·(1 − overlap_ratio)`, over `real`.
- `Overlap` (`overlap.dfy`): the guard and clamp structure of `_calculate_overlap_ratio`. The
  projected length and the 15 m buffer area come from an abstract geometry library that returns a
  non-negative real, or `None` when it raises.
- `Selection` (`selection.dfy`): `sorted(candidates, key=final_score)[0]`, as a stable insertion
  sort whose head is the first of the lowest-scoring candidates.
- `LoopOptimiser` (`optimiser.dfy`): `generate_optimized_loop` as a method with the seed loop and
  the candidate loop; the per-seed outcome `CandidateFor`; the list `Candidates` it builds;
  `calculate_round_trip`; and the lemmas that give the result its meaning.
- `Gpx` (`gpx.dfy`): `convert_geojson_to_gpx` as a method with its accumulating loop, plus a
  reader that recovers the track points from the document.
- `Labels` (`labels.dfy`): Python's `split(',')` and `strip()`, the shortener, `search_address`
  (a method with its loop) and `reverse_geocode`.
- `GeoJson`, `Wrappers`: the parts of the routing answer that are read, plus `Option`/`Result`.

The openrouteservice client, the geocoder and the geometry library are function parameters.
Each one returns a value, or `None` where the Python call raises. Python's `random` is a parameter
`Rng = (base, drawIndex) -> Seed`. The order in which Python iterates a set is a parameter
`visit`; the lemmas about the result hold for every order that lists each seed once.

The model follows what `generate_optimized_loop` does:
- Seeds are drawn by `randint(1, 10000)`, so they lie in [1, 10000] with both bounds included.
- Seeds are visited in CPython's set iteration order.
- The requested length is `int(target * 0.8)`, a truncation toward zero.
- A zero target is accepted. Every candidate's division then raises and is dropped, so the
  result is the "Could not generate loop" error.

## Model

| member | source | states |
|---|---|---|
| `Seeds.DrawSeeds` | core/route_logic.py:139-147 | The seed loop ends with the set of the first k draws, where k is the first number of draws that holds `num_candidates` distinct seeds. The set has exactly that many elements (none for a count ≤ 0). |
| `Seeds.Stop` | core/route_logic.py:146-147 | The number of draws at which the loop stops: its draws hold exactly `n` distinct seeds, and every smaller number of draws holds fewer. |
| `Seeds.SeedSet` | core/route_logic.py:139-147 | The seed set the loop ends with. `SeedSetSize` and `SeedSetDeterministic` give its meaning. |
| `Seeds.SeedSetSize` | core/route_logic.py:146-147 | The seed set has exactly `num_candidates` elements, each in [1, 10000]. |
| `Seeds.SeedSetDeterministic` | core/route_logic.py:140-147 | The same generator and base seed always give the same seed set, whichever bound witnesses termination. |
| `Seeds.SeedLoopNeverEndsAbove10000` | core/route_logic.py:146-147 | When more than 10000 candidates are asked for, every number of draws holds fewer distinct seeds than that, so the loop never ends. |
| `Scoring.DistanceScore` | core/route_logic.py:170-171 | The distance error relative to the original target. Its properties are stated through `NearerDistanceScoresLower` and `ScoreZeroExactlyWhenPerfect`. |
| `Scoring.FinalScore` | core/route_logic.py:173-175 | The weighted score 1.5·dist_score + 2.0·(1 − ratio). `ScoreZeroExactlyWhenPerfect`, `NearerDistanceScoresLower` and `LessOverlapScoresLower` give its meaning. |
| `Scoring.ScoreZeroExactlyWhenPerfect` | core/route_logic.py:169-175 | For a positive target and a ratio in [0, 1], the final score is ≥ 0. It is 0 exactly when the distance equals the original target and the overlap ratio is 1. |
| `Scoring.NearerDistanceScoresLower` | core/route_logic.py:169-175 | With equal overlap, a distance nearer the original target gives a strictly lower score. |
| `Scoring.LessOverlapScoresLower` | core/route_logic.py:173-175 | With an equal distance score, a higher overlap ratio (less retracing) gives a strictly lower score. |
| `Overlap.OverlapRatio` | core/route_logic.py:121-134 | The ratio is always in [0, 1]. It is 0 for fewer than two points and for a zero projected length. It is 0.5 when any geometry step raises: building or projecting the line, or buffering it. |
| `Overlap.MeasuredRatio` | core/route_logic.py:126-132 | For a measured path (positive length L, area A) the ratio is 1 exactly when A ≥ 30·L, 0 exactly when A = 0, and A/(30·L) below that. |
| `Overlap.OverlapPenaltyBounds` | core/route_logic.py:172-173 | The overlap penalty `1 - ratio` lies in [0, 1], and a degenerate path gets the full penalty 1. |
| `Selection.SortByScore` | core/route_logic.py:187 | The sort's result is ordered by score and is a permutation of the candidate list. |
| `Selection.FirstMinimum` | core/route_logic.py:187 | Gives the index of an entry that scores at most every entry, with all earlier entries scoring strictly higher. |
| `Selection.SortedHeadIsFirstMinimum` | core/route_logic.py:187 | The head of the stable sort is the first of the lowest-scoring candidates, so ties go to the earliest appended. |
| `LoopOptimiser.Trunc` | core/route_logic.py:144 | Python's `int()` of a float truncates toward zero: `r ≤ x < r+1` for x ≥ 0, and `r-1 < x ≤ r` for x < 0. |
| `LoopOptimiser.RequestFor` | core/route_logic.py:144-163 | Each request goes from the start coordinate with the caller's profile, in geojson format, with `validate=False`. It asks for 5 points and its own seed, and its length is the truncation toward zero of 0.8·target: 0 ≤ length ≤ 0.8·target < length+1 for a non-negative target, and length−1 < 0.8·target ≤ length ≤ 0 for a negative one (-2000 m sends -1600). |
| `LoopOptimiser.CandidateFor` | core/route_logic.py:150-182 | A seed gives a candidate exactly when the target is non-zero and its request is answered with a first feature that has both coordinates and a distance. The candidate carries that answer, scored against the original (unadjusted) target with the overlap ratio of its coordinates. |
| `LoopOptimiser.CandidateScoreNonNegative` | core/route_logic.py:169-175 | For a positive target every candidate's score is ≥ 0. It is 0 exactly when the answer's distance equals the target and its overlap ratio is 1. |
| `LoopOptimiser.GenerateOptimizedLoop` | core/route_logic.py:136-188 | Given that the visiting order lists each drawn seed once, the result is the selection over the seeds' candidates in that order, where the seed set is the one the seed loop ends with. It is the error exactly when every drawn seed fails. Otherwise it is the answer of a seed that scores at most every successful seed and strictly below every success visited before it. |
| `LoopOptimiser.CalculateRoundTrip` | core/route_logic.py:193-207 | A failing key lookup returns its error text. Otherwise the result is the three-candidate loop for `int(target_km * 1000)` metres, with the same meaning as in `GenerateOptimizedLoop`. A target strictly between -1 m and 1 m, which `int()` truncates to 0, always gives the "Could not generate loop" error. |
| `LoopOptimiser.Harvest` | core/route_logic.py:149-182 | The candidates appended while visiting the seeds in order. `HarvestAppend`, `HarvestMembers` and `HarvestEmptyIffAllFail` give its meaning. |
| `LoopOptimiser.Candidates` | core/route_logic.py:149-182 | The candidate list of the loop, that is `Harvest` of `CandidateFor`. `LoopResultMeaning` gives its meaning. |
| `LoopOptimiser.Select` | core/route_logic.py:184-188 | The error for an empty list, otherwise the sorted list's head. `SelectFirstBest` gives its meaning. |
| `LoopOptimiser.HarvestAppend` | core/route_logic.py:149-182 | Seeds are independent. The candidates of a visit are those of its first part followed by those of the rest, so a failed seed removes only its own candidate and does not stop the loop. |
| `LoopOptimiser.HarvestMembers` | core/route_logic.py:149-182 | Something is a candidate exactly when some visited seed succeeded with it (both directions). |
| `LoopOptimiser.HarvestEmptyIffAllFail` | core/route_logic.py:149-185 | The candidate list is empty exactly when every visited seed failed. |
| `LoopOptimiser.WinnerIsEarliestBestSeed` | core/route_logic.py:177-188 | The winner belongs to a visited seed. That seed scores ≤ every successful seed and strictly below every successful seed visited before it. |
| `LoopOptimiser.SelectFirstBest` | core/route_logic.py:184-188 | The selection is the error exactly for an empty list. Otherwise it is the route of the first lowest-scoring candidate. |
| `LoopOptimiser.ZeroTargetNeverLoops` | core/route_logic.py:169-185 | With a zero target every seed's division raises, so the result is always the "Could not generate loop" error. |
| `LoopOptimiser.LoopResultMeaning` | core/route_logic.py:149-188 | For any order that visits each seed of the set once, the selection is the error exactly when every seed fails. Otherwise it is the answer of a seed `order[i]` in the set whose score is ≤ that of every successful seed and strictly below every success visited before it. |
| `LoopOptimiser.WorkedExample` | core/route_logic.py:169-188 | For a 5000 m target, answers of 4200, 5300 and 4950 m with ratios 0.9, 0.6 and 0.95 score 0.44, 0.89 and 0.115, and the third is returned. |
| `Gpx.ConvertGeoJsonToGpx` | core/route_logic.py:63-89 | Returns `None` exactly when the first feature's coordinates are missing or some position does not unpack into two values. Otherwise the document is the header (with `name` in both `<metadata>` and `<trk>`), then the track points, then the footer. The text between header and footer reads back as the coordinates swapped to latitude first, in input order. |
| `Gpx.ConvertWithDefaultName` | core/route_logic.py:63 | Without a name argument the document has the same shape, with "DRouted Trip" as the track name. |
| `Gpx.Header` | core/route_logic.py:68-75 | The XML declaration, `<gpx version="1.1" creator="DRouted">` in the Topografix namespace, and the name in both `<metadata>` and `<trk>`. Its use is stated by `ConvertGeoJsonToGpx`. |
| `Gpx.Points` | core/route_logic.py:77-80 | One `<trkpt lat=… lon=…>` line per coordinate. `PointsRoundTrip` gives its meaning: it reads back as the swapped pairs. |
| `Gpx.ReadPoints` | core/route_logic.py:80 | The reader of track point lines that `PointsRoundTrip` proves to invert `Points`. |
| `Gpx.PointsRoundTrip` | core/route_logic.py:77-80 | Reading the track points back gives one `(lat, lon)` pair per coordinate in input order, swapped from GeoJSON's `[lon, lat]`. |
| `Gpx.UntilQuote` | core/route_logic.py:80 | The attribute text read back is the longest part with no double quote, and it ends at a quote. |
| `Labels.StripStart` | core/route_logic.py:35 | `strip()`'s scan from the front stops at the first non-whitespace character and skips only whitespace. |
| `Labels.StripEnd` | core/route_logic.py:35 | `strip()`'s scan from the back stops after the last non-whitespace character and drops only whitespace. |
| `Labels.StripIsInnerPart` | core/route_logic.py:35 | `strip()` gives the infix of the label that remains after removing exactly the whitespace at both ends. |
| `Labels.SplitJoin` | core/route_logic.py:33 | `split(',')` has one more part than the label has commas, no part holds a comma, and the parts rejoin with commas into the label. |
| `Labels.Strip` | core/route_logic.py:35 | Python's `str.strip()`. `StripIsInnerPart` gives its meaning: the infix left after the leading and trailing whitespace. |
| `Labels.Split` | core/route_logic.py:33 | Python's `str.split(',')`. `SplitJoin` gives its meaning: comma-free parts, one more than the commas, which rejoin into the label. |
| `Labels.ShortLabel` | core/route_logic.py:33-37 | The shortener shared by both geocoding calls. `ShortLabelMeaning` and `ShortLabelIdempotent` give its meaning. |
| `Labels.ShortLabelMeaning` | core/route_logic.py:32-37 | A label with fewer than two commas is unchanged. Otherwise the result is the stripped text before the first comma and the stripped text between the first and second commas, joined by ", ". |
| `Labels.ShortLabelIdempotent` | core/route_logic.py:53-56 | Shortening an already shortened label changes nothing. |
| `Labels.SearchAddress` | core/route_logic.py:22-41 | An empty term, no client, a raising search or any malformed feature gives `[]`. Otherwise there is one suggestion per feature in order: its shortened label ("Unknown" when absent) and its coordinates. |
| `Labels.ReverseGeocode` | core/route_logic.py:46-59 | Gives the shortened label of the first feature found at `[lng, lat]`. With no client, a raising lookup, no feature or no label, it gives the four-decimal "lat, lng" fallback. |

## Left out

- The Streamlit UI, session state and map rendering in `app.py` are presentation only.
- The `@st.cache_resource` / `@st.cache_data` caching and `get_client`'s `st.secrets` lookup are
  framework plumbing. They appear only as a `clientAvailable` flag and as the key lookup's
  `Result` given to `CalculateRoundTrip`.
- `calculate_route` (a thin wrapper around one directions call) is not part of this model.
  Neither is `get_gpx_converter`, which only returns the converter function.
- The openrouteservice calls (`directions`, `pelias_search`, `pelias_reverse`) are network I/O.
  They are oracles that return a value or fail. A raising call and an answer whose key lookups
  raise are both `None`.
- The projection from EPSG:4326 to EPSG:3857, shapely's buffering, length and area are
  floating-point geometry in foreign libraries. They are the abstract `Geometry` oracles.
- Python's Mersenne Twister and the distribution of `randint` are left out. `Rng` is any
  deterministic draw sequence. For an abstract generator the seed loop is proved to stop only
  given a `bound` by which enough distinct seeds have been drawn.
- CPython's set iteration order is the parameter `visit` and is not derived. The methods require only
  that `visit` lists each drawn seed once. `visit` is a function of the set alone and is chosen
  per call. In CPython the order also depends on the insertion history when hash slots collide
  (seeds 1 and 9 share a slot of an 8-slot table), which the model leaves to the caller's choice of `visit`.
- Python's random generator is global to the process. `random.seed(seed_base)` reseeds it for
  the whole program, and `app.py` draws from the same generator (app.py:123, app.py:230), with
  Streamlit sessions running on threads that share it. `Rng(base, i)` is exact only when nothing
  else draws between the seeding and the seed loop's draws. The reseeding's effect on later draws
  elsewhere (app.py's next `randint(1, 100000)` follows from the last `seed_base`) is not modelled.
- Floating point is modelled as exact `real`: no rounding, NaN or infinity. For the same reason
  `int()` raising on NaN or infinity is not modelled.
- Number formatting (`str()` of a coordinate in GPX, `f"{x:.4f}"` in `reverse_geocode`) is left
  out. Coordinates are carried as their printed text (which never holds a double quote), and the
  four-decimal format is the parameter `fixed4`.
- Python's dynamic typing is left out. A label that is not a string, a
  `geometry.coordinates` that is JSON `null` rather than missing, or a coordinate that is a
  two-character string cannot be expressed in the model.
- Python's default arguments of `generate_optimized_loop` (`num_candidates=3`, `profile='foot-walking'`,
  `seed_base=0`) and of `calculate_round_trip` (`profile='foot-walking'`, `seed=0`) are not modelled.
  Every call in the program passes all of them (core/route_logic.py:199-205, app.py:238-243).
- CalculateRoundTrip: only the key lookup's exception is modelled inside the outer `try`. Other
  failures while building the optimiser (for example a pyproj without `transform`) are
  environment faults and are not modelled.
