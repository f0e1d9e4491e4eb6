# Geographic points and their tag summary, in Dafny

This project models two pieces of the lab-2 point toolkit:

- the `Point` value type of `src/spatial.py`. A point is built from an id, a
  longitude, a latitude and an optional name and tag. Construction checks
  that the longitude lies in [-180, 180] and then that the latitude lies in
  [-90, 90], each bound inclusive. Each failed check raises its own
  `ValueError`. On success the five fields are stored as given. `to_tuple`
  returns `(lon, lat)`. `distance_to` hands the two points' coordinates to
  `haversine_m`.
- the tag-count aggregation that produces `summary["tags"]` in
  `src/run_lab2.py`. One pass over the points counts each `tag` in a Python
  dictionary, with `None` as a bucket of its own. The dictionary's items,
  in insertion order, become a list of single-entry mappings.

Files:

- `wrappers.dfy`: module `Wrappers`, with `Option` (Python's `None` or a
  value) and `Result` (a value or an error).
- `spatial.dfy`: module `Spatial`. It has the `Point` datatype, the range
  invariant `Valid` and the subset type `ValidPoint`. `MakePoint` is the
  constructor, returning a `Result` with two distinct errors, and
  `PointError.Message` gives their texts. It also has `ToTuple` and
  `DistanceTo`. The haversine function is a parameter of `DistanceTo`.
- `tag_summary.dfy`: module `TagSummary`. It models the insertion-ordered
  dictionary as its item list (`Counts`). `TagsOf` reads each point's
  `tag`. `Get` is `dict.get(k, 0)`, and `Bump` is one loop step. `Tally`
  is the whole loop as a fold, and
  `Singletons` is the list comprehension. The reference specification
  `IsTagReport` speaks of multiplicities (`multiset`) and first
  occurrences (`FirstIndex`). `SummarizeTags` is the loop itself, as a
  method.

Coordinates are exact `real`s. Comparisons on exact reals give the bounds
the source intends.

## Model

| member | source | states |
|---|---|---|
| Spatial.MakePoint | src/spatial.py:4-14 | construction succeeds iff -180 <= lon <= 180 and -90 <= lat <= 90 (inclusive); an out-of-range longitude fails with the longitude error even when the latitude is also bad; an in-range longitude with a bad latitude fails with the latitude error; on success id, lon, lat, name and tag are stored unchanged |
| Spatial.MakePointErrorMessage | src/spatial.py:5-8 | a failed construction carries "Longitude must be between -180 and 180" exactly when the longitude is out of range, and otherwise "Latitude must be between -90 and 90" |
| Spatial.MakePointMatchesValid | src/spatial.py:5-14 | construction succeeds exactly when the point it would build satisfies the coordinate-range invariant, and then returns that point |
| Spatial.RebuildValidPoint | src/spatial.py:5-14 | every point satisfying the invariant is produced by construction from its own fields, so the invariant describes exactly the constructible points |
| Spatial.MakePointDefaults | src/spatial.py:4 | omitting name and tag is the same as passing absent values, and a point built that way has neither |
| Spatial.MakePointBoundaries | src/spatial.py:5-8 | (180, 90) and (-180, -90) are accepted; (181, 0), (999, 14) and (200, 95) fail on longitude; (0, 90.5) fails on latitude |
| Spatial.ToTuple | src/spatial.py:19-21 | to_tuple gives longitude first, then latitude: the pair lies in range and rebuilds the same point with its other fields |
| Spatial.DistanceTo | src/spatial.py:23-24 | distance_to passes the receiver's (lon, lat), in to_tuple order, and then the other point's (lon, lat) to the haversine function |
| Spatial.DistanceDependsOnCoordinates | src/spatial.py:23-24 | the distance depends only on the two coordinate pairs, not on id, name or tag |
| Spatial.DistanceSymmetricWhenHaversineIs | src/spatial.py:23-24 | when the haversine function is symmetric in its two pairs, p.distance_to(q) == q.distance_to(p) (this uses that Spatial.DistanceTo passes each point's coordinates as a pair, one pair in positions 1-2 and the other in 3-4, with both pairs in the same internal order, (lon, lat)) |
| Spatial.DistanceZeroWhenHaversineIs | src/spatial.py:23-24 | when the haversine function is zero on equal pairs, the distance between points with the same coordinates is zero (this uses that both pairs are passed in the same internal order, (lon, lat)) |
| TagSummary.TagsOf | src/run_lab2.py:42-43 | `tag = point.tag` for each point of `pointset.points`: one tag per point, in point order |
| TagSummary.Get | src/run_lab2.py:44 | `counts.get(tag, 0)`: 0 for a tag that is not a key, otherwise the count stored in that key's item |
| TagSummary.Bump | src/run_lab2.py:43-44 | one step `counts[tag] = counts.get(tag, 0) + 1`: looking up `tag` gives one more than before and every other key's lookup is unchanged; an existing key keeps its place, a new key goes last; the total grows by one |
| TagSummary.TallyCountsMultiplicity | src/run_lab2.py:41-44 | after the loop, the count stored under each tag value equals the number of points carrying it (0 for values never seen) |
| TagSummary.Tally | src/run_lab2.py:41-44 | the dictionary the loop leaves, one step per point; its counts add up to the number of points |
| TagSummary.TallyKeysDistinctAndComplete | src/run_lab2.py:41-44 | the dictionary's keys are distinct and are exactly the tag values that occur, None included |
| TagSummary.TallyKeysFirstSeen | src/run_lab2.py:41-44 | the dictionary's keys are in the order their values first occur in the point sequence |
| TagSummary.Singletons | src/run_lab2.py:46 | `[{k: v} for k, v in counts.items()]`: one mapping per dictionary item, in item order, whose only key is the item's tag and whose value is its count |
| TagSummary.SingletonsAreSingleEntries | src/run_lab2.py:46 | every element of the tag list is a mapping with exactly one key |
| TagSummary.SingletonsTotal | src/run_lab2.py:46 | the counts listed in the tag list add up to the dictionary's total |
| TagSummary.TallyReportMeetsSpec | src/run_lab2.py:41-46 | the tag list meets the report specification: single-entry mappings, each count equal to its tag's multiplicity and at least 1, every tag listed, entries in first-seen order (so no key repeats), counts summing to the number of points |
| TagSummary.ReportIsUnique | src/run_lab2.py:41-46 | two lists meeting the report specification for the same tags are equal, so the specification determines the tag list completely |
| TagSummary.ReportSpecCharacterizes | src/run_lab2.py:41-46 | a list meets the report specification if and only if it is the list the loop and comprehension build |
| TagSummary.EmptyReport | src/run_lab2.py:41-46 | an empty point sequence yields an empty tag list |
| TagSummary.SummarizeTags | src/run_lab2.py:41-46 | the counting loop over the points followed by the comprehension yields a tag list meeting the report specification, whose counts sum to the number of points, and which is empty when there are no points |

## Left out

- `Point.haversine_m` (src/spatial.py:30-42): floating-point sin, cos, atan2 and sqrt with R = 6,371,000 m. It is a parameter of `DistanceTo`. Its symmetry and zero distance are not proved; the two distance lemmas take them as hypotheses.
- Floating point in general: coordinates are exact reals, which have no NaN. In Python a NaN longitude fails with the longitude error. A NaN latitude with an in-range longitude fails with the latitude error. Neither case is modelled. Python also accepts any comparable `lon`/`lat` (ints, for instance); the model takes reals.
- Mutability of `Point`: the five attributes are plain mutable attributes (src/spatial.py:10-14), and the range is checked only in `__init__`. Assigning an out-of-range `lon` or `lat` after construction is not modelled. `ValidPoint` keeps the range invariant for good, since Dafny datatypes are immutable.
- `haversine_m` errors: near antipodal pairs, rounding can push `a` just above 1. `math.sqrt(1 - a)` then raises `ValueError` (src/spatial.py:40). The total `Haversine` function type cannot express this failure, so `DistanceTo` never fails in the model.
- `PointSet` (`from_csv`, `count`, `bbox`, `filter_by_tag`, `get_lat_list`, `get_lon_list`, `plot_lat_lon`, `generate_summary_json`): only its call sites appear in src/run_lab2.py and src/demo.py. Its implementation is not part of this model. `SummarizeTags` takes the points list directly.
- CSV reading (src/run_lab2.py:6-7): file I/O.
- The preview plot (src/run_lab2.py:17-32): rendering. In the source, `savefig` runs only when there are points, so an empty set writes no image.
- Writing the summary with `json.dump` (src/run_lab2.py:48-49), the `total_points` and `bbox` keys that come from `PointSet`, and every `print`: I/O, or not part of this model.
- src/demo.py: a driver script with no logic of its own.
- Python object identity: points are values here. Two points with equal fields are equal.
