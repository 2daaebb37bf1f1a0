# nestcollector core, modelled in Dafny

This project models the core of nestcollector, which turns Overpass API
responses into park polygons ("nests"). Three modules follow the three core
Python files.

- **OsmElements** (`osm_elements.py`): the OpenStreetMap elements.
  - `Node` is a value.
  - `Way` and `Relation` are classes. Their `polygon` and `multipolygon`
    caches are mutable fields; everything else is constant.
  - All three compare by id only. Ways and relations derive their `name` from
    their tags.
  - `Way.build_polygon` resolves node ids through a lookup map.
  - `Relation.build_multipolygon` is a method that fills the caches of the
    ways it visits. It is specified by the function `Walk`: the result, and
    the state of every way cache afterwards, also when a lookup raises.
- **Nests** (`nest.py`): the `Nest` collector.
  - The collection loop keeps the first element of each id, per type, in
    input order.
  - It indexes the nodes and ways by id.
  - `_build_polygons` fills every way polygon, then every relation
    multipolygon.
- **Timing** (`timing.py`): `INTERVALS` and `human_time` on integer
  durations.
  - The loop over the intervals is a method.
  - It is proved equal to the specification function `Readable`. `Readable` is
    built on the greedy split `Split`, whose properties are lemmas.

Python exceptions are values here. A `Result` carries a `Fault`: `KeyError`
or `AttributeError`, with the offending key.

At `osm_elements.py:170`, `build_multipolygon` calls `build_polygon` with the
ways map where a node map is expected. The model keeps this call as written,
as `Way.BuildPolygonFromWays`: it fails for any way with nodes, and succeeds
with the empty polygon for a way without nodes. `WalkOverFilledCache` and
`Nest.AssembleRelations` show the call is never reached inside `Nest`:
`_build_polygons` fills every way's cache before the relation step.

## Model

| member | source | states |
|---|---|---|
| `OsmElements.DerivedName` | nestcollector/osm_elements.py:87 | the name is present exactly when there are tags with a "name" key, and then it is that tag's value |
| `OsmElements.Way.constructor` | nestcollector/osm_elements.py:73-88 | a new way keeps id, node ids and tags, derives its name from the tags and has no polygon |
| `OsmElements.Relation.constructor` | nestcollector/osm_elements.py:138-153 | a new relation keeps id, members and tags, derives its name from the tags and has no multipolygon |
| `OsmElements.EqualsIsSameKindAndId` | nestcollector/osm_elements.py:103-113 | two elements are equal exactly when they are of the same class and have the same id (`__eq__` of all three classes) |
| `OsmElements.EqualsIsEquivalence` | nestcollector/osm_elements.py:175-182 | equality by id is reflexive, symmetric and transitive |
| `OsmElements.NodeEqualityIgnoresAttributes` | nestcollector/osm_elements.py:38-48 | coordinates and tags play no part in node equality |
| `OsmElements.Node.Equals` | nestcollector/osm_elements.py:48 | `Node.__eq__`: true only for a node with the same id (no contract of its own; `EqualsIsSameKindAndId` states it) |
| `OsmElements.Way.Equals` | nestcollector/osm_elements.py:113 | `Way.__eq__`: true only for a way with the same id (no contract of its own; `EqualsIsSameKindAndId` states it) |
| `OsmElements.Relation.Equals` | nestcollector/osm_elements.py:182 | `Relation.__eq__`: true only for a relation with the same id (no contract of its own; `EqualsIsSameKindAndId` states it) |
| `OsmElements.Resolve` | nestcollector/osm_elements.py:100 | the coordinate list succeeds exactly when every ref finds a node; it then has one (lat, lon) pair per ref, in order; otherwise the first bad ref is reported, as KeyError when missing and AttributeError when not a node |
| `OsmElements.Way.BuildPolygon` | nestcollector/osm_elements.py:90-101 | succeeds exactly when every node id is in the map; then one (lat, lon) pair per node id, in order; a failure is a KeyError for a node id the map lacks |
| `OsmElements.Way.BuildPolygonFromWays` | nestcollector/osm_elements.py:170 | with the ways map as node lookup, only a way without nodes gets a polygon (the empty one); otherwise KeyError or AttributeError on the first node id |
| `OsmElements.Relation.BuildMultipolygon` | nestcollector/osm_elements.py:155-173 | the result and the ways' caches afterwards are those of `Walk` from the caches before the call |
| `OsmElements.Walk` | nestcollector/osm_elements.py:165-173 | the outcome of the member loop from a cache state: the result and the cache state left behind, also on an exception; the cache state covers the same ways (the lemmas below state what the walk does) |
| `OsmElements.Serve` | nestcollector/osm_elements.py:169-171 | a "way" member's polygon is served exactly when its way is cached or has no nodes, and is the cached polygon, or else the empty one |
| `OsmElements.WayRefs` | nestcollector/osm_elements.py:166-167 | the refs of the members whose type is "way", in member order; no more of them than members |
| `OsmElements.WalkSucceedsIff` | nestcollector/osm_elements.py:166-171 | the build succeeds exactly when every "way" member is in the map and its way is cached already or has no nodes |
| `OsmElements.WalkKeepsFilledCaches` | nestcollector/osm_elements.py:169-170 | caches are write-once: a filled cache keeps its polygon, and an empty one changes only for a referenced way without nodes |
| `OsmElements.WalkYieldsCachedPolygons` | nestcollector/osm_elements.py:166-172 | a successful build has one polygon per "way" member, in member order, each equal to that way's cache afterwards |
| `OsmElements.WalkWithoutWayMembers` | nestcollector/osm_elements.py:165-173 | a relation with no "way" members gives the empty multipolygon and changes no cache |
| `OsmElements.WalkOverFilledCache` | nestcollector/osm_elements.py:166-172 | with every way cached, the build changes no cache, fails exactly on a "way" member missing from the map, and then with that member's KeyError; otherwise it returns the cached polygons in member order |
| `OsmElements.WalkFailsOnMissingWay` | nestcollector/osm_elements.py:166-171 | with every way cached, the only exception is the KeyError of a "way" member id missing from the map |
| `OsmElements.WalkIsIdempotent` | nestcollector/osm_elements.py:169-171 | building again from the caches the first build left gives the same multipolygon and changes nothing |
| `Nests.DedupCovers` | nestcollector/nest.py:48-61 | the kept ids of a type are exactly the ids of that type in the input, and every kept element comes from the input with that type |
| `Nests.DedupUnique` | nestcollector/nest.py:52-61 | no two kept elements share an id |
| `Nests.DedupKeepsFirstOccurrences` | nestcollector/nest.py:48-61 | the kept elements are the first occurrences of each id, in the order of those occurrences |
| `Nests.LastIsFirst` | nestcollector/nest.py:52 | an element is the first with its id exactly when no earlier element of its type has that id, which is the `not in` test |
| `Nests.Flatten` | nestcollector/nest.py:48-49 | the elements of all areas, area by area, in order, as the two nested loops visit them (no contract of its own) |
| `Nests.Dedup` | nestcollector/nest.py:48-61 | the elements of one type the loop keeps, in append order: each element of the type whose id is not kept yet; never more of them than input elements, all of that type (the lemmas below state what the deduplication achieves) |
| `Nests.Nest.GetOsmElements` | nestcollector/nest.py:38-64 | the three lists are built from the deduplicated nodes, ways and relations of all areas in order; the ways and relations are new objects with empty caches |
| `Nests.Nest.Admit` | nestcollector/nest.py:50-61 | after one more element the three lists are still built from the first occurrences of each id among the elements seen so far; a way or relation added is new and uncached |
| `Nests.Nest.AdmitNode` | nestcollector/nest.py:50-53 | after one more node element, the node list is still built from the first occurrence of each node id, in order |
| `Nests.Nest.AdmitRelation` | nestcollector/nest.py:54-57 | after one more relation element, the relation list is still built from the first occurrence of each relation id, in order; a relation added is new and has no multipolygon |
| `Nests.Nest.AdmitWay` | nestcollector/nest.py:58-61 | after one more way element, the way list is still built from the first occurrence of each way id, in order; a way added is new and has no polygon |
| `Nests.Nest.NodeListed` | nestcollector/nest.py:52 | an equal node is listed exactly when its id has been kept |
| `Nests.Nest.RelationListed` | nestcollector/nest.py:56 | an equal relation is listed exactly when its id has been kept |
| `Nests.Nest.WayListed` | nestcollector/nest.py:60 | an equal way is listed exactly when its id has been kept |
| `Nests.Index` | nestcollector/nest.py:25-26 | the dict comprehension's keys are exactly the elements' ids, and each key maps to a listed element with that id |
| `Nests.IndexFindsEach` | nestcollector/nest.py:25-26 | with unique ids, the dict maps every element's id to that element |
| `Nests.IndexFinds` | nestcollector/nest.py:25-26 | with unique ids, the dict maps the id of the element at any position to that element |
| `Nests.Nest.CollectedIndexes` | nestcollector/nest.py:24-26 | collected lists have unique ids, and the two dicts find every node and way by its id |
| `Nests.Nest.Collect` | nestcollector/nest.py:16-26 | the collector holds the collected lists, with the node and way dicts indexing them |
| `Nests.Nest.BuildWayPolygons` | nestcollector/nest.py:33-34 | completes exactly when every way's node ids resolve, and then every way's polygon is the one built from the node dict; otherwise it fails with the KeyError of a listed way's node id the node dict lacks |
| `Nests.Nest.AssembleRelations` | nestcollector/nest.py:35-36 | keeps the way polygons; completes exactly when every "way" member resolves, and then every relation's multipolygon is its members' way polygons in order; otherwise it fails with the KeyError of a listed relation's "way" member the ways dict lacks |
| `Nests.Nest.AssembleRelation` | nestcollector/nest.py:36 | with every way cached, one relation's build changes no way cache; on success the relation's multipolygon is the walk's result; on failure the multipolygon is left as it was and the fault is the KeyError of a "way" member missing from the ways dict |
| `Nests.Nest.AssembledFromCache` | nestcollector/nest.py:35-36 | a multipolygon built over the filled caches is the cached polygons of the relation's "way" members |
| `Nests.Nest.UnresolvedFromCache` | nestcollector/nest.py:36 | a build over the filled caches fails only when some "way" member is missing from the ways dict |
| `Nests.Nest.BuildPolygons` | nestcollector/nest.py:29-36 | completes exactly when all lookups resolve; then every way has its polygon and every relation its multipolygon; otherwise it fails with the KeyError of a missing node id of a listed way or a missing "way" member of a listed relation |
| `Nests.Nest.Create` | nestcollector/nest.py:16-27 | the collector is built exactly when every way node id and every "way" member names a collected element; it then holds the collected lists, the dicts and all polygons; otherwise the fault is the KeyError of a node id or "way" member that no collected element has |
| `Nests.Nest.MissingRefsKept` | nestcollector/nest.py:25-26 | a key the dicts lack is one that no element of its type in the input has, and the kept element that references it comes from the input |
| `Nests.Nest.ResolvesIffComplete` | nestcollector/nest.py:16-27 | for collected lists, all lookups of `_build_polygons` succeed exactly when the input is complete |
| `Nests.Nest.WaysResolveIff` | nestcollector/nest.py:33-34 | the way polygons all build exactly when every node id of every kept way is a node id |
| `Nests.Nest.MembersResolveIff` | nestcollector/nest.py:35-36 | the relation lookups all succeed exactly when every "way" member of every kept relation is a way id |
| `Nests.Nest.NodeIdsKept` | nestcollector/nest.py:25 | the node list's ids, which become the node dict's keys, are the kept node ids |
| `Nests.Nest.WayIdsKept` | nestcollector/nest.py:26 | the way list's ids, which become the way dict's keys, are the kept way ids |
| `Timing.IntervalsAreUnitLengths` | nestcollector/timing.py:9-19 | the nine intervals get strictly shorter, down to exactly one second, and a minute is 60 seconds |
| `Timing.Split` | nestcollector/timing.py:65-80 | the loop collects at least one part, and every part names an interval |
| `Timing.HumanTime` | nestcollector/timing.py:22-85 | the text is `Readable(seconds)`: the early returns for negative, zero and 2 to 59 seconds, else the first two labels of the split joined with " and " |
| `Timing.Readable` | nestcollector/timing.py:53-85 | the text `human_time` returns for an integer: the early returns for negative, zero and 2 to 59 seconds, else the first one or two labels of the split joined with " and " (no contract of its own; `HumanTime`, `ShortDurations`, `LongDurations` and the examples state it) |
| `Timing.UnitName` | nestcollector/timing.py:70-77 | the unit's name after its count, plural when the count exceeds one (no contract of its own; `PluralNames` states it) |
| `Timing.Label` | nestcollector/timing.py:78 | one label: the count, a space and the unit name (no contract of its own; `ExampleLabels` states instances) |
| `Timing.Labels` | nestcollector/timing.py:65-80 | one label per part, in order |
| `Timing.CollectLabels` | nestcollector/timing.py:65-80 | the labels the loop collects are those of the greedy split, in order |
| `Timing.LoopStep` | nestcollector/timing.py:66-80 | each turn of the loop keeps the collected parts a prefix of the split, and stops exactly at a zero remainder |
| `Timing.SplitByDivMod` | nestcollector/timing.py:67-80 | one unit of the split is `divmod`: the quotient is kept when at least one, and the rest goes on unless zero |
| `Timing.QuotRemAreDivMod` | nestcollector/timing.py:67 | counting whole units by subtraction agrees with `divmod` on non-negative integers |
| `Timing.IntString` | nestcollector/timing.py:55 | `str` of an integer starts with a minus sign exactly when it is negative |
| `Timing.NatString` | nestcollector/timing.py:78 | the decimal digits of a number, without a leading zero |
| `Timing.NatStringParses` | nestcollector/timing.py:78 | reading the printed digits back gives the number |
| `Timing.PluralNames` | nestcollector/timing.py:70-77 | only "millennium" and "century" have irregular plurals; every other unit adds "s"; a single unit keeps its name |
| `Timing.SplitTotal` | nestcollector/timing.py:65-80 | the parts add up to the duration |
| `Timing.SplitUnitsDescend` | nestcollector/timing.py:65-80 | every part counts at least one unit, and the units strictly decrease |
| `Timing.SplitStartsGreedy` | nestcollector/timing.py:65-80 | the first part's unit is the longest one that fits in the duration |
| `Timing.SplitRemaindersShort` | nestcollector/timing.py:65-80 | what the later parts add up to is less than one unit of the part before them |
| `Timing.ShortSplit` | nestcollector/timing.py:65-80 | a duration shorter than every unit but the last is a single part of that many seconds |
| `Timing.ShortDurations` | nestcollector/timing.py:62-63 | below a minute the text is the number with "seconds", and "second" only for one; the early return agrees with the loop |
| `Timing.LongDurations` | nestcollector/timing.py:65-85 | from a minute on, the first label is the largest fitting unit counted by `divmod`, and a second label follows exactly when it leaves a remainder |
| `Timing.SplitSkips` | nestcollector/timing.py:66-69 | the loop passes over every unit longer than the seconds left |
| `Timing.SplitHourAndMinutes` | nestcollector/timing.py:31-32 | 3720 seconds split into 1 hour and 2 minutes |
| `Timing.SplitDaysAndHours` | nestcollector/timing.py:33-34 | 266400 seconds split into 3 days and 2 hours |
| `Timing.ExampleLabels` | nestcollector/timing.py:78 | the labels of the documented examples: "1 hour", "2 hours", "2 minutes", "3 days" |
| `Timing.FifteenSeconds` | nestcollector/timing.py:27-28 | `human_time(15)` is "15 seconds" |
| `Timing.OneHour` | nestcollector/timing.py:29-30 | `human_time(3600)` is "1 hour" |
| `Timing.HourAndMinutes` | nestcollector/timing.py:31-32 | `human_time(3720)` is "1 hour and 2 minutes" |
| `Timing.DaysAndHours` | nestcollector/timing.py:33-34 | `human_time(266400)` is "3 days and 2 hours" |
| `Timing.ZeroAndOneSecond` | nestcollector/timing.py:37-42 | `human_time(0)` is "0 seconds" and `human_time(1)` is "1 second" |

## Left out

- `Nest.get_nests` (nest.py:66-81) builds database model rows. It is part of the database layer, which is not part of this model. So are the Overpass client, the database modules and `run.py`.
- OsmElements.Way.BuildPolygon: Shapely builds a `Polygon` from the coordinates. The model keeps only the coordinate list. Shapely's own checks, such as rejecting a ring of one or two points with ValueError, and polygon validity are not modelled.
- OsmElements.Relation.BuildMultipolygon: the `MultiPolygon` is kept as the list of its polygons. Shapely's checks on it are not modelled.
- Latitudes and longitudes are floats in the source. The model copies them as reals and never computes with them.
- `human_time` is modelled for integer input only. These float behaviours are left out: `round(seconds, decimals)` for negative input and for 1 to 60 seconds, the millisecond branch for 0 < seconds < 1, and float `divmod`. The `decimals` parameter matters only for floats. For an integer the millisecond branch cannot be reached.
- The stored `type` attribute is not modelled. Each class always stores the same value, and no core code reads it.
- The `__str__` methods are not modelled. They only format text for logging.
- `_get_osm_elements` logs and reads the clock. Both are left out; they do not affect the result.
- `Node(**element)` and its siblings are modelled on well-formed Overpass elements, in which every element carries the fields its type needs. Python's TypeError for missing or unexpected keys is not modelled.
- Raised exceptions are `Failure` results in the model. `Nest.Create` returns a failure where `Nest.__init__` raises. A relation whose build raises keeps its previous multipolygon, as it does in Python.
- Python `==` between a core element and an object of any other class is not modelled. Equality is modelled between nodes, ways and relations only.
