/**
 * The OpenStreetMap element model of nestcollector/osm_elements.py: nodes, ways
 * and relations compared by id only, names derived from tags, the polygon a way
 * resolves from a lookup map, and the multipolygon a relation assembles from its
 * "way" members while filling each way's polygon cache.
 */
module OsmElements {

  datatype Option<+T> = None | Some(value: T)

  /** Latitude and longitude are floats in the source; the model only copies them. */
  type Coord = real

  /** Free-form OSM tags. */
  type Tags = map<string, string>

  /** A polygon, kept as the ordered ring of (lat, lon) pairs it is constructed from. */
  type Polygon = seq<(Coord, Coord)>

  /** A multipolygon, kept as the ordered sequence of its polygons. */
  type MultiPolygon = seq<Polygon>

  /** The Python exceptions raised while resolving references. */
  datatype Fault =
    | KeyError(key: int)        // `key` is not a key of the lookup map
    | AttributeError(key: int)  // the object stored under `key` has no `lat` (it is not a Node)

  datatype Result<+T> = Success(value: T) | Failure(error: Fault)

  /** A relation member as Overpass delivers it: `{'type': ..., 'ref': ..., 'role': ...}`. */
  datatype Member = Member(kind: string, ref: int, role: string)

  /**
   * Any of the three element objects, as the right operand of a Python `==`
   * or as a value found in a lookup map (Python does not check the map's
   * declared value type).
   */
  datatype Element = NodeElement(node: Node) | WayElement(way: Way) | RelationElement(relation: Relation)
  {
    function Id(): int {
      match this
      case NodeElement(n) => n.id
      case WayElement(w) => w.id
      case RelationElement(r) => r.id
    }

    /** `self == other`, answered by the left operand's `__eq__`. */
    function Equals(other: Element): bool {
      match this
      case NodeElement(n) => n.Equals(other)
      case WayElement(w) => w.Equals(other)
      case RelationElement(r) => r.Equals(other)
    }
  }

  /** The `name` attribute of ways and relations: the "name" tag, if there are tags and it is among them. */
  function DerivedName(tags: Option<Tags>): (name: Option<string>)
    ensures name.Some? <==> tags.Some? && "name" in tags.value
    ensures name.Some? ==> name.value == tags.value["name"]
  {
    if tags.Some? && "name" in tags.value then Some(tags.value["name"]) else None
  }

  /** An OSM node. Nothing ever changes a node after construction. */
  datatype Node = Node(id: int, lat: Coord, lon: Coord, tags: Option<Tags>)
  {
    /** `Node.__eq__`: only a node, and only by id. */
    function Equals(other: Element): bool {
      other.NodeElement? && other.node.id == id
    }
  }

  /** An OSM way: an ordered list of node ids, plus a polygon cache that others fill in. */
  class Way {
    const id: int
    const nodes: seq<int>
    const tags: Option<Tags>
    const name: Option<string>
    var polygon: Option<Polygon>

    constructor (id: int, nodes: seq<int>, tags: Option<Tags>)
      ensures this.id == id && this.nodes == nodes && this.tags == tags
      ensures name == DerivedName(tags)
      ensures polygon == None
    {
      this.id := id;
      this.nodes := nodes;
      this.tags := tags;
      this.name := DerivedName(tags);
      this.polygon := None;
    }

    /** `Way.__eq__`: only a way, and only by id; the polygon cache plays no part. */
    function Equals(other: Element): bool {
      other.WayElement? && other.way.id == id
    }

    /**
     * `build_polygon(nodes)`: one (lat, lon) pair per node id, in order and
     * with repetitions, or a KeyError for an id the map lacks. It neither reads
     * nor writes the polygon cache.
     */
    function BuildPolygon(lookup: map<int, Node>): (r: Result<Polygon>)
      ensures r.Success? <==> forall k :: 0 <= k < |nodes| ==> nodes[k] in lookup
      ensures r.Success? ==> |r.value| == |nodes|
      ensures r.Success? ==> forall k :: 0 <= k < |nodes| ==>
                r.value[k] == (lookup[nodes[k]].lat, lookup[nodes[k]].lon)
      ensures r.Failure? ==> r.error.KeyError? && r.error.key in nodes && r.error.key !in lookup
    {
      Resolve(nodes, NodeLookup(lookup))
    }

    /**
     * `build_polygon(ways)`, as `build_multipolygon` calls it: the ways map
     * stands in for the node map, so the first node id either is missing
     * (KeyError) or finds a Way, which has no `lat` (AttributeError). Only a
     * way without nodes gets a polygon, the empty one.
     */
    function BuildPolygonFromWays(ways: map<int, Way>): (r: Result<Polygon>)
      ensures r.Success? <==> nodes == []
      ensures r.Success? ==> r.value == []
      ensures r.Failure? ==> r.error.key == nodes[0] && (r.error.AttributeError? <==> nodes[0] in ways)
    {
      Resolve(nodes, WayLookup(ways))
    }
  }

  /** An OSM relation: typed member references, and a multipolygon slot that the collector fills in. */
  class Relation {
    const id: int
    const members: seq<Member>
    const tags: Option<Tags>
    const name: Option<string>
    var multipolygon: Option<MultiPolygon>

    constructor (id: int, members: seq<Member>, tags: Option<Tags>)
      ensures this.id == id && this.members == members && this.tags == tags
      ensures name == DerivedName(tags)
      ensures multipolygon == None
    {
      this.id := id;
      this.members := members;
      this.tags := tags;
      this.name := DerivedName(tags);
      this.multipolygon := None;
    }

    /** `Relation.__eq__`: only a relation, and only by id. */
    function Equals(other: Element): bool {
      other.RelationElement? && other.relation.id == id
    }

    /**
     * `build_multipolygon(ways)`: walks the members in order; for each "way"
     * member looks the way up, fills its polygon cache if it is empty (through
     * BuildPolygonFromWays) and collects the cached polygon. Result and the
     * ways' caches afterwards, also when an exception stops the walk, are
     * those of Walk.
     */
    method BuildMultipolygon(ways: map<int, Way>) returns (r: Result<MultiPolygon>)
      modifies ways.Values
      ensures r == Walk(members, ways, old(Snapshot(ways))).0
      ensures Snapshot(ways) == Walk(members, ways, old(Snapshot(ways))).1
    {
      ghost var start := Snapshot(ways);
      var polygons: seq<Polygon> := [];
      var i := 0;
      assert members[i..] == members;
      assert Walk(members, ways, start).0.Success? ==> [] + Walk(members, ways, start).0.value == Walk(members, ways, start).0.value;
      while i < |members|
        invariant 0 <= i <= |members|
        invariant Walk(members, ways, start) == Prepend(polygons, Walk(members[i..], ways, Snapshot(ways)))
      {
        var member := members[i];
        ghost var snap := Snapshot(ways);
        assert members[i..][0] == member && members[i..][1..] == members[i + 1..];
        if member.kind == "way" {
          if member.ref !in ways {
            return Failure(KeyError(member.ref));
          }
          var way := ways[member.ref];
          if way.polygon == None {
            var built := way.BuildPolygonFromWays(ways);
            if built.Failure? {
              return Failure(built.error);
            }
            way.polygon := Some(built.value);
            assert Snapshot(ways) == snap[way := Some(built.value)];
          } else {
            assert snap[way := way.polygon] == snap;
          }
          PrependTwice(polygons, [way.polygon.value], Walk(members[i + 1..], ways, Snapshot(ways)));
          polygons := polygons + [way.polygon.value];
        }
        i := i + 1;
      }
      assert members[i..] == [];
      assert polygons + [] == polygons;
      return Success(polygons);
    }
  }

  /** A node map seen as a lookup of arbitrary elements. */
  function NodeLookup(nodes: map<int, Node>): (m: map<int, Element>)
    ensures m.Keys == nodes.Keys
    ensures forall k :: k in m ==> m[k] == NodeElement(nodes[k])
  {
    map k | k in nodes :: NodeElement(nodes[k])
  }

  /** A way map seen as a lookup of arbitrary elements. */
  function WayLookup(ways: map<int, Way>): (m: map<int, Element>)
    ensures m.Keys == ways.Keys
    ensures forall k :: k in m ==> m[k] == WayElement(ways[k])
  {
    map k | k in ways :: WayElement(ways[k])
  }

  /**
   * The comprehension `[(lookup[ref].lat, lookup[ref].lon) for ref in refs]`,
   * evaluated left to right: the first ref that is missing raises KeyError,
   * the first that finds something other than a node raises AttributeError.
   */
  function Resolve(refs: seq<int>, lookup: map<int, Element>): (r: Result<Polygon>)
    ensures r.Success? <==> forall k :: 0 <= k < |refs| ==> refs[k] in lookup && lookup[refs[k]].NodeElement?
    ensures r.Success? ==> |r.value| == |refs| && forall k :: 0 <= k < |refs| ==>
              r.value[k] == (lookup[refs[k]].node.lat, lookup[refs[k]].node.lon)
    ensures r.Failure? ==> (r.error.KeyError? <==> r.error.key !in lookup)
    ensures r.Failure? ==> exists k :: FirstUnresolved(refs, lookup, k) && refs[k] == r.error.key
  {
    if refs == [] then Success([])
    else if refs[0] !in lookup then Failure(KeyError(refs[0]))
    else if !lookup[refs[0]].NodeElement? then Failure(AttributeError(refs[0]))
    else
      var head := lookup[refs[0]].node;
      match Resolve(refs[1..], lookup)
      case Failure(e) =>
        ghost var k :| FirstUnresolved(refs[1..], lookup, k) && refs[1..][k] == e.key;
        assert FirstUnresolved(refs, lookup, k + 1);
        Failure(e)
      case Success(rest) => Success([(head.lat, head.lon)] + rest)
  }

  /** `refs[k]` is the first ref that does not resolve to a node. */
  ghost predicate FirstUnresolved(refs: seq<int>, lookup: map<int, Element>, k: int)
  {
    && 0 <= k < |refs|
    && !(refs[k] in lookup && lookup[refs[k]].NodeElement?)
    && forall j :: 0 <= j < k ==> refs[j] in lookup && lookup[refs[j]].NodeElement?
  }

  /** What the `polygon` field of each way object holds. */
  type Cache = map<Way, Option<Polygon>>

  /** The current polygon cache of every way in a way map. */
  function Snapshot(ways: map<int, Way>): Cache
    reads ways.Values
  {
    map w | w in ways.Values :: w.polygon
  }

  /** The ids of the "way" members, in member order, repetitions kept. */
  function WayRefs(members: seq<Member>): (refs: seq<int>)
    ensures |refs| <= |members|
  {
    if members == [] then []
    else (if members[0].kind == "way" then [members[0].ref] else []) + WayRefs(members[1..])
  }

  /** `polygons` collected before the rest of a walk whose outcome is `rest`. */
  function Prepend(polygons: seq<Polygon>, rest: (Result<MultiPolygon>, Cache)): (Result<MultiPolygon>, Cache)
  {
    (if rest.0.Success? then Success(polygons + rest.0.value) else rest.0, rest.1)
  }

  /**
   * The polygon a "way" member contributes: the cached one, or else the one
   * `build_polygon(ways)` gives (which exists only for a way without nodes).
   */
  function Serve(way: Way, ways: map<int, Way>, cache: Cache): (r: Result<Polygon>)
    requires way in cache
    ensures r.Success? <==> cache[way].Some? || way.nodes == []
    ensures r.Success? ==> r.value == if cache[way].Some? then cache[way].value else []
  {
    if cache[way].Some? then Success(cache[way].value) else way.BuildPolygonFromWays(ways)
  }

  /**
   * The outcome of `build_multipolygon` over `members` from cache state
   * `cache`: its result, and the cache state it leaves behind, also when it
   * raises (caches filled before the exception stay filled).
   */
  function Walk(members: seq<Member>, ways: map<int, Way>, cache: Cache): (out: (Result<MultiPolygon>, Cache))
    requires ways.Values <= cache.Keys
    ensures out.1.Keys == cache.Keys
    decreases |members|
  {
    if members == [] then (Success([]), cache)
    else if members[0].kind != "way" then Walk(members[1..], ways, cache)
    else if members[0].ref !in ways then (Failure(KeyError(members[0].ref)), cache)
    else
      var way := ways[members[0].ref];
      var built := Serve(way, ways, cache);
      if built.Failure? then (Failure(built.error), cache)
      else Prepend([built.value], Walk(members[1..], ways, cache[way := Some(built.value)]))
  }

  /** A "way" member can be served: its way is in the map and is cached already or has no nodes. */
  ghost predicate Servable(ways: map<int, Way>, cache: Cache, ref: int)
    requires ways.Values <= cache.Keys
  {
    ref in ways && (cache[ways[ref]].Some? || ways[ref].nodes == [])
  }

  /** Some "way" reference among `refs` finds `w` in `ways`. */
  ghost predicate References(refs: seq<int>, ways: map<int, Way>, w: Way)
  {
    exists k :: 0 <= k < |refs| && refs[k] in ways && ways[refs[k]] == w
  }

  lemma PrependTwice(ps: seq<Polygon>, qs: seq<Polygon>, rest: (Result<MultiPolygon>, Cache))
    ensures Prepend(ps, Prepend(qs, rest)) == Prepend(ps + qs, rest)
  {
    if rest.0.Success? {
      assert ps + (qs + rest.0.value) == (ps + qs) + rest.0.value;
    }
  }

  // ---------------------------------------------------------------------------
  // Properties of equality

  /** Two elements are equal exactly when they are of the same class and have the same id. */
  lemma EqualsIsSameKindAndId(a: Element, b: Element)
    ensures a.Equals(b) <==>
              ((a.NodeElement? && b.NodeElement?) || (a.WayElement? && b.WayElement?)
               || (a.RelationElement? && b.RelationElement?)) && a.Id() == b.Id()
  {
  }

  /** Identity equality is an equivalence relation. */
  lemma EqualsIsEquivalence(a: Element, b: Element, c: Element)
    ensures a.Equals(a)
    ensures a.Equals(b) ==> b.Equals(a)
    ensures a.Equals(b) && b.Equals(c) ==> a.Equals(c)
  {
  }

  /** Coordinates and tags play no part in node equality. */
  lemma NodeEqualityIgnoresAttributes(n: Node, lat: Coord, lon: Coord, tags: Option<Tags>)
    ensures n.Equals(NodeElement(Node(n.id, lat, lon, tags)))
  {
  }

  // ---------------------------------------------------------------------------
  // Properties of the multipolygon walk

  /**
   * The walk succeeds exactly when every "way" member is servable in the
   * initial cache state: present in the map, and cached already or without
   * nodes (a way with nodes and no cache fails on the node lookup in the ways
   * map).
   */
  lemma {:induction false} WalkSucceedsIff(members: seq<Member>, ways: map<int, Way>, cache: Cache)
    requires ways.Values <= cache.Keys
    ensures Walk(members, ways, cache).0.Success? <==>
              forall k :: 0 <= k < |WayRefs(members)| ==> Servable(ways, cache, WayRefs(members)[k])
    decreases |members|
  {
    if members != [] {
      var refs, tailRefs := WayRefs(members), WayRefs(members[1..]);
      if members[0].kind != "way" {
        assert refs == tailRefs;
        assert Walk(members, ways, cache) == Walk(members[1..], ways, cache);
        WalkSucceedsIff(members[1..], ways, cache);
        assert Walk(members[1..], ways, cache).0.Success? <==>
               forall k :: 0 <= k < |WayRefs(members[1..])| ==> Servable(ways, cache, WayRefs(members[1..])[k]);
        assert Walk(members, ways, cache).0.Success? <==> forall k :: 0 <= k < |WayRefs(members)| ==> Servable(ways, cache, WayRefs(members)[k]);
      } else {
        assert refs == [members[0].ref] + tailRefs;
        if Servable(ways, cache, members[0].ref) {
          var way := ways[members[0].ref];
          var p := Serve(way, ways, cache).value;
          var cache' := cache[way := Some(p)];
          assert Walk(members, ways, cache) == Prepend([p], Walk(members[1..], ways, cache'));
          WalkSucceedsIff(members[1..], ways, cache');
          forall ref | ref in ways
            ensures Servable(ways, cache', ref) <==> Servable(ways, cache, ref)
          {
          }
          forall k | 0 <= k < |tailRefs|
            ensures tailRefs[k] == refs[k + 1]
          {
          }
        } else {
          assert !Servable(ways, cache, refs[0]);
        }
      }
    }
  }

  /**
   * The cache is write-once: a filled entry keeps its polygon, and an entry
   * changes only from empty to the empty polygon, for a way without nodes
   * that a "way" member references.
   */
  lemma {:induction false} WalkKeepsFilledCaches(members: seq<Member>, ways: map<int, Way>, cache: Cache)
    requires ways.Values <= cache.Keys
    ensures var final := Walk(members, ways, cache).1;
            forall w :: w in cache ==>
              (cache[w].Some? ==> final[w] == cache[w])
              && (final[w] != cache[w] ==> final[w] == Some([]) && w.nodes == [] && References(WayRefs(members), ways, w))
    decreases |members|
  {
    if members != [] {
      var refs, tailRefs := WayRefs(members), WayRefs(members[1..]);
      if members[0].kind != "way" {
        assert refs == tailRefs;
        assert Walk(members, ways, cache) == Walk(members[1..], ways, cache);
        WalkKeepsFilledCaches(members[1..], ways, cache);
      } else if members[0].ref in ways {
        var way := ways[members[0].ref];
        var built := Serve(way, ways, cache);
        if built.Success? {
          var cache' := cache[way := Some(built.value)];
          assert Walk(members, ways, cache).1 == Walk(members[1..], ways, cache').1;
          WalkKeepsFilledCaches(members[1..], ways, cache');
          assert refs == [members[0].ref] + tailRefs;
          var final := Walk(members, ways, cache).1;
          forall w | w in cache && final[w] != cache[w]
            ensures References(refs, ways, w)
          {
            if w != way {
              var k :| 0 <= k < |tailRefs| && tailRefs[k] in ways && ways[tailRefs[k]] == w;
              assert refs[k + 1] == tailRefs[k];
            } else {
              assert refs[0] in ways && ways[refs[0]] == w;
            }
          }
        }
      }
    }
  }

  /**
   * A successful walk yields one polygon per "way" member, in member order,
   * and each is what that way's cache holds afterwards.
   */
  lemma {:induction false} WalkYieldsCachedPolygons(members: seq<Member>, ways: map<int, Way>, cache: Cache)
    requires ways.Values <= cache.Keys
    requires Walk(members, ways, cache).0.Success?
    ensures var (r, final) := Walk(members, ways, cache);
            var refs := WayRefs(members);
            |r.value| == |refs|
            && forall k :: 0 <= k < |refs| ==> refs[k] in ways && final[ways[refs[k]]] == Some(r.value[k])
    decreases |members|
  {
    if members != [] {
      var refs, tailRefs := WayRefs(members), WayRefs(members[1..]);
      if members[0].kind != "way" {
        assert refs == tailRefs;
        assert Walk(members, ways, cache) == Walk(members[1..], ways, cache);
        WalkYieldsCachedPolygons(members[1..], ways, cache);
      } else {
        var way := ways[members[0].ref];
        var p := Serve(way, ways, cache).value;
        var cache' := cache[way := Some(p)];
        var (r', final) := Walk(members[1..], ways, cache');
        assert Walk(members, ways, cache) == Prepend([p], (r', final));
        WalkYieldsCachedPolygons(members[1..], ways, cache');
        WalkKeepsFilledCaches(members[1..], ways, cache');
        assert refs == [members[0].ref] + tailRefs;
        var r := Success([p] + r'.value);
        forall k | 0 <= k < |refs|
          ensures refs[k] in ways && final[ways[refs[k]]] == Some(r.value[k])
        {
          if k > 0 {
            assert refs[k] == tailRefs[k - 1];
            assert r.value[k] == r'.value[k - 1];
          }
        }
      }
    }
  }

  /** A relation without "way" members yields the empty multipolygon and leaves every cache alone. */
  lemma {:induction false} WalkWithoutWayMembers(members: seq<Member>, ways: map<int, Way>, cache: Cache)
    requires ways.Values <= cache.Keys
    requires forall k :: 0 <= k < |members| ==> members[k].kind != "way"
    ensures Walk(members, ways, cache) == (Success([]), cache)
    decreases |members|
  {
    if members != [] {
      WalkWithoutWayMembers(members[1..], ways, cache);
    }
  }

  /**
   * With every way of the map cached already, the walk computes no polygon:
   * the caches stay as they are, it fails exactly on a "way" member missing
   * from the map (with a KeyError), and otherwise returns the cached polygons
   * in member order.
   */
  lemma WalkOverFilledCache(members: seq<Member>, ways: map<int, Way>, cache: Cache)
    requires ways.Values <= cache.Keys
    requires forall w :: w in ways.Values ==> cache[w].Some?
    ensures var (r, final) := Walk(members, ways, cache);
            var refs := WayRefs(members);
            final == cache
            && (r.Success? <==> forall k :: 0 <= k < |refs| ==> refs[k] in ways)
            && (r.Success? ==> |r.value| == |refs| && forall k :: 0 <= k < |refs| ==> r.value[k] == cache[ways[refs[k]]].value)
            && (r.Failure? ==> r.error.KeyError? && r.error.key in refs && r.error.key !in ways)
  {
    var (r, final) := Walk(members, ways, cache);
    var refs := WayRefs(members);
    WalkFailsOnMissingWay(members, ways, cache);
    WalkKeepsFilledCaches(members, ways, cache);
    forall w | w in cache
      ensures final[w] == cache[w]
    {
    }
    WalkSucceedsIff(members, ways, cache);
    forall k | 0 <= k < |refs| && refs[k] in ways
      ensures Servable(ways, cache, refs[k])
    {
      assert ways[refs[k]] in ways.Values;
    }
    if r.Success? {
      WalkYieldsCachedPolygons(members, ways, cache);
    }
  }

  /**
   * With every way of the map cached already, the only exception the walk
   * can raise is the KeyError of a "way" member missing from the map.
   */
  lemma {:induction false} WalkFailsOnMissingWay(members: seq<Member>, ways: map<int, Way>, cache: Cache)
    requires ways.Values <= cache.Keys
    requires forall w :: w in ways.Values ==> cache[w].Some?
    ensures var r := Walk(members, ways, cache).0;
            r.Failure? ==> r.error.KeyError? && r.error.key in WayRefs(members) && r.error.key !in ways
    decreases |members|
  {
    if members != [] {
      var refs, tailRefs := WayRefs(members), WayRefs(members[1..]);
      if members[0].kind != "way" {
        assert refs == tailRefs;
        WalkFailsOnMissingWay(members[1..], ways, cache);
      } else {
        assert refs == [members[0].ref] + tailRefs;
        if members[0].ref in ways {
          var way := ways[members[0].ref];
          assert way in ways.Values;
          assert cache[way := Some(cache[way].value)] == cache;
          WalkFailsOnMissingWay(members[1..], ways, cache);
        }
      }
    }
  }

  /**
   * Building a multipolygon a second time, from the cache state the first
   * build left, gives the same multipolygon and computes nothing new.
   */
  lemma WalkIsIdempotent(members: seq<Member>, ways: map<int, Way>, cache: Cache)
    requires ways.Values <= cache.Keys
    requires Walk(members, ways, cache).0.Success?
    ensures var (r, final) := Walk(members, ways, cache);
            Walk(members, ways, final) == (r, final)
  {
    var (r, final) := Walk(members, ways, cache);
    var refs := WayRefs(members);
    WalkYieldsCachedPolygons(members, ways, cache);
    WalkSucceedsIff(members, ways, final);
    forall k | 0 <= k < |refs|
      ensures Servable(ways, final, refs[k])
    {
    }
    WalkKeepsFilledCaches(members, ways, final);
    WalkYieldsCachedPolygons(members, ways, final);
    var (r2, final2) := Walk(members, ways, final);
    forall w | w in final
      ensures final2[w] == final[w]
    {
    }
    assert final2 == final;
    assert r2.value == r.value;
  }
}
