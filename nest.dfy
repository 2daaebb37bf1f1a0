/**
 * The element collection of nestcollector/nest.py: the nodes, ways and
 * relations of several Overpass responses, deduplicated by id (the first
 * occurrence wins), indexed by id, and given their polygons and
 * multipolygons.
 */
module Nests {
  import opened OsmElements

  /**
   * One raw element of an Overpass response. `kind` is the element's "type";
   * the fields a kind does not carry are ignored for it.
   */
  datatype RawElement = RawElement(
    kind: string, id: int, lat: Coord, lon: Coord,
    nodes: seq<int>, members: seq<Member>, tags: Option<Tags>)

  /** One Overpass response: `{'elements': [...]}`. */
  datatype Area = Area(elements: seq<RawElement>)

  /** All elements of all areas, area by area, in order. */
  function Flatten(areas: seq<Area>): seq<RawElement>
  {
    if areas == [] then [] else Flatten(areas[..|areas| - 1]) + areas[|areas| - 1].elements
  }

  /** The ids of the elements. */
  function Ids(es: seq<RawElement>): set<int>
  {
    set e | e in es :: e.id
  }

  /** The ids of the elements of one kind. */
  function KindIds(es: seq<RawElement>, kind: string): set<int>
  {
    set e | e in es && e.kind == kind :: e.id
  }

  /**
   * The elements of `kind` that the collection loop keeps, in the order it
   * appends them: each one whose id is not among those kept before it.
   */
  function Dedup(es: seq<RawElement>, kind: string): (kept: seq<RawElement>)
    ensures |kept| <= |es|
    ensures forall k :: 0 <= k < |kept| ==> kept[k].kind == kind
  {
    if es == [] then []
    else
      var kept := Dedup(es[..|es| - 1], kind);
      var e := es[|es| - 1];
      if e.kind == kind && e.id !in Ids(kept) then kept + [e] else kept
  }

  /** Index `j` holds the first element of `kind` with its id. */
  ghost predicate IsFirst(es: seq<RawElement>, kind: string, j: int)
  {
    && 0 <= j < |es|
    && es[j].kind == kind
    && forall i :: 0 <= i < j ==> !(es[i].kind == kind && es[i].id == es[j].id)
  }

  /** The indexes of the first occurrences of each id of `kind`, in increasing order. */
  ghost function Firsts(es: seq<RawElement>, kind: string): (fs: seq<int>)
    ensures forall i :: 0 <= i < |fs| ==> IsFirst(es, kind, fs[i])
    ensures forall i, j :: 0 <= i < j < |fs| ==> fs[i] < fs[j]
    ensures forall j :: j in fs <==> IsFirst(es, kind, j)
  {
    if es == [] then []
    else
      var n := |es| - 1;
      var prefix := es[..n];
      var fs := Firsts(prefix, kind);
      assert forall j :: 0 <= j < n ==> (IsFirst(prefix, kind, j) <==> IsFirst(es, kind, j));
      fs + if IsFirst(es, kind, n) then [n] else []
  }

  /** Dedup on a sequence extended by one element. */
  lemma DedupSnoc(es: seq<RawElement>, e: RawElement, kind: string)
    ensures Dedup(es + [e], kind) ==
              if e.kind == kind && e.id !in Ids(Dedup(es, kind)) then Dedup(es, kind) + [e] else Dedup(es, kind)
  {
    assert (es + [e])[..|es|] == es;
  }

  /**
   * Every element of `kind` has its id among the kept elements, and the kept
   * elements are elements of `kind` taken from the input.
   */
  lemma {:induction false} DedupCovers(es: seq<RawElement>, kind: string)
    ensures Ids(Dedup(es, kind)) == KindIds(es, kind)
    ensures forall e :: e in Dedup(es, kind) ==> e in es && e.kind == kind
  {
    if es != [] {
      var n := |es| - 1;
      DedupCovers(es[..n], kind);
      assert es == es[..n] + [es[n]];
      var kept := Dedup(es[..n], kind);
      if es[n].kind == kind && es[n].id !in Ids(kept) {
        assert Ids(kept + [es[n]]) == Ids(kept) + {es[n].id};
      }
      assert KindIds(es, kind) == KindIds(es[..n], kind) + (if es[n].kind == kind then {es[n].id} else {});
    }
  }

  /** No two elements share an id. */
  ghost predicate DistinctIds(es: seq<RawElement>)
  {
    forall i, j :: 0 <= i < j < |es| ==> es[i].id != es[j].id
  }

  /** No two kept elements share an id. */
  lemma {:induction false} DedupUnique(es: seq<RawElement>, kind: string)
    ensures DistinctIds(Dedup(es, kind))
  {
    if es != [] {
      var n := |es| - 1;
      DedupUnique(es[..n], kind);
      var kept := Dedup(es[..n], kind);
      assert DistinctIds(kept);
      if es[n].kind == kind && es[n].id !in Ids(kept) {
        var kept' := kept + [es[n]];
        assert Dedup(es, kind) == kept';
        forall i, j | 0 <= i < j < |kept'|
          ensures kept'[i].id != kept'[j].id
        {
          assert kept'[i] == kept[i] && kept[i] in kept;
          if j < |kept| {
            assert kept'[j] == kept[j];
          } else {
            assert kept'[j] == es[n];
          }
        }
      } else {
        assert Dedup(es, kind) == kept;
      }
    }
  }

  /**
   * The kept elements are exactly the first occurrences of each id of `kind`,
   * in the order of those occurrences: the i-th kept element is the element
   * at the i-th first-occurrence index.
   */
  lemma {:induction false} DedupKeepsFirstOccurrences(es: seq<RawElement>, kind: string)
    ensures var kept, fs := Dedup(es, kind), Firsts(es, kind);
            |kept| == |fs| && forall i :: 0 <= i < |fs| ==> kept[i] == es[fs[i]]
  {
    if es != [] {
      var n := |es| - 1;
      var prefix := es[..n];
      DedupKeepsFirstOccurrences(prefix, kind);
      DedupCovers(prefix, kind);
      var kept, fs := Dedup(prefix, kind), Firsts(prefix, kind);
      assert Firsts(es, kind) == fs + if IsFirst(es, kind, n) then [n] else [];
      LastIsFirst(es, kind);
      forall i | 0 <= i < |fs|
        ensures es[fs[i]] == prefix[fs[i]]
      {
        assert IsFirst(prefix, kind, fs[i]);
      }
    }
  }

  /** The last element is a first occurrence exactly when no earlier element of `kind` has its id. */
  lemma LastIsFirst(es: seq<RawElement>, kind: string)
    requires es != []
    ensures var n := |es| - 1;
            IsFirst(es, kind, n) <==> es[n].kind == kind && es[n].id !in KindIds(es[..n], kind)
  {
    var n := |es| - 1;
    var prefix := es[..n];
    if es[n].kind == kind && es[n].id in KindIds(prefix, kind) {
      var e :| e in prefix && e.kind == kind && e.id == es[n].id;
      var i :| 0 <= i < n && prefix[i] == e;
      assert !IsFirst(es, kind, n);
    }
  }

  /** Nodes built, in order, from the raw node elements `es`. */
  ghost predicate NodesFrom(nodes: seq<Node>, es: seq<RawElement>)
  {
    && |nodes| == |es|
    && forall i :: 0 <= i < |es| ==> nodes[i] == Node(es[i].id, es[i].lat, es[i].lon, es[i].tags)
  }

  /** Ways constructed, in order, from the raw way elements `es`. */
  ghost predicate WaysFrom(ways: seq<Way>, es: seq<RawElement>)
  {
    && |ways| == |es|
    && forall i :: 0 <= i < |es| ==>
         ways[i].id == es[i].id && ways[i].nodes == es[i].nodes && ways[i].tags == es[i].tags
         && ways[i].name == DerivedName(es[i].tags)
  }

  /** Relations constructed, in order, from the raw relation elements `es`. */
  ghost predicate RelationsFrom(relations: seq<Relation>, es: seq<RawElement>)
  {
    && |relations| == |es|
    && forall i :: 0 <= i < |es| ==>
         relations[i].id == es[i].id && relations[i].members == es[i].members && relations[i].tags == es[i].tags
         && relations[i].name == DerivedName(es[i].tags)
  }

  /** The three lists hold the first occurrence of every node, way and relation id of `es`. */
  ghost predicate Collected(nodes: seq<Node>, ways: seq<Way>, relations: seq<Relation>, es: seq<RawElement>)
  {
    && NodesFrom(nodes, Dedup(es, "node"))
    && WaysFrom(ways, Dedup(es, "way"))
    && RelationsFrom(relations, Dedup(es, "relation"))
  }

  /**
   * The input is complete: every node id of a kept way is the id of some
   * node, and every "way" member of a kept relation names some way.
   */
  ghost predicate Complete(es: seq<RawElement>)
  {
    && (forall e, ref :: e in Dedup(es, "way") && ref in e.nodes ==> ref in KindIds(es, "node"))
    && (forall e, ref :: e in Dedup(es, "relation") && ref in WayRefs(e.members) ==> ref in KindIds(es, "way"))
  }

  /** `key` is a node id of a kept way, but no node has it. */
  ghost predicate MissingNode(es: seq<RawElement>, key: int)
  {
    key !in KindIds(es, "node") && exists e :: e in Dedup(es, "way") && key in e.nodes
  }

  /** `key` is a "way" member of a kept relation, but no way has it. */
  ghost predicate MissingWay(es: seq<RawElement>, key: int)
  {
    key !in KindIds(es, "way") && exists e :: e in Dedup(es, "relation") && key in WayRefs(e.members)
  }

  /** No two elements share an id. */
  ghost predicate UniqueIds<T>(xs: seq<T>, id: T -> int)
  {
    forall i, j :: 0 <= i < j < |xs| ==> id(xs[i]) != id(xs[j])
  }

  /** `{x.id: x for x in xs}`: a later element overwrites an earlier one with the same id. */
  function Index<T(==)>(xs: seq<T>, id: T -> int): (m: map<int, T>)
    ensures m.Keys == set x | x in xs :: id(x)
    ensures forall k :: k in m ==> m[k] in xs && id(m[k]) == k
    decreases |xs|
  {
    if xs == [] then map[]
    else Index(xs[..|xs| - 1], id)[id(xs[|xs| - 1]) := xs[|xs| - 1]]
  }

  /** With no two elements sharing an id, the index maps each element's id to that element. */
  lemma IndexFindsEach<T>(xs: seq<T>, id: T -> int)
    requires UniqueIds(xs, id)
    ensures forall i :: 0 <= i < |xs| ==> Index(xs, id)[id(xs[i])] == xs[i]
  {
    forall i | 0 <= i < |xs|
      ensures Index(xs, id)[id(xs[i])] == xs[i]
    {
      IndexFinds(xs, id, i);
    }
  }

  /** The element at `i` is the last one the index saw with its id. */
  lemma {:induction false} IndexFinds<T>(xs: seq<T>, id: T -> int, i: nat)
    requires UniqueIds(xs, id) && i < |xs|
    ensures id(xs[i]) in Index(xs, id) && Index(xs, id)[id(xs[i])] == xs[i]
  {
    var n := |xs| - 1;
    var init, last := xs[..n], xs[n];
    assert Index(xs, id) == Index(init, id)[id(last) := last];
    if i < n {
      UniqueIdsInit(xs, id);
      IndexFinds(init, id, i);
      assert init[i] == xs[i];
    }
  }

  /** Dropping the last element keeps the ids unique. */
  lemma UniqueIdsInit<T>(xs: seq<T>, id: T -> int)
    requires UniqueIds(xs, id) && |xs| >= 1
    ensures UniqueIds(xs[..|xs| - 1], id)
  {
    var init := xs[..|xs| - 1];
    forall j, k | 0 <= j < k < |init|
      ensures id(init[j]) != id(init[k])
    {
      assert init[j] == xs[j] && init[k] == xs[k];
    }
  }

  function NodeId(n: Node): int { n.id }

  function WayId(w: Way): int { w.id }

  function RelationId(r: Relation): int { r.id }

  /** The nodes, ways and relations of a set of Overpass responses, and the polygons built from them. */
  class Nest {
    const osmData: seq<Area>
    var nodes: seq<Node>
    var ways: seq<Way>
    var relations: seq<Relation>
    var nodesDict: map<int, Node>
    var waysDict: map<int, Way>

    /** Ids are unique within each list, and the two maps index the node and way lists by id. */
    ghost predicate Valid()
      reads this
    {
      && UniqueIds(nodes, NodeId)
      && UniqueIds(ways, WayId)
      && UniqueIds(relations, RelationId)
      && nodesDict.Keys == (set n | n in nodes :: n.id)
      && (forall i :: 0 <= i < |nodes| ==> nodesDict[nodes[i].id] == nodes[i])
      && waysDict.Keys == (set w | w in ways :: w.id)
      && (forall i :: 0 <= i < |ways| ==> waysDict[ways[i].id] == ways[i])
      && (forall id :: id in waysDict ==> waysDict[id] in ways)
    }

    /**
     * `_get_osm_elements`: scans the elements of every area in order and
     * appends each node, way and relation unless the list already holds an
     * element equal to it (same id); elements of any other type are skipped.
     */
    static method GetOsmElements(osmData: seq<Area>) returns (nodes: seq<Node>, ways: seq<Way>, relations: seq<Relation>)
      ensures Collected(nodes, ways, relations, Flatten(osmData))
      ensures forall w <- ways :: fresh(w) && w.polygon == None
      ensures forall r <- relations :: fresh(r) && r.multipolygon == None
    {
      nodes, ways, relations := [], [], [];
      var a := 0;
      while a < |osmData|
        invariant 0 <= a <= |osmData|
        invariant Collected(nodes, ways, relations, Flatten(osmData[..a]))
        invariant forall w <- ways :: fresh(w) && w.polygon == None
        invariant forall r <- relations :: fresh(r) && r.multipolygon == None
      {
        var elements := osmData[a].elements;
        ghost var seen := Flatten(osmData[..a]);
        var k := 0;
        assert seen + elements[..k] == seen;
        while k < |elements|
          invariant 0 <= k <= |elements|
          invariant Collected(nodes, ways, relations, seen + elements[..k])
          invariant forall w <- ways :: fresh(w) && w.polygon == None
          invariant forall r <- relations :: fresh(r) && r.multipolygon == None
        {
          assert seen + elements[..k + 1] == (seen + elements[..k]) + [elements[k]];
          nodes, ways, relations := Admit(elements[k], seen + elements[..k], nodes, ways, relations);
          k := k + 1;
        }
        assert elements[..k] == elements;
        assert osmData[..a + 1][..a] == osmData[..a];
        a := a + 1;
      }
      assert osmData[..a] == osmData;
    }

    /**
     * One step of `_get_osm_elements`: builds the element of its type and
     * appends it unless an equal one is already listed.
     */
    static method Admit(element: RawElement, ghost es: seq<RawElement>, nodes: seq<Node>, ways: seq<Way>, relations: seq<Relation>)
      returns (nodes': seq<Node>, ways': seq<Way>, relations': seq<Relation>)
      requires Collected(nodes, ways, relations, es)
      ensures Collected(nodes', ways', relations', es + [element])
      ensures forall w <- ways' :: w in ways || (fresh(w) && w.polygon == None)
      ensures forall r <- relations' :: r in relations || (fresh(r) && r.multipolygon == None)
    {
      nodes', ways', relations' := nodes, ways, relations;
      DedupSnoc(es, element, "node");
      DedupSnoc(es, element, "way");
      DedupSnoc(es, element, "relation");
      if element.kind == "node" {
        nodes' := AdmitNode(element, es, nodes);
      } else if element.kind == "relation" {
        relations' := AdmitRelation(element, es, relations);
      } else if element.kind == "way" {
        ways' := AdmitWay(element, es, ways);
      }
    }

    static method AdmitNode(element: RawElement, ghost es: seq<RawElement>, nodes: seq<Node>) returns (nodes': seq<Node>)
      requires element.kind == "node" && NodesFrom(nodes, Dedup(es, "node"))
      ensures NodesFrom(nodes', Dedup(es + [element], "node"))
    {
      DedupSnoc(es, element, "node");
      nodes' := nodes;
      var node := Node(element.id, element.lat, element.lon, element.tags);
      NodeListed(nodes, Dedup(es, "node"), node);
      if !(exists x <- nodes :: x.Equals(NodeElement(node))) {
        nodes' := nodes + [node];
        NodesFromSnoc(nodes, Dedup(es, "node"), element);
      }
    }

    static method AdmitWay(element: RawElement, ghost es: seq<RawElement>, ways: seq<Way>) returns (ways': seq<Way>)
      requires element.kind == "way" && WaysFrom(ways, Dedup(es, "way"))
      ensures WaysFrom(ways', Dedup(es + [element], "way"))
      ensures forall w <- ways' :: w in ways || (fresh(w) && w.polygon == None)
    {
      DedupSnoc(es, element, "way");
      ways' := ways;
      var way := new Way(element.id, element.nodes, element.tags);
      WayListed(ways, Dedup(es, "way"), way);
      if !(exists x <- ways :: x.Equals(WayElement(way))) {
        ways' := ways + [way];
        WaysFromSnoc(ways, Dedup(es, "way"), way, element);
      }
    }

    static method AdmitRelation(element: RawElement, ghost es: seq<RawElement>, relations: seq<Relation>)
      returns (relations': seq<Relation>)
      requires element.kind == "relation" && RelationsFrom(relations, Dedup(es, "relation"))
      ensures RelationsFrom(relations', Dedup(es + [element], "relation"))
      ensures forall r <- relations' :: r in relations || (fresh(r) && r.multipolygon == None)
    {
      DedupSnoc(es, element, "relation");
      relations' := relations;
      var relation := new Relation(element.id, element.members, element.tags);
      RelationListed(relations, Dedup(es, "relation"), relation);
      if !(exists x <- relations :: x.Equals(RelationElement(relation))) {
        relations' := relations + [relation];
        RelationsFromSnoc(relations, Dedup(es, "relation"), relation, element);
      }
    }

    static lemma NodesFromSnoc(nodes: seq<Node>, kept: seq<RawElement>, e: RawElement)
      requires NodesFrom(nodes, kept)
      ensures NodesFrom(nodes + [Node(e.id, e.lat, e.lon, e.tags)], kept + [e])
    {
    }

    static lemma WaysFromSnoc(ways: seq<Way>, kept: seq<RawElement>, way: Way, e: RawElement)
      requires WaysFrom(ways, kept)
      requires way.id == e.id && way.nodes == e.nodes && way.tags == e.tags && way.name == DerivedName(e.tags)
      ensures WaysFrom(ways + [way], kept + [e])
    {
    }

    static lemma RelationsFromSnoc(relations: seq<Relation>, kept: seq<RawElement>, relation: Relation, e: RawElement)
      requires RelationsFrom(relations, kept)
      requires relation.id == e.id && relation.members == e.members && relation.tags == e.tags
      requires relation.name == DerivedName(e.tags)
      ensures RelationsFrom(relations + [relation], kept + [e])
    {
    }

    /** A node equal to `node` is listed exactly when its id was kept already. */
    static lemma NodeListed(nodes: seq<Node>, kept: seq<RawElement>, node: Node)
      requires NodesFrom(nodes, kept)
      ensures (exists x <- nodes :: x.Equals(NodeElement(node))) <==> node.id in Ids(kept)
    {
      SameIds(kept, node.id);
      if node.id in Ids(kept) {
        var i :| 0 <= i < |kept| && kept[i].id == node.id;
        assert nodes[i] in nodes && nodes[i].Equals(NodeElement(node));
      }
    }

    /** A way equal to `way` is listed exactly when its id was kept already. */
    static lemma WayListed(ways: seq<Way>, kept: seq<RawElement>, way: Way)
      requires WaysFrom(ways, kept)
      ensures (exists x <- ways :: x.Equals(WayElement(way))) <==> way.id in Ids(kept)
    {
      SameIds(kept, way.id);
      if way.id in Ids(kept) {
        var i :| 0 <= i < |kept| && kept[i].id == way.id;
        assert ways[i] in ways && ways[i].Equals(WayElement(way));
      }
    }

    /** A relation equal to `relation` is listed exactly when its id was kept already. */
    static lemma RelationListed(relations: seq<Relation>, kept: seq<RawElement>, relation: Relation)
      requires RelationsFrom(relations, kept)
      ensures (exists x <- relations :: x.Equals(RelationElement(relation))) <==> relation.id in Ids(kept)
    {
      SameIds(kept, relation.id);
      if relation.id in Ids(kept) {
        var i :| 0 <= i < |kept| && kept[i].id == relation.id;
        assert relations[i] in relations && relations[i].Equals(RelationElement(relation));
      }
    }

    /** `id` is among the ids of `es`, seen through an index. */
    static lemma SameIds(es: seq<RawElement>, id: int)
      ensures id in Ids(es) <==> exists i :: 0 <= i < |es| && es[i].id == id
    {
      if id in Ids(es) {
        var e :| e in es && e.id == id;
        var i :| 0 <= i < |es| && es[i] == e;
      }
    }

    /** Collected lists have unique ids, so indexing them by id finds every element. */
    static lemma CollectedIndexes(nodes: seq<Node>, ways: seq<Way>, relations: seq<Relation>, es: seq<RawElement>)
      requires Collected(nodes, ways, relations, es)
      ensures UniqueIds(nodes, NodeId) && UniqueIds(ways, WayId) && UniqueIds(relations, RelationId)
      ensures forall i :: 0 <= i < |nodes| ==> Index(nodes, NodeId)[nodes[i].id] == nodes[i]
      ensures forall i :: 0 <= i < |ways| ==> Index(ways, WayId)[ways[i].id] == ways[i]
    {
      var dn, dw, dr := Dedup(es, "node"), Dedup(es, "way"), Dedup(es, "relation");
      DedupUnique(es, "node");
      DedupUnique(es, "way");
      DedupUnique(es, "relation");
      forall i, j | 0 <= i < j < |nodes|
        ensures NodeId(nodes[i]) != NodeId(nodes[j])
      {
        assert nodes[i].id == dn[i].id && nodes[j].id == dn[j].id;
      }
      forall i, j | 0 <= i < j < |ways|
        ensures WayId(ways[i]) != WayId(ways[j])
      {
        assert ways[i].id == dw[i].id && ways[j].id == dw[j].id;
      }
      forall i, j | 0 <= i < j < |relations|
        ensures RelationId(relations[i]) != RelationId(relations[j])
      {
        assert relations[i].id == dr[i].id && relations[j].id == dr[j].id;
      }
      IndexFindsEach(nodes, NodeId);
      IndexFindsEach(ways, WayId);
    }

    /**
     * `__init__` up to the polygons: collects the elements and indexes the
     * nodes and ways by id.
     */
    constructor Collect(osmData: seq<Area>)
      ensures this.osmData == osmData
      ensures Collected(nodes, ways, relations, Flatten(osmData))
      ensures forall w <- ways :: fresh(w) && w.polygon == None
      ensures forall r <- relations :: fresh(r) && r.multipolygon == None
      ensures Valid()
    {
      this.osmData := osmData;
      var n, w, r := GetOsmElements(osmData);
      CollectedIndexes(n, w, r, Flatten(osmData));
      nodes, ways, relations := n, w, r;
      nodesDict := Index(n, NodeId);
      waysDict := Index(w, WayId);
    }

    /** Every way resolves its node ids in `nodesDict`. */
    ghost predicate WaysResolve()
      reads this
    {
      forall w <- ways :: w.BuildPolygon(nodesDict).Success?
    }

    /** Every "way" member of `r` names a way of `waysDict`. */
    ghost predicate MemberResolves(r: Relation)
      reads this
    {
      forall ref <- WayRefs(r.members) :: ref in waysDict
    }

    /** Every "way" member of every relation names a way of `waysDict`. */
    ghost predicate MembersResolve()
      reads this
    {
      forall r <- relations :: MemberResolves(r)
    }

    /** `key` is a node id of a listed way that `nodesDict` lacks. */
    ghost predicate MissingNodeRef(key: int)
      reads this
    {
      key !in nodesDict && exists w <- ways :: key in w.nodes
    }

    /** `key` is a "way" member of a listed relation that `waysDict` lacks. */
    ghost predicate MissingWayRef(key: int)
      reads this
    {
      key !in waysDict && exists r <- relations :: key in WayRefs(r.members)
    }

    /** Every way's polygon cache holds the polygon built from `nodesDict`. */
    ghost predicate WaysBuilt()
      reads this, ways
    {
      forall w <- ways :: w.BuildPolygon(nodesDict).Success? && w.polygon == Some(w.BuildPolygon(nodesDict).value)
    }

    /** The relation's multipolygon is the cached polygon of each of its "way" members, in member order. */
    ghost predicate Assembled(r: Relation)
      reads this, r, waysDict.Values
    {
      var refs := WayRefs(r.members);
      && r.multipolygon.Some?
      && |r.multipolygon.value| == |refs|
      && forall k :: 0 <= k < |refs| ==>
           refs[k] in waysDict && waysDict[refs[k]].polygon == Some(r.multipolygon.value[k])
    }

    /**
     * `_build_polygons`: first sets every way's polygon from `nodesDict`, then
     * every relation's multipolygon from `waysDict`. It completes exactly when
     * all references resolve; the relation step then finds every way cached
     * and computes no polygon of its own.
     */
    method BuildPolygons() returns (fault: Option<Fault>)
      requires Valid()
      modifies set w | w in ways, set r | r in relations
      ensures fault == None <==> WaysResolve() && MembersResolve()
      ensures fault == None ==> WaysBuilt() && forall r <- relations :: Assembled(r)
      ensures fault != None ==> fault.value.KeyError? && (MissingNodeRef(fault.value.key) || MissingWayRef(fault.value.key))
    {
      fault := BuildWayPolygons();
      if fault.None? {
        fault := AssembleRelations();
      }
    }

    /** The first loop of `_build_polygons`: each way's polygon, in list order, until a lookup fails. */
    method BuildWayPolygons() returns (fault: Option<Fault>)
      requires Valid()
      modifies set w | w in ways
      ensures fault == None <==> WaysResolve()
      ensures fault == None ==> WaysBuilt()
      ensures fault != None ==> fault.value.KeyError? && MissingNodeRef(fault.value.key)
    {
      var i := 0;
      while i < |ways|
        invariant 0 <= i <= |ways|
        invariant forall j :: 0 <= j < i ==>
                    ways[j].BuildPolygon(nodesDict).Success? && ways[j].polygon == Some(ways[j].BuildPolygon(nodesDict).value)
      {
        var built := ways[i].BuildPolygon(nodesDict);
        if built.Failure? {
          assert ways[i] in ways;
          return Some(built.error);
        }
        ways[i].polygon := Some(built.value);
        i := i + 1;
      }
      return None;
    }

    /**
     * The second loop of `_build_polygons`: each relation's multipolygon, in
     * list order, until a member lookup fails. The way polygons stay as the
     * first loop left them.
     */
    method AssembleRelations() returns (fault: Option<Fault>)
      requires Valid() && WaysBuilt()
      modifies set w | w in ways, set r | r in relations
      ensures WaysBuilt()
      ensures fault == None <==> MembersResolve()
      ensures fault == None ==> forall r <- relations :: Assembled(r)
      ensures fault != None ==> fault.value.KeyError? && MissingWayRef(fault.value.key)
    {
      ghost var cache := Snapshot(waysDict);
      FilledCache(cache);
      var k := 0;
      while k < |relations|
        invariant 0 <= k <= |relations|
        invariant Snapshot(waysDict) == cache
        invariant forall j :: 0 <= j < k ==> WalkedInto(relations[j], cache)
      {
        var relation := relations[k];
        fault := AssembleRelation(relation, cache);
        if fault.Some? {
          assert relation in relations;
          SnapshotKeepsBuilt(cache);
          return;
        }
        forall j | 0 <= j < k
          ensures relations[j] != relation
        {
          assert RelationId(relations[j]) != RelationId(relations[k]);
        }
        k := k + 1;
      }
      forall r | r in relations
        ensures MemberResolves(r) && Assembled(r)
      {
        var j :| 0 <= j < |relations| && relations[j] == r;
        AssembledFromCache(r, cache);
      }
      SnapshotKeepsBuilt(cache);
      return None;
    }

    /**
     * One turn of the second loop: the relation's multipolygon from
     * `waysDict`, whose ways all have their polygons cached already.
     */
    method AssembleRelation(relation: Relation, ghost cache: Cache) returns (fault: Option<Fault>)
      requires Valid() && cache == Snapshot(waysDict)
      requires forall w :: w in waysDict.Values ==> cache[w].Some?
      modifies waysDict.Values, relation
      ensures Snapshot(waysDict) == cache
      ensures fault == None ==> WalkedInto(relation, cache)
      ensures fault != None ==> !MemberResolves(relation)
      ensures fault != None ==> relation.multipolygon == old(relation.multipolygon)
      ensures fault != None ==>
                fault.value.KeyError? && fault.value.key in WayRefs(relation.members) && fault.value.key !in waysDict
    {
      WalkOverFilledCache(relation.members, waysDict, cache);
      var multipolygon := relation.BuildMultipolygon(waysDict);
      if multipolygon.Failure? {
        UnresolvedFromCache(relation, cache);
        return Some(multipolygon.error);
      }
      relation.multipolygon := Some(multipolygon.value);
      return None;
    }

    /** The relation's multipolygon is what walking its members over `cache` yields. */
    ghost predicate WalkedInto(r: Relation, cache: Cache)
      reads this, r
    {
      && waysDict.Values <= cache.Keys
      && Walk(r.members, waysDict, cache).0.Success?
      && r.multipolygon == Some(Walk(r.members, waysDict, cache).0.value)
    }

    /** After the first loop every way of `waysDict` is cached. */
    lemma FilledCache(cache: Cache)
      requires Valid() && WaysBuilt() && cache == Snapshot(waysDict)
      ensures waysDict.Values <= cache.Keys
      ensures forall w :: w in waysDict.Values ==> cache[w].Some?
      ensures forall w <- ways :: cache[w] == w.polygon
    {
      forall w | w in waysDict.Values
        ensures cache[w].Some?
      {
        var id :| id in waysDict && waysDict[id] == w;
      }
      forall w | w in ways
        ensures w in waysDict.Values
      {
        var j :| 0 <= j < |ways| && ways[j] == w;
        assert waysDict[ways[j].id] == w;
      }
    }

    /** The way polygons, as a snapshot of the cache after the first loop, still satisfy `WaysBuilt`. */
    lemma SnapshotKeepsBuilt(cache: Cache)
      requires Valid() && cache == Snapshot(waysDict)
      requires forall w <- ways :: w.BuildPolygon(nodesDict).Success? && cache[w] == Some(w.BuildPolygon(nodesDict).value)
      ensures WaysBuilt()
    {
      forall w | w in ways
        ensures w in waysDict.Values
      {
        var j :| 0 <= j < |ways| && ways[j] == w;
        assert waysDict[ways[j].id] == w;
      }
    }

    /** A multipolygon walked over the filled cache is the relation's assembled multipolygon. */
    lemma AssembledFromCache(r: Relation, cache: Cache)
      requires Valid() && cache == Snapshot(waysDict)
      requires forall w :: w in waysDict.Values ==> cache[w].Some?
      requires WalkedInto(r, cache)
      ensures MemberResolves(r) && Assembled(r)
    {
      WalkOverFilledCache(r.members, waysDict, cache);
      var refs := WayRefs(r.members);
      var value := r.multipolygon.value;
      assert |value| == |refs|;
      forall k | 0 <= k < |refs|
        ensures refs[k] in waysDict && waysDict[refs[k]].polygon == Some(value[k])
      {
        assert refs[k] in waysDict;
        assert value[k] == cache[waysDict[refs[k]]].value;
        assert waysDict[refs[k]] in waysDict.Values;
      }
    }

    /** A walk over the filled cache fails only on a member that names no way. */
    lemma UnresolvedFromCache(r: Relation, cache: Cache)
      requires Valid() && cache == Snapshot(waysDict)
      requires forall w :: w in waysDict.Values ==> cache[w].Some?
      requires Walk(r.members, waysDict, cache).0.Failure?
      ensures !MemberResolves(r)
    {
      WalkOverFilledCache(r.members, waysDict, cache);
      var refs := WayRefs(r.members);
      var j :| 0 <= j < |refs| && refs[j] !in waysDict;
      var missing := refs[j];
      assert missing in refs && missing !in waysDict;
    }

    /**
     * `Nest(osm_data)`: collects, indexes and builds. It fails exactly when
     * the input is not complete, with the KeyError of a node id or a "way"
     * member that no collected element has.
     */
    static method Create(osmData: seq<Area>) returns (r: Result<Nest>)
      ensures r.Success? <==> Complete(Flatten(osmData))
      ensures r.Success? ==>
                && fresh(r.value)
                && r.value.osmData == osmData
                && r.value.Valid()
                && Collected(r.value.nodes, r.value.ways, r.value.relations, Flatten(osmData))
                && r.value.WaysBuilt()
                && forall rel <- r.value.relations :: r.value.Assembled(rel)
      ensures r.Failure? ==>
                r.error.KeyError? && (MissingNode(Flatten(osmData), r.error.key) || MissingWay(Flatten(osmData), r.error.key))
    {
      var nest := new Nest.Collect(osmData);
      nest.ResolvesIffComplete();
      assert forall w <- nest.ways :: fresh(w);
      assert forall r <- nest.relations :: fresh(r);
      var fault := nest.BuildPolygons();
      if fault.Some? {
        nest.MissingRefsKept(fault.value.key);
        return Failure(fault.value);
      }
      return Success(nest);
    }

    /** A reference the dicts lack is one that no collected element has. */
    lemma MissingRefsKept(key: int)
      requires Valid()
      requires Collected(nodes, ways, relations, Flatten(osmData))
      ensures MissingNodeRef(key) ==> MissingNode(Flatten(osmData), key)
      ensures MissingWayRef(key) ==> MissingWay(Flatten(osmData), key)
    {
      var es := Flatten(osmData);
      DedupCovers(es, "node");
      DedupCovers(es, "way");
      NodeIdsKept(nodes, Dedup(es, "node"));
      WayIdsKept(ways, Dedup(es, "way"));
      if MissingNodeRef(key) {
        var w :| w in ways && key in w.nodes;
        var i :| 0 <= i < |ways| && ways[i] == w;
        assert Dedup(es, "way")[i] in Dedup(es, "way");
      }
      if MissingWayRef(key) {
        var r :| r in relations && key in WayRefs(r.members);
        var i :| 0 <= i < |relations| && relations[i] == r;
        assert Dedup(es, "relation")[i] in Dedup(es, "relation");
      }
    }

    /** For collected lists, the lookups all succeed exactly when the input is complete. */
    lemma ResolvesIffComplete()
      requires Valid()
      requires Collected(nodes, ways, relations, Flatten(osmData))
      ensures WaysResolve() && MembersResolve() <==> Complete(Flatten(osmData))
    {
      var es := Flatten(osmData);
      DedupCovers(es, "node");
      DedupCovers(es, "way");
      NodeIdsKept(nodes, Dedup(es, "node"));
      WayIdsKept(ways, Dedup(es, "way"));
      WaysResolveIff(KindIds(es, "node"), Dedup(es, "way"));
      MembersResolveIff(KindIds(es, "way"), Dedup(es, "relation"));
    }

    static lemma NodeIdsKept(nodes: seq<Node>, kept: seq<RawElement>)
      requires NodesFrom(nodes, kept)
      ensures (set n | n in nodes :: n.id) == Ids(kept)
    {
      forall x
        ensures x in (set n | n in nodes :: n.id) <==> x in Ids(kept)
      {
        if x in (set n | n in nodes :: n.id) {
          var i :| 0 <= i < |nodes| && nodes[i].id == x;
          assert kept[i] in kept;
        }
        if x in Ids(kept) {
          var i :| 0 <= i < |kept| && kept[i].id == x;
          assert nodes[i] in nodes;
        }
      }
    }

    static lemma WayIdsKept(ways: seq<Way>, kept: seq<RawElement>)
      requires WaysFrom(ways, kept)
      ensures (set w | w in ways :: w.id) == Ids(kept)
    {
      forall x
        ensures x in (set w | w in ways :: w.id) <==> x in Ids(kept)
      {
        if x in (set w | w in ways :: w.id) {
          var i :| 0 <= i < |ways| && ways[i].id == x;
          assert kept[i] in kept;
        }
        if x in Ids(kept) {
          var i :| 0 <= i < |kept| && kept[i].id == x;
          assert ways[i] in ways;
        }
      }
    }

    /** The ways resolve exactly when every node id of the kept way elements is a known node id. */
    lemma WaysResolveIff(nodeIds: set<int>, kept: seq<RawElement>)
      requires WaysFrom(ways, kept) && nodesDict.Keys == nodeIds
      ensures WaysResolve() <==> forall e, ref :: e in kept && ref in e.nodes ==> ref in nodeIds
    {
      if WaysResolve() {
        forall e, ref | e in kept && ref in e.nodes
          ensures ref in nodeIds
        {
          var i :| 0 <= i < |kept| && kept[i] == e;
          assert ways[i] in ways;
          var k :| 0 <= k < |e.nodes| && e.nodes[k] == ref;
          assert ways[i].nodes[k] == ref;
        }
      }
      if forall e, ref :: e in kept && ref in e.nodes ==> ref in nodeIds {
        forall w | w in ways
          ensures w.BuildPolygon(nodesDict).Success?
        {
          var i :| 0 <= i < |ways| && ways[i] == w;
          assert kept[i] in kept;
          forall k | 0 <= k < |w.nodes|
            ensures w.nodes[k] in nodesDict
          {
            assert w.nodes[k] in kept[i].nodes;
          }
        }
      }
    }

    /** The relations resolve exactly when every "way" member of the kept relation elements is a known way id. */
    lemma MembersResolveIff(wayIds: set<int>, kept: seq<RawElement>)
      requires RelationsFrom(relations, kept) && waysDict.Keys == wayIds
      ensures MembersResolve() <==> forall e, ref :: e in kept && ref in WayRefs(e.members) ==> ref in wayIds
    {
      if MembersResolve() {
        forall e, ref | e in kept && ref in WayRefs(e.members)
          ensures ref in wayIds
        {
          var i :| 0 <= i < |kept| && kept[i] == e;
          assert relations[i] in relations;
        }
      }
      if forall e, ref :: e in kept && ref in WayRefs(e.members) ==> ref in wayIds {
        forall r | r in relations
          ensures MemberResolves(r)
        {
          var i :| 0 <= i < |relations| && relations[i] == r;
          assert kept[i] in kept;
        }
      }
    }
  }
}
