/**
  The session-affinity graph of HazelcastSessionStore2 (the nested classes Graph,
  SessionVertex and SessionEdge). Vertices are values: a Java `@Value` record is
  compared field by field, and the graph is a `HashSet` of them, so the graph is a
  `set<SessionVertex>` that its methods reassign. Appending an edge never changes a
  vertex in place; it removes the vertex and adds a rebuilt copy.
 */
module SessionGraph {
  import opened Wrappers

  /** Creation edge: `out` is the token presented when the session `into` was minted. */
  datatype SessionEdge = SessionEdge(out: string, into: string)

  datatype SessionVertex = SessionVertex(id: string, node: string, edges: seq<SessionEdge>)

  predicate HasId(vs: set<SessionVertex>, id: string) {
    exists v :: v in vs && v.id == id
  }

  function Ids(vs: set<SessionVertex>): set<string> {
    set v | v in vs :: v.id
  }

  /** At most one vertex per id: the invariant every graph operation relies on. */
  predicate UniqueIds(vs: set<SessionVertex>) {
    forall a, b :: a in vs && b in vs && a.id == b.id ==> a == b
  }

  /**
    Graph.getVertexById / getVertex. Java takes the first match of a HashSet stream;
    with one vertex per id that match is the only one.
   */
  function Lookup(vs: set<SessionVertex>, id: string): (r: Option<SessionVertex>)
    requires UniqueIds(vs)
    ensures r.Some? <==> HasId(vs, id)
    ensures r.Some? ==> r.value in vs && r.value.id == id
    ensures forall v :: v in vs && v.id == id ==> r == Some(v)
  {
    if HasId(vs, id) then
      var v :| v in vs && v.id == id; Some(v)
    else
      None
  }

  function Present(o: Option<SessionVertex>): seq<SessionVertex> {
    if o.Some? then [o.value] else []
  }

  /** Some edge of `edges` has `id` at one of its ends. */
  predicate Touches(edges: seq<SessionEdge>, id: string) {
    exists e :: e in edges && (e.into == id || e.out == id)
  }

  /**
    convertToVerticles: for every edge in order, the vertex at its `into` end and then
    the one at its `out` end, with ids that have no vertex dropped.
   */
  function Neighbors(vs: set<SessionVertex>, edges: seq<SessionEdge>): (r: seq<SessionVertex>)
    requires UniqueIds(vs)
    ensures forall w :: w in r <==> w in vs && Touches(edges, w.id)
    ensures |r| <= 2 * |edges|
    decreases |edges|
  {
    if edges == [] then []
    else
      Present(Lookup(vs, edges[0].into)) + Present(Lookup(vs, edges[0].out))
      + Neighbors(vs, edges[1..])
  }

  /** The copy of `v` that Graph.addEdge builds: same id and node, `e` appended. */
  function Appended(v: SessionVertex, e: SessionEdge): SessionVertex {
    SessionVertex(v.id, v.node, v.edges + [e])
  }

  /**
    The graph after Graph.addEdge(e): when both ends are present, both vertices are
    removed and rebuilt copies added, `into` first. For a self-edge the two copies are
    equal, so the set keeps one. Otherwise nothing happens.
   */
  function WithEdge(vs: set<SessionVertex>, e: SessionEdge): (r: set<SessionVertex>)
    requires UniqueIds(vs)
    ensures !HasId(vs, e.into) || !HasId(vs, e.out) ==> r == vs
  {
    var i := Lookup(vs, e.into);
    var o := Lookup(vs, e.out);
    if i.Some? && o.Some? then
      vs - {i.value} - {o.value} + {Appended(i.value, e)} + {Appended(o.value, e)}
    else
      vs
  }

  /** The empty vertex that createVertex adds before its creation edge. */
  lemma FreshVertexKeepsUnique(vs: set<SessionVertex>, v: SessionVertex)
    requires UniqueIds(vs) && !HasId(vs, v.id)
    ensures UniqueIds(vs + {v})
    ensures Ids(vs + {v}) == Ids(vs) + {v.id}
  {
    assert forall w :: w in vs ==> w.id != v.id;
  }

  /**
    The graph after createVertex(id, creatorId, node): the empty vertex is added, then
    the creation edge (creatorId, id).
   */
  function WithCreated(vs: set<SessionVertex>, id: string, creatorId: string, node: string): (r: set<SessionVertex>)
    requires UniqueIds(vs) && !HasId(vs, id)
  {
    FreshVertexKeepsUnique(vs, SessionVertex(id, node, []));
    WithEdge(vs + {SessionVertex(id, node, [])}, SessionEdge(creatorId, id))
  }

  // ---------------------------------------------------------------------------
  // Properties of addEdge

  /** addEdge when both ends are present: each end gets `e` appended once, id and node kept. */
  lemma WithEdgeEndpoint(vs: set<SessionVertex>, e: SessionEdge, x: string)
    requires UniqueIds(vs) && HasId(vs, e.into) && HasId(vs, e.out)
    requires x == e.into || x == e.out
    ensures UniqueIds(WithEdge(vs, e))
    ensures Lookup(WithEdge(vs, e), x) == Some(Appended(Lookup(vs, x).value, e))
  {
    WithEdgeShape(vs, e);
  }

  /** addEdge leaves every vertex that is not an end of `e` as it was, and adds no other. */
  lemma WithEdgeOthers(vs: set<SessionVertex>, e: SessionEdge, v: SessionVertex)
    requires UniqueIds(vs)
    requires v.id != e.into && v.id != e.out
    ensures v in WithEdge(vs, e) <==> v in vs
  {
  }

  /** addEdge keeps one vertex per id and the same set of ids. */
  lemma WithEdgeShape(vs: set<SessionVertex>, e: SessionEdge)
    requires UniqueIds(vs)
    ensures UniqueIds(WithEdge(vs, e))
    ensures Ids(WithEdge(vs, e)) == Ids(vs)
  {
    var r := WithEdge(vs, e);
    var i := Lookup(vs, e.into);
    var o := Lookup(vs, e.out);
    if i.Some? && o.Some? {
      var ai, ao := Appended(i.value, e), Appended(o.value, e);
      forall a, b | a in r && b in r && a.id == b.id ensures a == b {
        if a.id == e.into {
          assert a == ai && b == ai;
        } else if a.id == e.out {
          assert a == ao && b == ao;
        }
      }
      forall x | x in Ids(vs) ensures x in Ids(r) {
        var w :| w in vs && w.id == x;
        if x == e.into { assert ai in r; }
        else if x == e.out { assert ao in r; }
        else { assert w in r; }
      }
    }
  }

  /** Once both ends exist, the edge is in the edge list of each end. */
  lemma WithEdgeRecords(vs: set<SessionVertex>, e: SessionEdge)
    requires UniqueIds(vs) && HasId(vs, e.into) && HasId(vs, e.out)
    ensures UniqueIds(WithEdge(vs, e))
    ensures Recorded(WithEdge(vs, e), e)
  {
    WithEdgeEndpoint(vs, e, e.into);
    WithEdgeEndpoint(vs, e, e.out);
  }

  /** `e` is in the edge lists of the vertices at both of its ends. */
  predicate Recorded(vs: set<SessionVertex>, e: SessionEdge)
    requires UniqueIds(vs)
  {
    && HasId(vs, e.out) && HasId(vs, e.into)
    && e in Lookup(vs, e.out).value.edges
    && e in Lookup(vs, e.into).value.edges
  }

  /**
    The adjacency a graph built by addEdge has: every edge a vertex holds touches that
    vertex and is held by the vertices at both of its ends.
   */
  predicate Symmetric(vs: set<SessionVertex>)
    requires UniqueIds(vs)
  {
    forall v, e :: v in vs && e in v.edges ==> (v.id == e.out || v.id == e.into) && Recorded(vs, e)
  }

  /**
    Edges only grow: every vertex of `vs` has a vertex with the same id and node in `r`
    whose edge list extends its own.
   */
  predicate Grows(vs: set<SessionVertex>, r: set<SessionVertex>)
    requires UniqueIds(r)
  {
    forall v :: v in vs ==>
      HasId(r, v.id) && Lookup(r, v.id).value.node == v.node && v.edges <= Lookup(r, v.id).value.edges
  }

  lemma WithEdgeGrows(vs: set<SessionVertex>, e: SessionEdge)
    requires UniqueIds(vs)
    ensures UniqueIds(WithEdge(vs, e))
    ensures Grows(vs, WithEdge(vs, e))
  {
    WithEdgeShape(vs, e);
    var r := WithEdge(vs, e);
    forall v | v in vs
      ensures HasId(r, v.id) && Lookup(r, v.id).value.node == v.node && v.edges <= Lookup(r, v.id).value.edges
    {
      if HasId(vs, e.into) && HasId(vs, e.out) && (v.id == e.into || v.id == e.out) {
        WithEdgeEndpoint(vs, e, v.id);
      } else {
        assert v in r;
      }
    }
  }

  /** addEdge keeps the adjacency symmetric. */
  lemma WithEdgeSymmetric(vs: set<SessionVertex>, e: SessionEdge)
    requires UniqueIds(vs) && Symmetric(vs)
    ensures UniqueIds(WithEdge(vs, e))
    ensures Symmetric(WithEdge(vs, e))
  {
    WithEdgeShape(vs, e);
    var r := WithEdge(vs, e);
    if HasId(vs, e.into) && HasId(vs, e.out) {
      forall v, f | v in r && f in v.edges
        ensures (v.id == f.out || v.id == f.into) && Recorded(r, f)
      {
        if f == e {
          WithEdgeRecords(vs, e);
          if v.id != e.into && v.id != e.out {
            // then `v` was already in `vs`, holding `e`, which Symmetric(vs) rules out
            WithEdgeOthers(vs, e, v);
          }
        } else {
          WithEdgeKeepsOld(vs, e, v, f);
        }
      }
    }
  }

  /** An edge other than `e` held by a vertex after addEdge(e) was held before, and is still recorded at both ends. */
  lemma WithEdgeKeepsOld(vs: set<SessionVertex>, e: SessionEdge, v: SessionVertex, f: SessionEdge)
    requires UniqueIds(vs) && Symmetric(vs) && HasId(vs, e.into) && HasId(vs, e.out)
    requires UniqueIds(WithEdge(vs, e))
    requires v in WithEdge(vs, e) && f in v.edges && f != e
    ensures (v.id == f.out || v.id == f.into) && Recorded(WithEdge(vs, e), f)
  {
    var r := WithEdge(vs, e);
    WithEdgeShape(vs, e);
    assert HasId(vs, v.id);
    var u := Lookup(vs, v.id).value;
    if v.id == e.into || v.id == e.out {
      WithEdgeEndpoint(vs, e, v.id);
      assert v == Appended(u, e);
      assert f in u.edges;
    } else {
      WithEdgeOthers(vs, e, v);
      assert v == u;
    }
    assert Recorded(vs, f);
    WithEdgeGrows(vs, e);
    GrownHolds(vs, r, f.out, f);
    GrownHolds(vs, r, f.into, f);
  }

  lemma GrownHolds(vs: set<SessionVertex>, r: set<SessionVertex>, x: string, f: SessionEdge)
    requires UniqueIds(vs) && UniqueIds(r) && Grows(vs, r)
    requires HasId(vs, x) && f in Lookup(vs, x).value.edges
    ensures HasId(r, x) && f in Lookup(r, x).value.edges
  {
    var u := Lookup(vs, x).value;
    assert u.edges <= Lookup(r, x).value.edges;
  }

  // ---------------------------------------------------------------------------
  // Properties of createVertex

  /**
    createVertex with an id not yet in the graph: one vertex per id is kept, the ids
    grow by exactly `id`, and the new vertex has the node given and, as its edges, the
    creation edge when the creator exists (a root self-edge when creatorId == id) and
    nothing when it does not.
   */
  lemma CreatedVertex(vs: set<SessionVertex>, id: string, creatorId: string, node: string)
    requires UniqueIds(vs) && !HasId(vs, id)
    ensures UniqueIds(WithCreated(vs, id, creatorId, node))
    ensures Ids(WithCreated(vs, id, creatorId, node)) == Ids(vs) + {id}
    ensures Lookup(WithCreated(vs, id, creatorId, node), id)
         == Some(SessionVertex(id, node,
                  if creatorId == id || HasId(vs, creatorId) then [SessionEdge(creatorId, id)] else []))
  {
    var v := SessionVertex(id, node, []);
    var vs' := vs + {v};
    FreshVertexKeepsUnique(vs, v);
    WithEdgeShape(vs', SessionEdge(creatorId, id));
    assert Lookup(vs', id) == Some(v);
    assert HasId(vs', creatorId) <==> creatorId == id || HasId(vs, creatorId);
    if HasId(vs', creatorId) {
      WithEdgeEndpoint(vs', SessionEdge(creatorId, id), id);
      assert Appended(v, SessionEdge(creatorId, id)).edges == [SessionEdge(creatorId, id)];
    }
  }

  /** A root vertex (creatorId == id) holds exactly the self-edge (id, id). */
  lemma CreatedRoot(vs: set<SessionVertex>, id: string, node: string)
    requires UniqueIds(vs) && !HasId(vs, id)
    ensures UniqueIds(WithCreated(vs, id, id, node))
    ensures Lookup(WithCreated(vs, id, id, node), id) == Some(SessionVertex(id, node, [SessionEdge(id, id)]))
  {
    CreatedVertex(vs, id, id, node);
  }

  /** createVertex appends the creation edge to an existing creator and leaves all else as it was. */
  lemma CreatedOthers(vs: set<SessionVertex>, id: string, creatorId: string, node: string, v: SessionVertex)
    requires UniqueIds(vs) && !HasId(vs, id) && v in vs
    ensures UniqueIds(WithCreated(vs, id, creatorId, node))
    ensures v.id != creatorId ==> v in WithCreated(vs, id, creatorId, node)
    ensures v.id == creatorId ==>
      Lookup(WithCreated(vs, id, creatorId, node), v.id) == Some(Appended(v, SessionEdge(creatorId, id)))
  {
    var n := SessionVertex(id, node, []);
    var vs' := vs + {n};
    var e := SessionEdge(creatorId, id);
    FreshVertexKeepsUnique(vs, n);
    CreatedVertex(vs, id, creatorId, node);
    assert v.id != id;
    if v.id == creatorId {
      WithEdgeEndpoint(vs', e, creatorId);
    } else {
      WithEdgeOthers(vs', e, v);
    }
  }

  /** createVertex keeps the adjacency symmetric. */
  lemma CreatedSymmetric(vs: set<SessionVertex>, id: string, creatorId: string, node: string)
    requires UniqueIds(vs) && !HasId(vs, id) && Symmetric(vs)
    ensures UniqueIds(WithCreated(vs, id, creatorId, node))
    ensures Symmetric(WithCreated(vs, id, creatorId, node))
  {
    var n := SessionVertex(id, node, []);
    var vs' := vs + {n};
    FreshVertexKeepsUnique(vs, n);
    forall v, f | v in vs' && f in v.edges
      ensures (v.id == f.out || v.id == f.into) && Recorded(vs', f)
    {
      assert v in vs;
      assert Recorded(vs, f);
      assert Lookup(vs', f.out) == Lookup(vs, f.out);
      assert Lookup(vs', f.into) == Lookup(vs, f.into);
    }
    WithEdgeSymmetric(vs', SessionEdge(creatorId, id));
  }

  /** addEdge on two given vertices: both are replaced by their copies with the edge appended. */
  lemma WithEdgeAt(vs: set<SessionVertex>, e: SessionEdge, i: SessionVertex, o: SessionVertex)
    requires UniqueIds(vs) && i in vs && o in vs && i.id == e.into && o.id == e.out
    ensures WithEdge(vs, e) == vs - {i} - {o} + {Appended(i, e)} + {Appended(o, e)}
  {
    assert Lookup(vs, e.into) == Some(i) && Lookup(vs, e.out) == Some(o);
  }

  /**
    createVertex with an existing creator, as a whole graph: the creator is replaced by its
    copy with the creation edge appended, and the new vertex holds just that edge.
   */
  lemma CreatedFromCreator(vs: set<SessionVertex>, id: string, creator: SessionVertex, node: string)
    requires UniqueIds(vs) && !HasId(vs, id) && creator in vs
    ensures WithCreated(vs, id, creator.id, node)
         == vs - {creator} + {Appended(creator, SessionEdge(creator.id, id))}
            + {SessionVertex(id, node, [SessionEdge(creator.id, id)])}
  {
    var n := SessionVertex(id, node, []);
    var e := SessionEdge(creator.id, id);
    FreshVertexKeepsUnique(vs, n);
    WithEdgeAt(vs + {n}, e, n, creator);
    assert vs + {n} - {n} == vs;
    assert Appended(n, e) == SessionVertex(id, node, [e]);
  }

  /** A root createVertex, as a whole graph: the new vertex with its self-edge is added. */
  lemma CreatedRootSet(vs: set<SessionVertex>, id: string, node: string)
    requires UniqueIds(vs) && !HasId(vs, id)
    ensures WithCreated(vs, id, id, node) == vs + {SessionVertex(id, node, [SessionEdge(id, id)])}
  {
    var n := SessionVertex(id, node, []);
    var e := SessionEdge(id, id);
    FreshVertexKeepsUnique(vs, n);
    WithEdgeAt(vs + {n}, e, n, n);
    assert vs + {n} - {n} - {n} == vs;
    assert Appended(n, e) == SessionVertex(id, node, [e]);
  }

  /**
    createVertex whose creator has no vertex (as after the graph was reset): the new vertex
    is added with no edges, since addEdge does nothing.
   */
  lemma CreatedOrphan(vs: set<SessionVertex>, id: string, creatorId: string, node: string)
    requires UniqueIds(vs) && !HasId(vs, id) && !HasId(vs, creatorId) && creatorId != id
    ensures WithCreated(vs, id, creatorId, node) == vs + {SessionVertex(id, node, [])}
  {
    assert !HasId(vs + {SessionVertex(id, node, [])}, creatorId);
  }

  /**
    A vertex's edge other than `e` after addEdge(e) is an edge of the vertex with the same
    id before.
   */
  lemma WithEdgeOldEdge(vs: set<SessionVertex>, e: SessionEdge, v: SessionVertex, f: SessionEdge)
    requires UniqueIds(vs) && v in WithEdge(vs, e) && f in v.edges && f != e
    ensures HasId(vs, v.id) && f in Lookup(vs, v.id).value.edges
  {
    WithEdgeShape(vs, e);
    assert v.id in Ids(WithEdge(vs, e));
    if HasId(vs, e.into) && HasId(vs, e.out) && (v.id == e.into || v.id == e.out) {
      WithEdgeEndpoint(vs, e, v.id);
    } else if HasId(vs, e.into) && HasId(vs, e.out) {
      WithEdgeOthers(vs, e, v);
    }
  }

  /** Every edge after createVertex is the creation edge or an edge some old vertex holds. */
  lemma CreatedOldEdge(vs: set<SessionVertex>, id: string, creatorId: string, node: string,
                       v: SessionVertex, f: SessionEdge)
    requires UniqueIds(vs) && !HasId(vs, id)
    requires v in WithCreated(vs, id, creatorId, node) && f in v.edges && f != SessionEdge(creatorId, id)
    ensures exists u :: u in vs && f in u.edges
  {
    var n := SessionVertex(id, node, []);
    FreshVertexKeepsUnique(vs, n);
    WithEdgeOldEdge(vs + {n}, SessionEdge(creatorId, id), v, f);
    var u := Lookup(vs + {n}, v.id).value;
    assert u in vs;
  }

  // ---------------------------------------------------------------------------
  // Graph.addVertex is a HashSet add

  /**
    addVertex does not replace: a vertex with an id already present but different edges
    or node is added beside the old one, and the graph no longer has one vertex per id.
   */
  lemma AddVertexDuplicates(vs: set<SessionVertex>, w: SessionVertex, v: SessionVertex)
    requires w in vs && w.id == v.id && w != v
    ensures !UniqueIds(vs + {v})
  {
    assert w in vs + {v} && v in vs + {v};
  }

  /** addVertex(v) twice with a fresh id leaves exactly one vertex with that id. */
  lemma AddVertexTwice(vs: set<SessionVertex>, v: SessionVertex)
    requires UniqueIds(vs) && !HasId(vs, v.id)
    ensures vs + {v} + {v} == vs + {v}
    ensures UniqueIds(vs + {v} + {v})
    ensures forall w :: w in vs + {v} + {v} && w.id == v.id ==> w == v
  {
    FreshVertexKeepsUnique(vs, v);
  }

  // ---------------------------------------------------------------------------
  // The mutable graph

  class Graph {
    var vertices: set<SessionVertex>

    ghost predicate Valid()
      reads this
    {
      UniqueIds(vertices)
    }

    constructor ()
      ensures Valid() && vertices == {}
    {
      vertices := {};
    }

    /** The fresh copy a store read hands back (the graph is stored serialized). */
    constructor Copy(vs: set<SessionVertex>)
      ensures vertices == vs
    {
      vertices := vs;
    }

    method AddVertex(v: SessionVertex)
      modifies this
      ensures vertices == old(vertices) + {v}
    {
      vertices := vertices + {v};
    }

    method RemoveVertex(v: SessionVertex)
      modifies this
      ensures vertices == old(vertices) - {v}
    {
      vertices := vertices - {v};
    }

    method AddEdge(e: SessionEdge)
      requires Valid()
      modifies this
      ensures Valid()
      ensures vertices == WithEdge(old(vertices), e)
    {
      WithEdgeShape(vertices, e);
      var i := Lookup(vertices, e.into);
      var o := Lookup(vertices, e.out);
      if i.Some? && o.Some? {
        RemoveVertex(i.value);
        RemoveVertex(o.value);
        AddVertex(Appended(i.value, e));
        AddVertex(Appended(o.value, e));
      }
    }

    method Clear()
      modifies this
      ensures Valid() && vertices == {}
    {
      vertices := {};
    }
  }

  /**
    createVertex(id, creatorId, node, graph). It returns the empty vertex it built, not
    the copy holding the creation edge that ends up in the graph.
   */
  method CreateVertex(id: string, creatorId: string, node: string, graph: Graph) returns (vertex: SessionVertex)
    requires graph.Valid() && !HasId(graph.vertices, id)
    modifies graph
    ensures graph.Valid()
    ensures graph.vertices == WithCreated(old(graph.vertices), id, creatorId, node)
    ensures vertex == SessionVertex(id, node, [])
  {
    var edge := SessionEdge(creatorId, id);
    vertex := SessionVertex(id, node, []);
    FreshVertexKeepsUnique(graph.vertices, vertex);
    graph.AddVertex(vertex);
    graph.AddEdge(edge);
  }
}
