/**
  TestHttpGraph: the fixture graph of three vertices and the scenario of requests that
  move between four nodes, with the result of every findVertex call stated exactly.
  The session ids and node names are parameters; any four distinct ids and four distinct
  node names behave as the literals "id1".."id4" and "node1".."node4" of the test do.
 */
module GraphFixture {
  import opened Wrappers
  import opened SessionGraph
  import opened GraphSearch

  /** The session ids and node names the test uses. */
  datatype Names = Names(id1: string, id2: string, id3: string, id4: string,
                         node1: string, node2: string, node3: string, node4: string)

  /** Four distinct ids and four distinct node names. */
  predicate Distinct(n: Names) {
    && n.id1 != n.id2 && n.id1 != n.id3 && n.id1 != n.id4
    && n.id2 != n.id3 && n.id2 != n.id4 && n.id3 != n.id4
    && n.node1 != n.node2 && n.node1 != n.node3 && n.node1 != n.node4
    && n.node2 != n.node3 && n.node2 != n.node4 && n.node3 != n.node4
  }

  /** The literals of the test. */
  const LITERALS := Names("id1", "id2", "id3", "id4", "node1", "node2", "node3", "node4")

  lemma LiteralsDistinct()
    ensures Distinct(LITERALS)
  {
    var n := LITERALS;
    assert n.id1[2] == '1' && n.id2[2] == '2' && n.id3[2] == '3' && n.id4[2] == '4';
    assert n.node1[4] == '1' && n.node2[4] == '2' && n.node3[4] == '3' && n.node4[4] == '4';
  }

  // The vertices of testCreateVertex, named by id (A for id1 .. D for id4) and by how
  // many sessions exist when they are current.
  function A1(n: Names): SessionVertex {
    SessionVertex(n.id1, n.node1, [SessionEdge(n.id1, n.id1)])
  }
  function A2(n: Names): SessionVertex {
    SessionVertex(n.id1, n.node1, [SessionEdge(n.id1, n.id1), SessionEdge(n.id1, n.id2)])
  }
  function A3(n: Names): SessionVertex {
    SessionVertex(n.id1, n.node1, [SessionEdge(n.id1, n.id1), SessionEdge(n.id1, n.id2), SessionEdge(n.id1, n.id3)])
  }
  function B2(n: Names): SessionVertex {
    SessionVertex(n.id2, n.node2, [SessionEdge(n.id1, n.id2)])
  }
  function C3(n: Names): SessionVertex {
    SessionVertex(n.id3, n.node3, [SessionEdge(n.id1, n.id3)])
  }
  function C4(n: Names): SessionVertex {
    SessionVertex(n.id3, n.node3, [SessionEdge(n.id1, n.id3), SessionEdge(n.id3, n.id4)])
  }
  function D4(n: Names): SessionVertex {
    SessionVertex(n.id4, n.node4, [SessionEdge(n.id3, n.id4)])
  }

  /** An edge appended to a one-edge list. */
  lemma SnocOne<T>(x: T, y: T)
    ensures [x] + [y] == [x, y]
  {
  }

  /** An edge appended to a two-edge list. */
  lemma SnocTwo<T>(x: T, y: T, z: T)
    ensures [x, y] + [z] == [x, y, z]
  {
  }

  /** A walk of two vertices: `b` is at an end of an edge `a` holds. */
  lemma TwoStep(vs: set<SessionVertex>, a: SessionVertex, b: SessionVertex, e: SessionEdge)
    requires UniqueIds(vs) && a in vs && b in vs && e in a.edges && (e.into == b.id || e.out == b.id)
    ensures IsPath(vs, [a, b])
  {
    assert [a, b][1..] == [b];
  }

  /** A walk of three vertices, each next one at an end of an edge the one before holds. */
  lemma ThreeStep(vs: set<SessionVertex>, a: SessionVertex, b: SessionVertex, c: SessionVertex,
                  e: SessionEdge, f: SessionEdge)
    requires UniqueIds(vs) && a in vs && b in vs && c in vs
    requires e in a.edges && (e.into == b.id || e.out == b.id)
    requires f in b.edges && (f.into == c.id || f.out == c.id)
    ensures IsPath(vs, [a, b, c])
  {
    TwoStep(vs, b, c, f);
    assert [a, b, c][1..] == [b, c];
  }

  /**
    When the only vertex on `node` is reachable from `input` along `p`, a result that
    meets findVertex's contract is that vertex.
   */
  lemma OnlyCandidate(vs: set<SessionVertex>, input: string, node: string, v: SessionVertex,
                      p: seq<SessionVertex>, r: Option<SessionVertex>)
    requires UniqueIds(vs) && v in vs && v.node == node
    requires forall w :: w in vs && w.node == node ==> w == v
    requires IsPath(vs, p) && p[0].id == input && p[|p| - 1] == v
    requires r.Some? ==> r.value in vs && r.value.node == node
    requires r.None? ==> forall q: seq<SessionVertex> :: IsPath(vs, q) && q[0].id == input ==> q[|q| - 1].node != node
    ensures r == Some(v)
  {
  }

  /** The first of three vertices is the only one on `node` when the others are elsewhere. */
  lemma OnlyFirstOfThree(vs: set<SessionVertex>, v: SessionVertex, b: SessionVertex, c: SessionVertex, node: string)
    requires vs == {v, b, c} && b.node != node && c.node != node
    ensures forall w :: w in vs && w.node == node ==> w == v
  {
  }

  /** The first of two vertices is the only one on `node` when the second is elsewhere. */
  lemma OnlyFirstOfTwo(vs: set<SessionVertex>, v: SessionVertex, b: SessionVertex, node: string)
    requires vs == {v, b} && b.node != node
    ensures forall w :: w in vs && w.node == node ==> w == v
  {
  }

  /** The last of three vertices is the only one on `node` when the others are elsewhere. */
  lemma OnlyLastOfThree(vs: set<SessionVertex>, a: SessionVertex, b: SessionVertex, v: SessionVertex, node: string)
    requires vs == {a, b, v} && a.node != node && b.node != node
    ensures forall w :: w in vs && w.node == node ==> w == v
  {
  }

  /** The last of four vertices is the only one on `node` when the others are elsewhere. */
  lemma OnlyLastOfFour(vs: set<SessionVertex>, a: SessionVertex, b: SessionVertex, c: SessionVertex, v: SessionVertex,
                       node: string)
    requires vs == {a, b, c, v} && a.node != node && b.node != node && c.node != node
    ensures forall w :: w in vs && w.node == node ==> w == v
  {
  }

  /** With no vertex on `node`, a result that meets findVertex's contract is null. */
  lemma NoCandidate(vs: set<SessionVertex>, node: string, r: Option<SessionVertex>)
    requires forall w :: w in vs ==> w.node != node
    requires r.Some? ==> r.value in vs && r.value.node == node
    ensures r.None?
  {
  }

  /** Replacing one member of a three-member set. */
  lemma ReplaceOne<T>(p: T, q: T, r: T, p': T)
    requires p != q && p != r
    ensures {p, q, r} - {p} - {p} + {p'} + {p'} == {p', q, r}
  {
  }

  /** Replacing two members of a three-member set, the third kept. */
  lemma ReplaceTwo<T>(p: T, q: T, r: T, p': T, q': T)
    requires r != p && r != q
    ensures {p, q, r} - {p} - {q} + {p'} + {q'} == {p', q', r}
  {
  }

  /** Replacing the last member of a set of three and adding a new one. */
  lemma ReplaceLastOfThree<T>(p: T, q: T, r: T, r': T, n: T)
    requires p != r && q != r
    ensures {p, q, r} - {r} + {r'} + {n} == {p, q, r', n}
  {
  }

  /** Replacing the first member of a set of two and adding a new one. */
  lemma ReplaceFirstOfTwo<T>(p: T, q: T, p': T, n: T)
    requires p != q
    ensures {p, q} - {p} + {p'} + {n} == {p', q, n}
  {
  }

  /** Three vertices with distinct ids. */
  lemma ThreeUnique(u: SessionVertex, v: SessionVertex, w: SessionVertex)
    requires u.id != v.id && u.id != w.id && v.id != w.id
    ensures UniqueIds({u, v, w})
  {
  }

  /** addEdge on a graph of three vertices whose third is not an end of the edge. */
  lemma EdgeOnThree(e: SessionEdge, i: SessionVertex, o: SessionVertex, r: SessionVertex)
    requires UniqueIds({i, o, r}) && i.id == e.into && o.id == e.out && r.id != i.id && r.id != o.id
    ensures WithEdge({i, o, r}, e) == {Appended(i, e), Appended(o, e), r}
  {
    WithEdgeAt({i, o, r}, e, i, o);
    ReplaceTwo(i, o, r, Appended(i, e), Appended(o, e));
  }

  /** init's first edge (id1,id1): a loop on the vertex of id1. */
  lemma FirstEdge(id1: string, id2: string, id3: string, n1: string, n2: string, n3: string)
    requires id1 != id2 && id1 != id3 && id2 != id3
    ensures UniqueIds({SessionVertex(id1, n1, []), SessionVertex(id2, n2, []), SessionVertex(id3, n3, [])})
    ensures WithEdge({SessionVertex(id1, n1, []), SessionVertex(id2, n2, []), SessionVertex(id3, n3, [])},
                     SessionEdge(id1, id1))
         == {SessionVertex(id1, n1, [SessionEdge(id1, id1)]), SessionVertex(id2, n2, []), SessionVertex(id3, n3, [])}
  {
    var v1, v2, v3 := SessionVertex(id1, n1, []), SessionVertex(id2, n2, []), SessionVertex(id3, n3, []);
    var e := SessionEdge(id1, id1);
    ThreeUnique(v1, v2, v3);
    WithEdgeAt({v1, v2, v3}, e, v1, v1);
    ReplaceOne(v1, v2, v3, Appended(v1, e));
    assert [] + [e] == [e];
  }

  /** init's second edge (id1,id2). */
  lemma SecondEdge(id1: string, id2: string, id3: string, n1: string, n2: string, n3: string)
    requires id1 != id2 && id1 != id3 && id2 != id3
    ensures UniqueIds({SessionVertex(id1, n1, [SessionEdge(id1, id1)]), SessionVertex(id2, n2, []), SessionVertex(id3, n3, [])})
    ensures WithEdge({SessionVertex(id1, n1, [SessionEdge(id1, id1)]), SessionVertex(id2, n2, []), SessionVertex(id3, n3, [])},
                     SessionEdge(id1, id2))
         == {SessionVertex(id1, n1, [SessionEdge(id1, id1), SessionEdge(id1, id2)]),
             SessionVertex(id2, n2, [SessionEdge(id1, id2)]), SessionVertex(id3, n3, [])}
  {
    var e1, e := SessionEdge(id1, id1), SessionEdge(id1, id2);
    var v1, v2, v3 := SessionVertex(id1, n1, [e1]), SessionVertex(id2, n2, []), SessionVertex(id3, n3, []);
    ThreeUnique(v1, v2, v3);
    assert {v1, v2, v3} == {v2, v1, v3};
    EdgeOnThree(e, v2, v1, v3);
    SnocOne(e1, e);
    assert [] + [e] == [e];
  }

  /** init's third edge (id1,id3). */
  lemma ThirdEdge(id1: string, id2: string, id3: string, n1: string, n2: string, n3: string)
    requires id1 != id2 && id1 != id3 && id2 != id3
    ensures UniqueIds({SessionVertex(id1, n1, [SessionEdge(id1, id1), SessionEdge(id1, id2)]),
                       SessionVertex(id2, n2, [SessionEdge(id1, id2)]), SessionVertex(id3, n3, [])})
    ensures WithEdge({SessionVertex(id1, n1, [SessionEdge(id1, id1), SessionEdge(id1, id2)]),
                      SessionVertex(id2, n2, [SessionEdge(id1, id2)]), SessionVertex(id3, n3, [])},
                     SessionEdge(id1, id3))
         == {SessionVertex(id1, n1, [SessionEdge(id1, id1), SessionEdge(id1, id2), SessionEdge(id1, id3)]),
             SessionVertex(id2, n2, [SessionEdge(id1, id2)]),
             SessionVertex(id3, n3, [SessionEdge(id1, id3)])}
  {
    var e1, e2, e := SessionEdge(id1, id1), SessionEdge(id1, id2), SessionEdge(id1, id3);
    var v1, v2, v3 := SessionVertex(id1, n1, [e1, e2]), SessionVertex(id2, n2, [e2]), SessionVertex(id3, n3, []);
    ThreeUnique(v1, v2, v3);
    assert {v1, v2, v3} == {v3, v1, v2};
    EdgeOnThree(e, v3, v1, v2);
    SnocTwo(e1, e2, e);
    assert [] + [e] == [e];
    assert {Appended(v3, e), Appended(v1, e), v2} == {Appended(v1, e), v2, Appended(v3, e)};
  }

  class TestHttpGraph {
    var graph: Graph

    constructor ()
      ensures fresh(graph) && graph.Valid() && graph.vertices == {}
    {
      graph := new Graph();
    }

    /**
      init: three vertices with no edges, then the edges (id1,id1), (id1,id2) and
      (id1,id3): the graph is A3, B2, C3.
     */
    method Init(n: Names)
      requires Distinct(n)
      modifies this
      ensures fresh(graph) && graph.Valid()
      ensures graph.vertices == {A3(n), B2(n), C3(n)}
    {
      graph := new Graph();
      graph.AddVertex(SessionVertex(n.id1, n.node1, []));
      graph.AddVertex(SessionVertex(n.id2, n.node2, []));
      graph.AddVertex(SessionVertex(n.id3, n.node3, []));
      assert graph.vertices == {SessionVertex(n.id1, n.node1, []), SessionVertex(n.id2, n.node2, []), SessionVertex(n.id3, n.node3, [])};
      FirstEdge(n.id1, n.id2, n.id3, n.node1, n.node2, n.node3);
      graph.AddEdge(SessionEdge(n.id1, n.id1));
      SecondEdge(n.id1, n.id2, n.id3, n.node1, n.node2, n.node3);
      graph.AddEdge(SessionEdge(n.id1, n.id2));
      ThirdEdge(n.id1, n.id2, n.id3, n.node1, n.node2, n.node3);
      graph.AddEdge(SessionEdge(n.id1, n.id3));
    }

    /** testFirstThenSecondNode: a request with token id2 on node1 finds the vertex of id1. */
    method TestFirstThenSecondNode(n: Names) returns (result: Option<SessionVertex>)
      requires Distinct(n)
      modifies this
      ensures result == Some(A3(n))
    {
      Init(n);
      TwoStep(graph.vertices, B2(n), A3(n), SessionEdge(n.id1, n.id2));
      result := FindVertex(n.id2, n.node1, graph);
      OnlyFirstOfThree(graph.vertices, A3(n), B2(n), C3(n), n.node1);
      OnlyCandidate(graph.vertices, n.id2, n.node1, A3(n), [B2(n), A3(n)], result);
    }

    /**
      testCreateVertex on the cleared graph. A client opens id1 on node1, then moves to
      node2 (minting id2), back to node1 with id2, to node3 with id1 (minting id3), to node3
      with id2, to node4 with id3 (minting id4) and to node4 with id1. The third, fifth and
      seventh searches find, over one, two and two hops, the vertex minted on that node.
     */
    method TestCreateVertex(n: Names)
      returns (r1: Option<SessionVertex>, r2: Option<SessionVertex>, r3: Option<SessionVertex>,
               r4: Option<SessionVertex>, r5: Option<SessionVertex>, r6: Option<SessionVertex>,
               r7: Option<SessionVertex>)
      requires Distinct(n)
      modifies this
      ensures r1.None? && r2.None? && r4.None? && r6.None?
      ensures r3 == Some(A2(n))
      ensures r5 == Some(C3(n))
      ensures r7 == Some(D4(n))
    {
      Init(n);
      graph.Clear();
      r1 := OpenOnNode1(n);
      r2 := MoveToNode2(n);
      r3 := BackToNode1(n);
      r4 := MoveToNode3(n);
      r5 := Node3WithId2(n);
      r6 := MoveToNode4(n);
      r7 := Node4WithId1(n);
    }

    /** On the empty graph id1 is unknown; it is then opened as a root on node1. */
    method OpenOnNode1(n: Names) returns (r: Option<SessionVertex>)
      requires graph.Valid() && graph.vertices == {}
      modifies graph
      ensures graph.Valid() && graph.vertices == {A1(n)}
      ensures r.None?
    {
      r := FindVertex(n.id1, n.node1, graph);
      var _ := CreateVertex(n.id1, n.id1, n.node1, graph);
      CreatedRootSet({}, n.id1, n.node1);
    }

    /** id1 on node2: nothing there, so id2 is minted on node2 from id1. */
    method MoveToNode2(n: Names) returns (r: Option<SessionVertex>)
      requires Distinct(n) && graph.Valid() && graph.vertices == {A1(n)}
      modifies graph
      ensures graph.Valid() && graph.vertices == {A2(n), B2(n)}
      ensures r.None?
    {
      r := FindVertex(n.id1, n.node2, graph);
      NoCandidate(graph.vertices, n.node2, r);
      var _ := CreateVertex(n.id2, n.id1, n.node2, graph);
      CreatedFromCreator({A1(n)}, n.id2, A1(n), n.node2);
      SnocOne(SessionEdge(n.id1, n.id1), SessionEdge(n.id1, n.id2));
    }

    /** id2 on node1: one hop back to the vertex of id1. */
    method BackToNode1(n: Names) returns (r: Option<SessionVertex>)
      requires Distinct(n) && graph.Valid() && graph.vertices == {A2(n), B2(n)}
      ensures r == Some(A2(n))
    {
      TwoStep(graph.vertices, B2(n), A2(n), SessionEdge(n.id1, n.id2));
      r := FindVertex(n.id2, n.node1, graph);
      OnlyFirstOfTwo(graph.vertices, A2(n), B2(n), n.node1);
      OnlyCandidate(graph.vertices, n.id2, n.node1, A2(n), [B2(n), A2(n)], r);
    }

    /** id1 on node3: nothing there, so id3 is minted on node3 from id1. */
    method MoveToNode3(n: Names) returns (r: Option<SessionVertex>)
      requires Distinct(n) && graph.Valid() && graph.vertices == {A2(n), B2(n)}
      modifies graph
      ensures graph.Valid() && graph.vertices == {A3(n), B2(n), C3(n)}
      ensures r.None?
    {
      r := FindVertex(n.id1, n.node3, graph);
      NoCandidate(graph.vertices, n.node3, r);
      var _ := CreateVertex(n.id3, n.id1, n.node3, graph);
      CreatedFromCreator({A2(n), B2(n)}, n.id3, A2(n), n.node3);
      SnocTwo(SessionEdge(n.id1, n.id1), SessionEdge(n.id1, n.id2), SessionEdge(n.id1, n.id3));
      ReplaceFirstOfTwo(A2(n), B2(n), A3(n), C3(n));
    }

    /** id2 on node3: two hops, through the vertex of id1. */
    method Node3WithId2(n: Names) returns (r: Option<SessionVertex>)
      requires Distinct(n) && graph.Valid() && graph.vertices == {A3(n), B2(n), C3(n)}
      ensures r == Some(C3(n))
    {
      ThreeStep(graph.vertices, B2(n), A3(n), C3(n), SessionEdge(n.id1, n.id2), SessionEdge(n.id1, n.id3));
      r := FindVertex(n.id2, n.node3, graph);
      OnlyLastOfThree(graph.vertices, A3(n), B2(n), C3(n), n.node3);
      OnlyCandidate(graph.vertices, n.id2, n.node3, C3(n), [B2(n), A3(n), C3(n)], r);
    }

    /** id3 on node4: nothing there, so id4 is minted on node4 from id3. */
    method MoveToNode4(n: Names) returns (r: Option<SessionVertex>)
      requires Distinct(n) && graph.Valid() && graph.vertices == {A3(n), B2(n), C3(n)}
      modifies graph
      ensures graph.Valid() && graph.vertices == {A3(n), B2(n), C4(n), D4(n)}
      ensures r.None?
    {
      r := FindVertex(n.id3, n.node4, graph);
      NoCandidate(graph.vertices, n.node4, r);
      var _ := CreateVertex(n.id4, n.id3, n.node4, graph);
      CreatedFromCreator({A3(n), B2(n), C3(n)}, n.id4, C3(n), n.node4);
      SnocOne(SessionEdge(n.id1, n.id3), SessionEdge(n.id3, n.id4));
      ReplaceLastOfThree(A3(n), B2(n), C3(n), C4(n), D4(n));
    }

    /** id1 on node4: two hops, through the vertex of id3. */
    method Node4WithId1(n: Names) returns (r: Option<SessionVertex>)
      requires Distinct(n) && graph.Valid() && graph.vertices == {A3(n), B2(n), C4(n), D4(n)}
      ensures r == Some(D4(n))
    {
      ThreeStep(graph.vertices, A3(n), C4(n), D4(n), SessionEdge(n.id1, n.id3), SessionEdge(n.id3, n.id4));
      r := FindVertex(n.id1, n.node4, graph);
      OnlyLastOfFour(graph.vertices, A3(n), B2(n), C4(n), D4(n), n.node4);
      OnlyCandidate(graph.vertices, n.id1, n.node4, D4(n), [A3(n), C4(n), D4(n)], r);
    }
  }

  /** The scenario with the test's own literals. */
  method TestCreateVertexLiterals() returns (r3: Option<SessionVertex>, r5: Option<SessionVertex>, r7: Option<SessionVertex>)
    ensures r3 == Some(SessionVertex("id1", "node1", [SessionEdge("id1", "id1"), SessionEdge("id1", "id2")]))
    ensures r5 == Some(SessionVertex("id3", "node3", [SessionEdge("id1", "id3")]))
    ensures r7 == Some(SessionVertex("id4", "node4", [SessionEdge("id3", "id4")]))
  {
    LiteralsDistinct();
    var test := new TestHttpGraph();
    var r1, r2, r4, r6;
    r1, r2, r3, r4, r5, r6, r7 := test.TestCreateVertex(LITERALS);
  }
}
