/**
  HazelcastSessionStore2.findVertex: from the vertex a client's token names, find a
  vertex of the current node by a FIFO search over both ends of every incident edge.
 */
module GraphSearch {
  import opened Wrappers
  import opened SessionGraph

  /**
    A walk through the graph: it starts at a graph vertex and each next vertex is a
    graph vertex at an end of some edge of the one before, i.e. one that
    convertToVerticles yields for those edges (see Linked).
   */
  ghost predicate IsPath(vs: set<SessionVertex>, p: seq<SessionVertex>)
    ensures IsPath(vs, p) ==> |p| > 0 && p[|p| - 1] in vs
    decreases |p|
  {
    && |p| > 0
    && p[0] in vs
    && (|p| == 1 || (p[1] in vs && Touches(p[0].edges, p[1].id) && IsPath(vs, p[1..])))
  }

  /** A step of a walk is exactly a vertex that convertToVerticles yields. */
  lemma Linked(vs: set<SessionVertex>, v: SessionVertex, w: SessionVertex)
    requires UniqueIds(vs)
    ensures w in Neighbors(vs, v.edges) <==> w in vs && Touches(v.edges, w.id)
  {
  }

  /** Some walk from the vertex with id `id` ends at `w`. */
  ghost predicate ReachableFrom(vs: set<SessionVertex>, id: string, w: SessionVertex) {
    exists p: seq<SessionVertex> :: IsPath(vs, p) && p[0].id == id && p[|p| - 1] == w
  }

  /** Appending to a non-empty sequence keeps its head and appends to its tail. */
  lemma AppendParts<T>(p: seq<T>, w: T)
    requires |p| > 0
    ensures (p + [w])[0] == p[0]
    ensures (p + [w])[1..] == p[1..] + [w]
    ensures (p + [w])[1] == if |p| == 1 then w else p[1]
    ensures |p| == 1 ==> p[1..] + [w] == [w]
  {
  }

  lemma {:induction false} PathAppend(vs: set<SessionVertex>, p: seq<SessionVertex>, w: SessionVertex)
    requires IsPath(vs, p)
    requires w in vs && Touches(p[|p| - 1].edges, w.id)
    ensures IsPath(vs, p + [w])
    decreases |p|
  {
    AppendParts(p, w);
    if |p| == 1 {
      assert IsPath(vs, [w]);
    } else {
      var t := p[1..];
      assert t[|t| - 1] == p[|p| - 1];
      PathAppend(vs, t, w);
    }
  }

  /** The start vertex is reachable from itself. */
  lemma ReachableStart(vs: set<SessionVertex>, v: SessionVertex)
    requires v in vs
    ensures ReachableFrom(vs, v.id, v)
  {
    assert IsPath(vs, [v]);
  }

  /** Reachability grows along convertToVerticles. */
  lemma ReachableStep(vs: set<SessionVertex>, id: string, v: SessionVertex, w: SessionVertex)
    requires UniqueIds(vs) && ReachableFrom(vs, id, v)
    requires w in Neighbors(vs, v.edges)
    ensures ReachableFrom(vs, id, w)
  {
    var p: seq<SessionVertex> :| IsPath(vs, p) && p[0].id == id && p[|p| - 1] == v;
    Linked(vs, v, w);
    PathAppend(vs, p, w);
    assert (p + [w])[0] == p[0];
  }

  /**
    When a set holds the neighbours of a walk's first vertex and is closed under taking
    neighbours, every walk of two or more vertices ends inside it.
   */
  lemma {:induction false} ClosedWalks(vs: set<SessionVertex>, s: set<SessionVertex>, p: seq<SessionVertex>)
    requires UniqueIds(vs) && IsPath(vs, p)
    requires forall w :: w in Neighbors(vs, p[0].edges) ==> w in s
    requires forall x, w :: x in s && w in Neighbors(vs, x.edges) ==> w in s
    ensures |p| == 1 || p[|p| - 1] in s
    decreases |p|
  {
    if |p| > 1 {
      Linked(vs, p[0], p[1]);
      assert p[1] in s;
      ClosedWalks(vs, s, p[1..]);
      assert p[1..][|p| - 2] == p[|p| - 1];
    }
  }

  /** Every neighbour of a visited vertex is visited or still queued. */
  ghost predicate Frontier(vs: set<SessionVertex>, visited: set<SessionVertex>, queue: seq<SessionVertex>)
    requires UniqueIds(vs)
  {
    forall x, w :: x in visited && w in Neighbors(vs, x.edges) ==> w in visited || w in queue
  }

  /** Every vertex of `ws` is visited or still queued. */
  ghost predicate Covers(ws: seq<SessionVertex>, visited: set<SessionVertex>, queue: seq<SessionVertex>) {
    forall w :: w in ws ==> w in visited || w in queue
  }

  /** Every queued vertex is a graph vertex reachable from the vertex with id `id`. */
  ghost predicate Queued(vs: set<SessionVertex>, id: string, queue: seq<SessionVertex>)
    requires UniqueIds(vs)
  {
    forall q :: q in queue ==> q in vs && ReachableFrom(vs, id, q)
  }

  /** No visited vertex is on `node`. */
  ghost predicate OffNode(visited: set<SessionVertex>, node: string) {
    forall x :: x in visited ==> x.node != node
  }

  /** The loop invariant of findVertex's search. */
  ghost predicate SearchState(vs: set<SessionVertex>, start: SessionVertex, node: string,
                              visited: set<SessionVertex>, queue: seq<SessionVertex>)
    requires UniqueIds(vs)
  {
    && visited <= vs
    && Queued(vs, start.id, queue)
    && OffNode(visited, node)
    && Covers(Neighbors(vs, start.edges), visited, queue)
    && Frontier(vs, visited, queue)
  }

  /** The state before the first iteration: nothing visited, the start's neighbours queued. */
  lemma SearchStarts(vs: set<SessionVertex>, start: SessionVertex, node: string)
    requires UniqueIds(vs) && start in vs
    ensures SearchState(vs, start, node, {}, Neighbors(vs, start.edges))
  {
    ReachableStart(vs, start);
    forall w | w in Neighbors(vs, start.edges) ensures ReachableFrom(vs, start.id, w) {
      ReachableStep(vs, start.id, start, w);
    }
  }

  /** Dequeuing an unvisited vertex off `node`: mark it visited and queue its neighbours. */
  lemma SearchVisits(vs: set<SessionVertex>, start: SessionVertex, node: string,
                     visited: set<SessionVertex>, v: SessionVertex, rest: seq<SessionVertex>)
    requires UniqueIds(vs) && SearchState(vs, start, node, visited, [v] + rest)
    requires v !in visited && v.node != node
    ensures SearchState(vs, start, node, visited + {v}, rest + Neighbors(vs, v.edges))
  {
    var next := Neighbors(vs, v.edges);
    assert v in [v] + rest;
    forall w | w in next ensures ReachableFrom(vs, start.id, w) {
      ReachableStep(vs, start.id, v, w);
    }
    forall q | q in rest + next ensures q in vs && ReachableFrom(vs, start.id, q) {
      if q in rest { assert q in [v] + rest; }
    }
    forall w | w in Neighbors(vs, start.edges) ensures w in visited + {v} || w in rest + next {
      assert w in visited || w in [v] + rest;
    }
    forall x, w | x in visited + {v} && w in Neighbors(vs, x.edges)
      ensures w in visited + {v} || w in rest + next
    {
      if x == v {
        assert w in rest + next;
      } else {
        assert w in visited || w in [v] + rest;
      }
    }
  }

  /** Dequeuing an already visited vertex keeps the invariant. */
  lemma SearchSkips(vs: set<SessionVertex>, start: SessionVertex, node: string,
                    visited: set<SessionVertex>, v: SessionVertex, rest: seq<SessionVertex>)
    requires UniqueIds(vs) && SearchState(vs, start, node, visited, [v] + rest) && v in visited
    ensures SearchState(vs, start, node, visited, rest)
  {
    forall q | q in rest ensures q in vs && ReachableFrom(vs, start.id, q) {
      assert q in [v] + rest;
    }
    forall w | w in Neighbors(vs, start.edges) ensures w in visited || w in rest {
      assert w in visited || w in [v] + rest;
    }
    forall x, w | x in visited && w in Neighbors(vs, x.edges)
      ensures w in visited || w in rest
    {
      assert w in visited || w in [v] + rest;
    }
  }

  /**
    The search ran dry: the visited vertices hold the start's neighbours, are closed
    under taking neighbours and none of them, nor the start, is on `node`. Then no walk
    from the start ends on `node`.
   */
  lemma NoMatchOnWalks(vs: set<SessionVertex>, start: SessionVertex, visited: set<SessionVertex>, node: string)
    requires UniqueIds(vs) && start in vs && start.node != node
    requires SearchState(vs, start, node, visited, [])
    ensures forall p: seq<SessionVertex> :: IsPath(vs, p) && p[0].id == start.id ==> p[|p| - 1].node != node
  {
    forall p: seq<SessionVertex> | IsPath(vs, p) && p[0].id == start.id ensures p[|p| - 1].node != node {
      assert p[0] == start;
      ClosedWalks(vs, visited, p);
    }
  }

  /**
    findVertex(inputId, currentNode, graph). No vertex for `inputId` gives null; a start
    vertex on `currentNode` is returned at once; otherwise the FIFO search returns the
    first dequeued, not yet visited vertex on `currentNode`. The visited set starts
    empty, so the start vertex re-enters the queue through its own edges.
   */
  method FindVertex(inputId: string, currentNode: string, graph: Graph) returns (result: Option<SessionVertex>)
    requires graph.Valid()
    ensures !HasId(graph.vertices, inputId) ==> result.None?
    ensures HasId(graph.vertices, inputId) && Lookup(graph.vertices, inputId).value.node == currentNode
      ==> result == Lookup(graph.vertices, inputId)
    ensures result.Some? ==> && result.value in graph.vertices
                             && result.value.node == currentNode
                             && ReachableFrom(graph.vertices, inputId, result.value)
    ensures result.None? ==>
      forall p: seq<SessionVertex> :: IsPath(graph.vertices, p) && p[0].id == inputId ==> p[|p| - 1].node != currentNode
  {
    var vs := graph.vertices;
    var vertex := Lookup(vs, inputId);
    result := None;
    if vertex.Some? && vertex.value.id == inputId && vertex.value.node == currentNode {
      result := vertex;
      ReachableStart(vs, vertex.value);
    }
    if vertex.Some? && result.None? {
      var start := vertex.value;
      var visited: set<SessionVertex> := {};
      var queue := Neighbors(vs, start.edges);
      SearchStarts(vs, start, currentNode);
      while |queue| > 0
        invariant SearchState(vs, start, currentNode, visited, queue)
        decreases vs - visited, |queue|
      {
        var v := queue[0];
        ghost var before := queue;
        queue := queue[1..];
        assert before == [v] + queue;
        if v in visited {
          SearchSkips(vs, start, currentNode, visited, v, queue);
        } else {
          if v.node == currentNode {
            assert v in before;
            result := Some(v);
            break;
          }
          SearchVisits(vs, start, currentNode, visited, v, queue);
          visited := visited + {v};
          queue := queue + Neighbors(vs, v.edges);
        }
      }
      if result.None? {
        NoMatchOnWalks(vs, start, visited, currentNode);
      }
    }
  }
}
