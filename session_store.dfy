/**
  The session-identity half of HazelcastSessionStore2. All nodes share one distributed
  map. It holds the affinity graph under GRAPH, one alias entry per session id under
  ID_PREFIX + id whose value is the id of the session's master, and the attributes
  under master + "-" + name. A session minted on failover copies the alias of the token
  the client presented, so its attributes stay where they were.
 */
module SessionStore {
  import opened Wrappers
  import opened SessionGraph
  import opened GraphSearch
  import opened SessionToken

  const ID_PREFIX := "jsessionid-"
  const GRAPH := "session-graph"

  /**
    A value of the distributed map: an alias's master id, the serialized graph, or any
    other serialized attribute value.
   */
  datatype StoreVal = Text(s: string) | GraphBlob(vertices: set<SessionVertex>) | Blob(data: seq<bv8>)

  type Store = map<string, StoreVal>

  /**
    What getSessionId reads from a request: the id of the container's HttpSession when
    one already exists, the cookies and the request URI.
   */
  datatype Request = Request(localSession: Option<string>, cookies: seq<Cookie>, uri: string)

  /** The key of the alias entry of session `id`. */
  function AliasKey(id: string): string {
    ID_PREFIX + id
  }

  lemma AliasKeyInjective(a: string, b: string)
    ensures AliasKey(a) == AliasKey(b) <==> a == b
  {
    if AliasKey(a) == AliasKey(b) {
      assert a == AliasKey(a)[|ID_PREFIX|..];
      assert b == AliasKey(b)[|ID_PREFIX|..];
    }
  }

  lemma AliasKeyNotGraph(id: string)
    ensures AliasKey(id) != GRAPH
  {
    assert AliasKey(id)[0] == 'j';
  }

  /** Keys the store keeps its own bookkeeping under. */
  predicate ReservedKey(k: string) {
    k == GRAPH || ID_PREFIX <= k
  }

  /** The value stored under the alias key of `id`, if any. */
  function Alias(st: Store, id: string): Option<StoreVal> {
    if AliasKey(id) in st then Some(st[AliasKey(id)]) else None
  }

  /** The graph as stored; a missing or foreign GRAPH entry reads as no vertices. */
  function GraphOf(st: Store): set<SessionVertex> {
    if GRAPH in st && st[GRAPH].GraphBlob? then st[GRAPH].vertices else {}
  }

  /** `m` is a master: its alias names itself. */
  predicate SelfMapped(st: Store, m: string) {
    AliasKey(m) in st && st[AliasKey(m)] == Text(m)
  }

  /** Every alias holds a master's id. */
  ghost predicate AliasesToMasters(st: Store) {
    forall id :: AliasKey(id) in st ==> st[AliasKey(id)].Text? && SelfMapped(st, st[AliasKey(id)].s)
  }

  /** Every graph vertex has an alias. */
  predicate GraphAliased(st: Store) {
    forall v :: v in GraphOf(st) ==> AliasKey(v.id) in st
  }

  /** The two ends of every edge in the graph share one alias value. */
  predicate EdgesAgree(st: Store) {
    forall v, e :: v in GraphOf(st) && e in v.edges ==> Alias(st, e.out) == Alias(st, e.into)
  }

  /** The invariant getSessionId keeps. */
  ghost predicate Consistent(st: Store) {
    && GRAPH in st && st[GRAPH].GraphBlob?
    && UniqueIds(GraphOf(st))
    && Symmetric(GraphOf(st))
    && AliasesToMasters(st)
    && GraphAliased(st)
    && EdgesAgree(st)
  }

  /** A new HttpSession id: no alias and no vertex has it yet. */
  predicate Fresh(st: Store, id: string) {
    AliasKey(id) !in st && !HasId(GraphOf(st), id)
  }

  /**
    The text `(String) store.get(ID_PREFIX + id)` becomes in a string concatenation: the
    master id, or "null" for a missing alias. The cast needs the alias to be a string.
   */
  function MasterText(st: Store, id: string): string
    requires AliasKey(id) in st ==> st[AliasKey(id)].Text?
  {
    if AliasKey(id) in st then st[AliasKey(id)].s else "null"
  }

  /** The key getKey builds for attribute `name` of session `id`. */
  function AttributeKey(st: Store, id: string, name: string): string
    requires AliasKey(id) in st ==> st[AliasKey(id)].Text?
  {
    MasterText(st, id) + "-" + name
  }

  /**
    The store after getSessionId minted `newId` on failover from `token`: the alias of
    `token` is copied to `newId`, and the graph gets a vertex for `newId` on `node`
    created by `token`.
   */
  ghost function Derived(st: Store, newId: string, token: string, node: string): Store
    requires Consistent(st) && Fresh(st, newId) && AliasKey(token) in st
  {
    st[AliasKey(newId) := st[AliasKey(token)]][GRAPH := GraphBlob(WithCreated(GraphOf(st), newId, token, node))]
  }

  /** The store after getSessionId opened a new session `newId`: its own master, a root vertex. */
  ghost function Rooted(st: Store, newId: string, node: string): Store
    requires Consistent(st) && Fresh(st, newId)
  {
    st[AliasKey(newId) := Text(newId)][GRAPH := GraphBlob(WithCreated(GraphOf(st), newId, newId, node))]
  }

  /** No walk from the vertex with id `token` ends on `node`. */
  ghost predicate NoMatch(vs: set<SessionVertex>, token: string, node: string)
    requires UniqueIds(vs)
  {
    forall p: seq<SessionVertex> :: IsPath(vs, p) && p[0].id == token ==> p[|p| - 1].node != node
  }

  /**
    getSessionId(request, create) on `node`, with `newId` the id a new HttpSession would
    get, takes the store from `st` to `st'` and answers `id`:
    - an existing HttpSession gives its id, and nothing changes;
    - a token whose alias exists gives the id of a vertex on `node` reachable from the
      token's vertex (the token's own vertex when it is on `node`), with nothing changed;
      when there is none, `newId` is minted from the token even though `create` is false;
    - otherwise `create` mints `newId` as a new session, and without it the answer is null.
   */
  ghost predicate Resolves(st: Store, st': Store, node: string, request: Request, create: bool,
                           newId: string, id: Option<string>)
    requires Consistent(st) && Fresh(st, newId)
  {
    var token := JsessionId(request.cookies, request.uri);
    var g := GraphOf(st);
    if request.localSession.Some? then
      id == request.localSession && st' == st
    else if token.Some? && AliasKey(token.value) in st then
      if NoMatch(g, token.value, node) then
        id == Some(newId) && st' == Derived(st, newId, token.value, node)
      else
        && st' == st
        && id.Some?
        && (exists w :: w in g && w.id == id.value && w.node == node && ReachableFrom(g, token.value, w))
        && (HasId(g, token.value) && Lookup(g, token.value).value.node == node ==> id == token)
    else if create then
      id == Some(newId) && st' == Rooted(st, newId, node)
    else
      id.None? && st' == st
  }

  // ---------------------------------------------------------------------------
  // The invariant is kept

  /** The ends of the graph's edges all have vertices, none of them `newId`. */
  lemma EdgeEndsOld(st: Store, newId: string, u: SessionVertex, f: SessionEdge)
    requires Consistent(st) && Fresh(st, newId) && u in GraphOf(st) && f in u.edges
    ensures f.out != newId && f.into != newId
    ensures AliasKey(f.out) in st && AliasKey(f.into) in st
  {
    var g := GraphOf(st);
    assert Recorded(g, f);
    assert Lookup(g, f.out).value in g && Lookup(g, f.into).value in g;
  }

  /** The graph part of the invariant for a store whose graph was replaced by a created one. */
  lemma CreatedConsistent(st: Store, st': Store, newId: string, creator: string, node: string)
    requires Consistent(st) && Fresh(st, newId)
    requires GRAPH in st' && st'[GRAPH] == GraphBlob(WithCreated(GraphOf(st), newId, creator, node))
    requires AliasKey(newId) in st' && Alias(st', creator) == Alias(st', newId)
    requires forall id :: id != newId ==> Alias(st', id) == Alias(st, id)
    requires AliasesToMasters(st')
    ensures Consistent(st')
  {
    var g := GraphOf(st);
    var g' := GraphOf(st');
    CreatedVertex(g, newId, creator, node);
    CreatedSymmetric(g, newId, creator, node);
    forall v | v in g' ensures AliasKey(v.id) in st' {
      assert v.id in Ids(g');
      if v.id != newId {
        assert Alias(st', v.id) == Alias(st, v.id);
        assert v.id in Ids(g);
      }
    }
    forall v, e | v in g' && e in v.edges ensures Alias(st', e.out) == Alias(st', e.into) {
      if e != SessionEdge(creator, newId) {
        CreatedOldEdge(g, newId, creator, node, v, e);
        var u :| u in g && e in u.edges;
        EdgeEndsOld(st, newId, u, e);
        assert Alias(st', e.out) == Alias(st, e.out);
        assert Alias(st', e.into) == Alias(st, e.into);
      }
    }
  }

  /** Minting on failover keeps the invariant, and `newId` gets the token's alias. */
  lemma DerivedConsistent(st: Store, newId: string, token: string, node: string)
    requires Consistent(st) && Fresh(st, newId) && AliasKey(token) in st
    ensures Consistent(Derived(st, newId, token, node))
    ensures Alias(Derived(st, newId, token, node), newId) == Alias(st, token)
    ensures forall id :: id != newId ==> Alias(Derived(st, newId, token, node), id) == Alias(st, id)
  {
    var st' := Derived(st, newId, token, node);
    AliasKeyNotGraph(newId);
    forall id | id != newId ensures Alias(st', id) == Alias(st, id) {
      AliasKeyInjective(id, newId);
      AliasKeyNotGraph(id);
    }
    assert token != newId;
    var m := st[AliasKey(token)].s;
    assert SelfMapped(st, m);
    assert m != newId;
    forall id | AliasKey(id) in st'
      ensures st'[AliasKey(id)].Text? && SelfMapped(st', st'[AliasKey(id)].s)
    {
      AliasKeyNotGraph(id);
      AliasKeyInjective(id, newId);
      if id != newId {
        assert Alias(st', id) == Alias(st, id);
        var n := st[AliasKey(id)].s;
        assert SelfMapped(st, n);
        AliasKeyNotGraph(n);
        AliasKeyInjective(n, newId);
      } else {
        AliasKeyNotGraph(m);
        AliasKeyInjective(m, newId);
      }
    }
    CreatedConsistent(st, st', newId, token, node);
  }

  /** Opening a new session keeps the invariant, and `newId` becomes its own master. */
  lemma RootedConsistent(st: Store, newId: string, node: string)
    requires Consistent(st) && Fresh(st, newId)
    ensures Consistent(Rooted(st, newId, node))
    ensures SelfMapped(Rooted(st, newId, node), newId)
    ensures forall id :: id != newId ==> Alias(Rooted(st, newId, node), id) == Alias(st, id)
  {
    var st' := Rooted(st, newId, node);
    AliasKeyNotGraph(newId);
    forall id | id != newId ensures Alias(st', id) == Alias(st, id) {
      AliasKeyInjective(id, newId);
      AliasKeyNotGraph(id);
    }
    forall id | AliasKey(id) in st'
      ensures st'[AliasKey(id)].Text? && SelfMapped(st', st'[AliasKey(id)].s)
    {
      AliasKeyNotGraph(id);
      AliasKeyInjective(id, newId);
      if id != newId {
        assert Alias(st', id) == Alias(st, id);
        var n := st[AliasKey(id)].s;
        assert SelfMapped(st, n);
        AliasKeyNotGraph(n);
        AliasKeyInjective(n, newId);
      }
    }
    CreatedConsistent(st, st', newId, newId, node);
  }

  /** getSessionId keeps the invariant. */
  lemma ResolvesConsistent(st: Store, st': Store, node: string, request: Request, create: bool,
                           newId: string, id: Option<string>)
    requires Consistent(st) && Fresh(st, newId)
    requires Resolves(st, st', node, request, create, newId, id)
    ensures Consistent(st')
  {
    var token := JsessionId(request.cookies, request.uri);
    if request.localSession.None? {
      if token.Some? && AliasKey(token.value) in st {
        if NoMatch(GraphOf(st), token.value, node) {
          DerivedConsistent(st, newId, token.value, node);
        }
      } else if create {
        RootedConsistent(st, newId, node);
      }
    }
  }

  // ---------------------------------------------------------------------------
  // The attribute namespace follows the client

  /** Every walk through a consistent store's graph stays among one alias value. */
  lemma {:induction false} PathSameAlias(st: Store, p: seq<SessionVertex>)
    requires Consistent(st) && IsPath(GraphOf(st), p)
    ensures Alias(st, p[0].id) == Alias(st, p[|p| - 1].id)
    decreases |p|
  {
    var g := GraphOf(st);
    if |p| > 1 {
      var v, w := p[0], p[1];
      assert w in g && Touches(v.edges, w.id);
      var e :| e in v.edges && (e.into == w.id || e.out == w.id);
      assert v.id == e.out || v.id == e.into;
      assert Alias(st, e.out) == Alias(st, e.into);
      PathSameAlias(st, p[1..]);
      assert p[1..][|p| - 2] == p[|p| - 1];
    }
  }

  /**
    Whenever the client presents a token with an alias, the session id getSessionId
    answers has the same alias afterwards as the token had before: wherever the request
    lands, its attributes live under the same master.
   */
  lemma ResolvedSameMaster(st: Store, st': Store, node: string, request: Request, create: bool,
                           newId: string, id: Option<string>, name: string)
    requires Consistent(st) && Fresh(st, newId)
    requires Resolves(st, st', node, request, create, newId, id)
    requires request.localSession.None?
    requires JsessionId(request.cookies, request.uri).Some?
    requires AliasKey(JsessionId(request.cookies, request.uri).value) in st
    ensures Consistent(st') && id.Some?
    ensures Alias(st', id.value) == Alias(st, JsessionId(request.cookies, request.uri).value)
    ensures AttributeKey(st', id.value, name) == AttributeKey(st, JsessionId(request.cookies, request.uri).value, name)
  {
    ResolvesConsistent(st, st', node, request, create, newId, id);
    var token := JsessionId(request.cookies, request.uri).value;
    var g := GraphOf(st);
    if NoMatch(g, token, node) {
      DerivedConsistent(st, newId, token, node);
    } else {
      var w :| w in g && w.id == id.value && w.node == node && ReachableFrom(g, token, w);
      var p: seq<SessionVertex> :| IsPath(g, p) && p[0].id == token && p[|p| - 1] == w;
      PathSameAlias(st, p);
    }
  }

  /**
    After a node started and reset the graph, a token can keep its alias but lose its
    vertex. The search then finds nothing, and the minted vertex gets no creation edge,
    because addEdge ignores an edge with a missing end.
   */
  lemma ResolveAfterReset(st: Store, newId: string, token: string, node: string)
    requires Consistent(st) && Fresh(st, newId) && AliasKey(token) in st && !HasId(GraphOf(st), token)
    ensures NoMatch(GraphOf(st), token, node)
    ensures GraphOf(Derived(st, newId, token, node)) == GraphOf(st) + {SessionVertex(newId, node, [])}
  {
    assert token != newId;
    CreatedOrphan(GraphOf(st), newId, token, node);
    // every walk starts at a graph vertex, and no vertex has the id `token`
    assert forall p: seq<SessionVertex> :: IsPath(GraphOf(st), p) ==> p[0] in GraphOf(st);
  }

  /** getSessionId writes only the store's own keys: every attribute entry is left as it was. */
  lemma ResolvesKeepsAttributes(st: Store, st': Store, node: string, request: Request, create: bool,
                                newId: string, id: Option<string>, k: string)
    requires Consistent(st) && Fresh(st, newId)
    requires Resolves(st, st', node, request, create, newId, id)
    requires !ReservedKey(k)
    ensures k in st' <==> k in st
    ensures k in st ==> st'[k] == st[k]
  {
    assert k != AliasKey(newId);
  }

  /** A newly opened session is its own master, so its attributes are keyed by its own id. */
  lemma RootedOwnMaster(st: Store, newId: string, node: string, name: string)
    requires Consistent(st) && Fresh(st, newId)
    ensures Consistent(Rooted(st, newId, node))
    ensures AttributeKey(Rooted(st, newId, node), newId, name) == newId + "-" + name
  {
    RootedConsistent(st, newId, node);
  }

  /** Every session a vertex stands for has an alias, so its attribute key never starts with "null". */
  lemma VertexHasMaster(st: Store, v: SessionVertex, name: string)
    requires Consistent(st) && v in GraphOf(st)
    ensures Alias(st, v.id).Some?
    ensures SelfMapped(st, MasterText(st, v.id))
    ensures AttributeKey(st, v.id, name) == st[AliasKey(v.id)].s + "-" + name
  {
  }

  /**
    An attribute key names a reserved entry only for a master called "session" (the key
    "session-graph") or starting with "jsessionid" (an alias key).
   */
  lemma ReservedAttributeKey(m: string, name: string)
    requires ReservedKey(m + "-" + name)
    ensures m == "session" || "jsessionid" <= m
  {
    var k := m + "-" + name;
    assert k[|m|] == '-';
    if k == GRAPH {
      assert forall i :: 0 <= i < |GRAPH| && i != 7 ==> GRAPH[i] != '-';
      assert |m| == 7;
      assert m == k[..7];
    } else {
      assert k[..|ID_PREFIX|] == ID_PREFIX;
      if |m| < 10 {
        // k[|m|] is the '-' after m, which "jsessionid" has no room for
        assert false;
      }
      assert m[..10] == k[..10];
    }
  }

  /** An attribute write to a key that is not reserved keeps the invariant. */
  lemma AttributeWriteConsistent(st: Store, k: string, value: StoreVal)
    requires Consistent(st) && !ReservedKey(k)
    ensures Consistent(st[k := value])
    ensures Consistent(st - {k})
  {
    var a, b := st[k := value], st - {k};
    forall id ensures Alias(a, id) == Alias(st, id) && Alias(b, id) == Alias(st, id) {
      assert AliasKey(id) != k;
    }
    assert GraphOf(a) == GraphOf(st) && GraphOf(b) == GraphOf(st);
    forall id | AliasKey(id) in a ensures a[AliasKey(id)].Text? && SelfMapped(a, a[AliasKey(id)].s) {
      assert Alias(a, id) == Alias(st, id);
      var m := st[AliasKey(id)].s;
      assert SelfMapped(st, m);
      assert Alias(a, m) == Alias(st, m);
    }
    forall id | AliasKey(id) in b ensures b[AliasKey(id)].Text? && SelfMapped(b, b[AliasKey(id)].s) {
      assert Alias(b, id) == Alias(st, id);
      var m := st[AliasKey(id)].s;
      assert SelfMapped(st, m);
      assert Alias(b, m) == Alias(st, m);
    }
    forall v, e | v in GraphOf(a) && e in v.edges ensures Alias(a, e.out) == Alias(a, e.into) {
      assert Alias(st, e.out) == Alias(st, e.into);
    }
    forall v, e | v in GraphOf(b) && e in v.edges ensures Alias(b, e.out) == Alias(b, e.into) {
      assert Alias(st, e.out) == Alias(st, e.into);
    }
  }

  /**
    The constructor's graph reset: replacing the graph by an empty one keeps the invariant
    whenever every alias already held a master, whatever the old graph was.
   */
  lemma ResetConsistent(st: Store)
    requires AliasesToMasters(st)
    ensures Consistent(st[GRAPH := GraphBlob({})])
  {
    var st' := st[GRAPH := GraphBlob({})];
    forall id ensures Alias(st', id) == Alias(st, id) {
      AliasKeyNotGraph(id);
    }
    forall id | AliasKey(id) in st' ensures st'[AliasKey(id)].Text? && SelfMapped(st', st'[AliasKey(id)].s) {
      assert Alias(st', id) == Alias(st, id);
      var m := st[AliasKey(id)].s;
      assert SelfMapped(st, m);
      assert Alias(st', m) == Alias(st, m);
    }
  }

  // ---------------------------------------------------------------------------
  // The shared map and the store object

  /** The Hazelcast IMap "wicket-sessions" that all nodes share. */
  class DistributedMap {
    var entries: Store

    constructor (entries: Store)
      ensures this.entries == entries
    {
      this.entries := entries;
    }

    method Put(k: string, v: StoreVal)
      modifies this
      ensures entries == old(entries)[k := v]
    {
      entries := entries[k := v];
    }

    method Remove(k: string)
      modifies this
      ensures entries == old(entries) - {k}
    {
      entries := entries - {k};
    }
  }

  /** HazelcastSessionStore2 on one node. */
  class HazelcastSessionStore {
    const store: DistributedMap
    const node: string

    ghost predicate Valid()
      reads store
    {
      Consistent(store.entries)
    }

    /** The constructor puts an empty graph into the shared map, wiping every node's graph. */
    constructor (store: DistributedMap, node: string)
      modifies store
      ensures this.store == store && this.node == node
      ensures store.entries == old(store.entries)[GRAPH := GraphBlob({})]
      ensures AliasesToMasters(old(store.entries)) ==> Valid()
    {
      this.store := store;
      this.node := node;
      new;
      if AliasesToMasters(store.entries) {
        ResetConsistent(store.entries);
      }
      store.Put(GRAPH, GraphBlob({}));
    }

    /** getSessionId(request, create); `freshId` is the id a new HttpSession would get. */
    method GetSessionId(request: Request, create: bool, freshId: string) returns (id: Option<string>)
      requires Valid() && Fresh(store.entries, freshId)
      modifies store
      ensures Valid()
      ensures Resolves(old(store.entries), store.entries, node, request, create, freshId, id)
    {
      ghost var st := store.entries;
      id := request.localSession;
      if id.None? {
        var jsessionid := JsessionId(request.cookies, request.uri);
        if jsessionid.Some? && AliasKey(jsessionid.value) in store.entries {
          var graph := new Graph.Copy(store.entries[GRAPH].vertices);
          var vertex := FindVertex(jsessionid.value, node, graph);
          if vertex.Some? {
            id := Some(vertex.value.id);
            assert !NoMatch(GraphOf(st), jsessionid.value, node) by {
              var p: seq<SessionVertex> :| IsPath(GraphOf(st), p) && p[0].id == jsessionid.value
                                          && p[|p| - 1] == vertex.value;
            }
          } else {
            id := Some(freshId);
            var _ := CreateVertex(freshId, jsessionid.value, node, graph);
            store.Put(AliasKey(freshId), store.entries[AliasKey(jsessionid.value)]);
            store.Put(GRAPH, GraphBlob(graph.vertices));
            DerivedConsistent(st, freshId, jsessionid.value, node);
          }
        } else if create {
          id := Some(freshId);
          var graph := new Graph.Copy(store.entries[GRAPH].vertices);
          var _ := CreateVertex(freshId, freshId, node, graph);
          store.Put(AliasKey(freshId), Text(freshId));
          store.Put(GRAPH, GraphBlob(graph.vertices));
          RootedConsistent(st, freshId, node);
        }
      }
    }

    /**
      getKey(request, name): the key of attribute `name` for the session getSessionId
      (without `create`) resolves, or null when there is none.
     */
    method GetKey(request: Request, name: string, freshId: string)
      returns (key: Option<string>, sessionId: Option<string>)
      requires Valid() && Fresh(store.entries, freshId)
      modifies store
      ensures Valid()
      ensures Resolves(old(store.entries), store.entries, node, request, false, freshId, sessionId)
      ensures key == if sessionId.Some? then Some(AttributeKey(store.entries, sessionId.value, name)) else None
    {
      sessionId := GetSessionId(request, false, freshId);
      key := None;
      if sessionId.Some? {
        key := Some(MasterText(store.entries, sessionId.value) + "-" + name);
      }
    }

    /** getAttribute(request, name): the value under the attribute's key, or null. */
    method GetAttribute(request: Request, name: string, freshId: string)
      returns (value: Option<StoreVal>, key: Option<string>, sessionId: Option<string>)
      requires Valid() && Fresh(store.entries, freshId)
      modifies store
      ensures Valid()
      ensures Resolves(old(store.entries), store.entries, node, request, false, freshId, sessionId)
      ensures key == if sessionId.Some? then Some(AttributeKey(store.entries, sessionId.value, name)) else None
      ensures value == if key.Some? && key.value in store.entries then Some(store.entries[key.value]) else None
    {
      key, sessionId := GetKey(request, name, freshId);
      value := None;
      if key.Some? && key.value in store.entries {
        value := Some(store.entries[key.value]);
      }
    }

    /**
      setAttribute(request, name, value): the value is put under the attribute's key; with
      no session nothing is written.
     */
    method SetAttribute(request: Request, name: string, value: StoreVal, freshId: string)
      returns (ghost key: Option<string>, ghost resolved: Store)
      requires Valid() && Fresh(store.entries, freshId)
      modifies store
      ensures exists sessionId :: && Resolves(old(store.entries), resolved, node, request, false, freshId, sessionId)
                                  && Consistent(resolved)
                                  && key == if sessionId.Some? then Some(AttributeKey(resolved, sessionId.value, name)) else None
      ensures store.entries == if key.Some? then resolved[key.value := value] else resolved
      ensures key.None? || !ReservedKey(key.value) ==> Valid()
    {
      var k, sessionId := GetKey(request, name, freshId);
      key, resolved := k, store.entries;
      if k.Some? {
        if !ReservedKey(k.value) {
          AttributeWriteConsistent(store.entries, k.value, value);
        }
        store.Put(k.value, value);
      }
    }

    /** removeAttribute(request, name): the attribute's key is removed; with no session nothing is. */
    method RemoveAttribute(request: Request, name: string, freshId: string)
      returns (ghost key: Option<string>, ghost resolved: Store)
      requires Valid() && Fresh(store.entries, freshId)
      modifies store
      ensures exists sessionId :: && Resolves(old(store.entries), resolved, node, request, false, freshId, sessionId)
                                  && Consistent(resolved)
                                  && key == if sessionId.Some? then Some(AttributeKey(resolved, sessionId.value, name)) else None
      ensures store.entries == if key.Some? then resolved - {key.value} else resolved
      ensures key.None? || !ReservedKey(key.value) ==> Valid()
    {
      var k, sessionId := GetKey(request, name, freshId);
      key, resolved := k, store.entries;
      if k.Some? {
        if !ReservedKey(k.value) {
          AttributeWriteConsistent(store.entries, k.value, Text(""));
        }
        store.Remove(k.value);
      }
    }
  }
}
