/**
  Two nodes with a HazelcastSessionStore2 each over one shared map: a session opened on
  node1 writes an attribute, and a request that fails over to node2 with the node1 cookie
  reads the same attribute back through a session minted there.
 */
module Failover {
  import opened Wrappers
  import opened SessionGraph
  import opened SessionToken
  import opened SessionStore

  /** The cookie token `a.route` with no '.' in `a` names the session `a`. */
  lemma RoutedCookie(a: string, route: string)
    requires '.' !in a
    ensures JsessionId([Cookie(JSESSIONID, Some(a + ['.'] + route))], "/") == Some(a)
  {
    CookieWins([Cookie(JSESSIONID, Some(a + ['.'] + route))], "/", 0);
    SplitAtFirst(a, '.', route);
  }

  /** A request with neither a cookie nor a path parameter carries no token. */
  lemma NoToken()
    ensures JsessionId([], "/") == None
  {
    assert ';' !in "/";
  }

  /** The map right after a node started: only the empty graph. */
  lemma StartedStore(id: string)
    ensures Consistent(map[GRAPH := GraphBlob({})])
    ensures Fresh(map[GRAPH := GraphBlob({})], id)
  {
    forall id | true ensures AliasKey(id) != GRAPH {
      AliasKeyNotGraph(id);
    }
  }

  /**
    A request with no session, cookie or path parameter, with `create`, opens `a` as its
    own master; `b` is still fresh afterwards.
   */
  lemma OpenedSession(st: Store, st': Store, node: string, a: string, b: string, name: string,
                      id: Option<string>)
    requires Consistent(st) && Fresh(st, a) && Fresh(st, b) && a != b
    requires Resolves(st, st', node, Request(None, [], "/"), true, a, id)
    ensures id == Some(a) && Consistent(st') && Fresh(st', b) && SelfMapped(st', a)
    ensures AttributeKey(st', a, name) == a + "-" + name
  {
    NoToken();
    RootedOwnMaster(st, a, node, name);
    CreatedRootSet(GraphOf(st), a, node);
    AliasKeyInjective(a, b);
    AliasKeyNotGraph(b);
  }

  /** With its HttpSession at hand, the request's attribute key is that session's. */
  lemma LocalSessionKey(st: Store, resolved: Store, node: string, a: string, name: string,
                        freshId: string, key: Option<string>)
    requires Consistent(st) && Fresh(st, freshId)
    requires exists sessionId :: && Resolves(st, resolved, node, Request(Some(a), [], "/"), false, freshId, sessionId)
                                 && Consistent(resolved)
                                 && key == if sessionId.Some? then Some(AttributeKey(resolved, sessionId.value, name)) else None
    ensures resolved == st
    ensures key == Some(AttributeKey(st, a, name))
  {
  }

  /** Writing an attribute of a session that is not named like a reserved key keeps the invariant and `b` fresh. */
  lemma AttributeWritten(st: Store, a: string, b: string, name: string, value: StoreVal)
    requires Consistent(st) && Fresh(st, b) && SelfMapped(st, a)
    requires a != "session" && !("jsessionid" <= a)
    ensures Consistent(st[a + "-" + name := value]) && Fresh(st[a + "-" + name := value], b)
    ensures SelfMapped(st[a + "-" + name := value], a)
    ensures AttributeKey(st[a + "-" + name := value], a, name) == a + "-" + name
    ensures !ReservedKey(a + "-" + name)
  {
    if ReservedKey(a + "-" + name) {
      ReservedAttributeKey(a, name);
    }
    AttributeWriteConsistent(st, a + "-" + name, value);
    assert a + "-" + name != AliasKey(b) && a + "-" + name != AliasKey(a);
  }

  /**
    A request without an HttpSession carrying the cookie of `a` on another node reads the
    value stored under `a`'s attribute key, whatever getSessionId minted on the way.
   */
  lemma FailedOver(st: Store, st': Store, node: string, request: Request, b: string, a: string,
                   name: string, sid: Option<string>)
    requires Consistent(st) && Fresh(st, b)
    requires request.localSession.None? && JsessionId(request.cookies, request.uri) == Some(a)
    requires SelfMapped(st, a) && AttributeKey(st, a, name) == a + "-" + name
    requires a + "-" + name in st && !ReservedKey(a + "-" + name)
    requires Resolves(st, st', node, request, false, b, sid)
    ensures Consistent(st') && sid.Some? && AttributeKey(st', sid.value, name) == a + "-" + name
    ensures a + "-" + name in st' && st'[a + "-" + name] == st[a + "-" + name]
  {
    ResolvedSameMaster(st, st', node, request, false, b, sid, name);
    ResolvesKeepsAttributes(st, st', node, request, false, b, sid, a + "-" + name);
  }

  /**
    Node1 opens session `a` and sets attribute `name`; node2 then gets a request with the
    cookie `a.node1` and no HttpSession of its own, mints `b` on the way, and reads the
    value node1 wrote.
   */
  method FailoverKeepsAttributes(a: string, b: string, name: string, value: StoreVal)
    returns (seen: Option<StoreVal>)
    requires a != b && '.' !in a
    requires a != "session" && !("jsessionid" <= a)
    ensures seen == Some(value)
  {
    var shared := new DistributedMap(map[]);
    var node1 := new HazelcastSessionStore(shared, "node1");
    var node2 := new HazelcastSessionStore(shared, "node2");
    StartedStore(a);
    StartedStore(b);

    ghost var started := shared.entries;
    var first := node1.GetSessionId(Request(None, [], "/"), true, a);
    OpenedSession(started, shared.entries, "node1", a, b, name, first);

    ghost var afterOpen := shared.entries;
    var key, resolved := node1.SetAttribute(Request(Some(a), [], "/"), name, value, b);
    LocalSessionKey(afterOpen, resolved, "node1", a, name, b, key);
    AttributeWritten(afterOpen, a, b, name, value);

    ghost var written := shared.entries;
    var request := Request(None, [Cookie(JSESSIONID, Some(a + ['.'] + "node1"))], "/");
    RoutedCookie(a, "node1");
    var k2, sid;
    seen, k2, sid := node2.GetAttribute(request, name, b);
    FailedOver(written, shared.entries, "node2", request, b, a, name, sid);
  }
}
