# wicket-cluster session affinity, in Dafny

wicket-cluster lets a Wicket application run on several nodes behind a load balancer.
All nodes use one Hazelcast map. When a request carrying a session token lands on a
node other than the one that issued the token, the session store follows a graph of
sessions to find a session that already lives on this node. If there is none, it mints
a new session. That session inherits the alias of the token it was derived from, so it
keeps reading and writing the same attributes. Wicket's page data lives in a second map,
keyed by session id and page id.

This project models four things:

- the session graph and its search (`HazelcastSessionStore2`'s `Graph`, `SessionVertex`,
  `SessionEdge`, `createVertex`, `findVertex`, `convertToVerticles`);
- the session-identity resolver over the shared map (`getSessionId`,
  `getJsessionId`, `getKey`, `get/set/removeAttribute`, and the constructor's graph
  reset);
- the test fixture and scenario of `TestHttpGraph`;
- `HazelcastDataStore` with its `HazelcastPageData` records.

Files:

- `session_graph.dfy` (module `SessionGraph`).
  - Vertices are values, as Java's `@Value` records are.
  - The graph is a class holding a `set<SessionVertex>`, with the invariant of one
    vertex per id.
  - `addEdge` and `createVertex` are specified by functions on sets (`WithEdge`,
    `WithCreated`), and the lemmas state their properties.
- `graph_search.dfy` (module `GraphSearch`).
  - `findVertex` is a `while` loop over a FIFO queue and a visited set, with the
    source's quirk kept: the start vertex is not marked visited.
  - It is proved sound: a result is a graph vertex on the current node, reachable from
    the start vertex.
  - It is proved complete: null means no walk from the start vertex ends on the current
    node.
  - It is proved to terminate on any graph with one vertex per id, cycles and self-edges
    included.
- `session_token.dfy` (module `SessionToken`): `getJsessionId`.
  - The first `JSESSIONID` cookie with a value wins, cut at its first `.`.
  - Otherwise the token comes from the URI text between the first `;` and the next `;`.
    That text must contain `jsessionid=`; every occurrence of `jsessionid=` is removed
    and the rest is cut at the first `.`.
- `session_store.dfy` (module `SessionStore`): the shared map, the invariant
  `Consistent`, the relation `Resolves` that specifies `getSessionId`, and the store class.
  - `Consistent`: every alias names a master that maps to itself; every vertex has an
    alias; both ends of every edge share one alias.
  - The main property: when a request with an aliased token fails over, the session
    `getSessionId` answers has the token's alias. So attributes keep the same key on
    every node.
- `failover.dfy` (module `Failover`): a two-node run. An attribute set on node1 is read
  back on node2 from a request with the node1 cookie.
- `graph_fixture.dfy` (module `GraphFixture`): `TestHttpGraph`.
  - `init` and `testCreateVertex` are stated with every `findVertex` result exact.
  - The ids and node names are parameters that only need to be distinct.
  - `LiteralsDistinct` shows that the test's literals `"id1"`..`"node4"` are distinct.
- `page_store.dfy` (module `PageStore`): `HazelcastDataStore` and `HazelcastPageData`.
  The map holds records by value (Hazelcast stores them serialized), so a read hands out
  a fresh copy. The store method changes that copy in place and puts it back.
- `wrappers.dfy` (module `Wrappers`): `Option`.

Three behaviours of the code that a reader might not expect, and that the model follows:

- `Graph.addVertex` is a `HashSet.add`. It does not replace a vertex that has the same
  id, so one vertex per id holds only while `createVertex` gets fresh ids
  (`AddVertexDuplicates`).
- `getKey` for a session without an alias entry builds `"null-" + name`, as Java's string
  concatenation of a null does (`MasterText`).
- `getSessionId` mints a new session on failover even when `create` is false.

## Model

| member | source | states |
|---|---|---|
| SessionGraph.Lookup | src/main/java/com/weaxme/wicket/cluster/session/HazelcastSessionStore2.java:410-418 | with one vertex per id, getVertexById finds a graph vertex with that id, and finds none exactly when no vertex has it |
| SessionGraph.Neighbors | src/main/java/com/weaxme/wicket/cluster/session/HazelcastSessionStore2.java:376-381 | convertToVerticles yields exactly the graph vertices at an end of some edge, with dangling ends dropped, at most two per edge |
| SessionGraph.WithEdge | src/main/java/com/weaxme/wicket/cluster/session/HazelcastSessionStore2.java:391-408 | addEdge with a missing end leaves the graph unchanged |
| SessionGraph.WithEdgeEndpoint | src/main/java/com/weaxme/wicket/cluster/session/HazelcastSessionStore2.java:391-408 | with both ends present, each end's vertex is its old self with the edge appended once (a self-edge once in total), id and node kept |
| SessionGraph.WithEdgeOthers | src/main/java/com/weaxme/wicket/cluster/session/HazelcastSessionStore2.java:391-408 | a vertex that is not an end of the edge is in the graph after addEdge exactly when it was before |
| SessionGraph.WithEdgeShape | src/main/java/com/weaxme/wicket/cluster/session/HazelcastSessionStore2.java:391-408 | addEdge keeps one vertex per id and the same set of ids |
| SessionGraph.WithEdgeRecords | src/main/java/com/weaxme/wicket/cluster/session/HazelcastSessionStore2.java:391-408 | once both ends exist, the edge is in the edge lists of the vertices at both ends |
| SessionGraph.WithEdgeGrows | src/main/java/com/weaxme/wicket/cluster/session/HazelcastSessionStore2.java:391-408 | edges only grow: every old vertex has a vertex with the same id and node whose edge list extends its own |
| SessionGraph.WithEdgeSymmetric | src/main/java/com/weaxme/wicket/cluster/session/HazelcastSessionStore2.java:391-408 | addEdge keeps the adjacency symmetric: every held edge touches its holder and is held at both ends |
| SessionGraph.WithEdgeKeepsOld | src/main/java/com/weaxme/wicket/cluster/session/HazelcastSessionStore2.java:391-408 | an edge other than the new one, held after addEdge, still touches its holder and is recorded at both ends |
| SessionGraph.GrownHolds | src/main/java/com/weaxme/wicket/cluster/session/HazelcastSessionStore2.java:399-406 | an edge held by a vertex before a growing step is held by the vertex with that id after it |
| SessionGraph.WithEdgeAt | src/main/java/com/weaxme/wicket/cluster/session/HazelcastSessionStore2.java:391-408 | addEdge on two given end vertices removes them and adds their copies with the edge appended |
| SessionGraph.WithEdgeOldEdge | src/main/java/com/weaxme/wicket/cluster/session/HazelcastSessionStore2.java:391-408 | any edge other than the new one that a vertex holds after addEdge was held by the vertex with that id before |
| SessionGraph.FreshVertexKeepsUnique | src/main/java/com/weaxme/wicket/cluster/session/HazelcastSessionStore2.java:336-337 | adding a vertex with a fresh id keeps one vertex per id and adds exactly that id |
| SessionGraph.CreatedVertex | src/main/java/com/weaxme/wicket/cluster/session/HazelcastSessionStore2.java:334-340 | createVertex with a fresh id adds exactly that id and keeps one vertex per id; the new vertex has the given node and holds the creation edge when the creator exists and no edge when it does not |
| SessionGraph.CreatedRoot | src/main/java/com/weaxme/wicket/cluster/session/HazelcastSessionStore2.java:334-340 | a root vertex (creatorId == id) holds exactly the self-edge (id, id) |
| SessionGraph.CreatedOthers | src/main/java/com/weaxme/wicket/cluster/session/HazelcastSessionStore2.java:334-340 | createVertex appends the creation edge to the creator's vertex and leaves every other vertex as it was |
| SessionGraph.CreatedSymmetric | src/main/java/com/weaxme/wicket/cluster/session/HazelcastSessionStore2.java:334-340 | createVertex keeps the adjacency symmetric |
| SessionGraph.CreatedFromCreator | src/main/java/com/weaxme/wicket/cluster/session/HazelcastSessionStore2.java:334-340 | with an existing creator, the whole graph after createVertex: the creator replaced by its copy with the edge appended, plus the new vertex holding just that edge |
| SessionGraph.CreatedRootSet | src/main/java/com/weaxme/wicket/cluster/session/HazelcastSessionStore2.java:334-340 | a root createVertex adds exactly the new vertex with its self-edge |
| SessionGraph.CreatedOrphan | src/main/java/com/weaxme/wicket/cluster/session/HazelcastSessionStore2.java:334-340 | when the creator has no vertex, the new vertex is added with no edges, since addEdge does nothing |
| SessionGraph.CreatedOldEdge | src/main/java/com/weaxme/wicket/cluster/session/HazelcastSessionStore2.java:334-340 | every edge after createVertex is the creation edge or one some old vertex held |
| SessionGraph.AddVertexDuplicates | src/main/java/com/weaxme/wicket/cluster/session/HazelcastSessionStore2.java:424-426 | addVertex does not replace: a different vertex with an id already present breaks one vertex per id |
| SessionGraph.AddVertexTwice | src/main/java/com/weaxme/wicket/cluster/session/HazelcastSessionStore2.java:424-426 | adding the same fresh vertex twice leaves exactly one vertex with its id |
| SessionGraph.Graph.constructor | src/main/java/com/weaxme/wicket/cluster/session/HazelcastSessionStore2.java:387-389 | a new graph is empty and valid |
| SessionGraph.Graph.Copy | src/main/java/com/weaxme/wicket/cluster/session/HazelcastSessionStore2.java:115 | the graph read from the map is a fresh object holding the stored vertices |
| SessionGraph.Graph.AddVertex | src/main/java/com/weaxme/wicket/cluster/session/HazelcastSessionStore2.java:424-426 | the vertex set gains the vertex, by value |
| SessionGraph.Graph.RemoveVertex | src/main/java/com/weaxme/wicket/cluster/session/HazelcastSessionStore2.java:428-430 | the vertex set loses the vertex, by value |
| SessionGraph.Graph.AddEdge | src/main/java/com/weaxme/wicket/cluster/session/HazelcastSessionStore2.java:391-408 | the new vertex set is WithEdge of the old one, and one vertex per id is kept |
| SessionGraph.Graph.Clear | src/main/java/com/weaxme/wicket/cluster/session/HazelcastSessionStore2.java:432-434 | the graph becomes empty |
| SessionGraph.CreateVertex | src/main/java/com/weaxme/wicket/cluster/session/HazelcastSessionStore2.java:334-340 | the graph becomes WithCreated of the old one with one vertex per id kept; the returned vertex is the empty one built, not the copy holding the edge |
| GraphSearch.IsPath | src/main/java/com/weaxme/wicket/cluster/session/HazelcastSessionStore2.java:376-381 | a walk is non-empty and starts and ends at graph vertices; each step goes to a graph vertex at an end of an edge of the vertex before |
| GraphSearch.Linked | src/main/java/com/weaxme/wicket/cluster/session/HazelcastSessionStore2.java:376-381 | a vertex is yielded by convertToVerticles for a vertex's edges exactly when it is a graph vertex at an end of one of them |
| GraphSearch.PathAppend | src/main/java/com/weaxme/wicket/cluster/session/HazelcastSessionStore2.java:369 | a walk extended by a vertex at an end of an edge of its last vertex is a walk |
| GraphSearch.ReachableStart | src/main/java/com/weaxme/wicket/cluster/session/HazelcastSessionStore2.java:351-353 | the start vertex is reachable from its own id |
| GraphSearch.ReachableStep | src/main/java/com/weaxme/wicket/cluster/session/HazelcastSessionStore2.java:369 | every vertex convertToVerticles yields for a reachable vertex is reachable |
| GraphSearch.ClosedWalks | src/main/java/com/weaxme/wicket/cluster/session/HazelcastSessionStore2.java:361-371 | a set holding the start's neighbours and closed under neighbours contains the end of every walk of two or more vertices |
| GraphSearch.SearchStarts | src/main/java/com/weaxme/wicket/cluster/session/HazelcastSessionStore2.java:356-357 | the empty visited set and the start's neighbours as the queue satisfy the search invariant |
| GraphSearch.SearchVisits | src/main/java/com/weaxme/wicket/cluster/session/HazelcastSessionStore2.java:362-369 | dequeuing an unvisited vertex off the node, marking it visited and queuing its neighbours keeps the invariant |
| GraphSearch.SearchSkips | src/main/java/com/weaxme/wicket/cluster/session/HazelcastSessionStore2.java:362-363 | dequeuing an already visited vertex keeps the invariant |
| GraphSearch.NoMatchOnWalks | src/main/java/com/weaxme/wicket/cluster/session/HazelcastSessionStore2.java:361-372 | when the queue runs dry, no walk from the start ends on the current node |
| GraphSearch.FindVertex | src/main/java/com/weaxme/wicket/cluster/session/HazelcastSessionStore2.java:342-374 | null when no vertex has the id; the start vertex itself when it is on the node; otherwise a graph vertex on the node reachable from the start, or null exactly when no walk from the start reaches the node; the loop terminates |
| SessionToken.CutAt | src/main/java/com/weaxme/wicket/cluster/session/HazelcastSessionStore2.java:174 | `split("\\.")[0]`: a prefix of the text, free of '.', ending at the first '.' or at the end |
| SessionToken.After | src/main/java/com/weaxme/wicket/cluster/session/HazelcastSessionStore2.java:180 | the text after the first ';' exists exactly when ';' occurs, and the text is its cut-off prefix, the ';' and that rest |
| SessionToken.ContainsAt | src/main/java/com/weaxme/wicket/cluster/session/HazelcastSessionStore2.java:181 | String.contains holds exactly when the pattern occurs at some position |
| SessionToken.RemoveAll | src/main/java/com/weaxme/wicket/cluster/session/HazelcastSessionStore2.java:183 | String.replace(p, "") never lengthens the text and leaves it unchanged when p does not occur |
| SessionToken.RemoveAllShrinks | src/main/java/com/weaxme/wicket/cluster/session/HazelcastSessionStore2.java:183 | when p occurs, replace(p, "") removes at least one copy of p |
| SessionToken.RemoveAllLeading | src/main/java/com/weaxme/wicket/cluster/session/HazelcastSessionStore2.java:183 | a leading occurrence is removed and the scan continues after it |
| SessionToken.SplitAtFirst | src/main/java/com/weaxme/wicket/cluster/session/HazelcastSessionStore2.java:174 | for `a + c + b` with no c in a, the text before the first c is a and the text after it is b |
| SessionToken.CookieToken | src/main/java/com/weaxme/wicket/cluster/session/HazelcastSessionStore2.java:169-176 | a cookie token has no '.' in it |
| SessionToken.CookieTokenFirst | src/main/java/com/weaxme/wicket/cluster/session/HazelcastSessionStore2.java:170-175 | the first JSESSIONID cookie with a value gives the token, cut at its first '.', whatever follows it |
| SessionToken.CookieTokenNone | src/main/java/com/weaxme/wicket/cluster/session/HazelcastSessionStore2.java:170-176 | without a JSESSIONID cookie with a value there is no cookie token |
| SessionToken.UriToken | src/main/java/com/weaxme/wicket/cluster/session/HazelcastSessionStore2.java:180-188 | a URI token needs a ';' in the URI and has no '.' |
| SessionToken.JsessionId | src/main/java/com/weaxme/wicket/cluster/session/HazelcastSessionStore2.java:165-191 | a token never has a '.' in it |
| SessionToken.CookieWins | src/main/java/com/weaxme/wicket/cluster/session/HazelcastSessionStore2.java:169-179 | the first session cookie decides the token, and the URI is then not consulted |
| SessionToken.UriFallback | src/main/java/com/weaxme/wicket/cluster/session/HazelcastSessionStore2.java:179-189 | with no session cookie the token is the URI's |
| SessionToken.UriParameter | src/main/java/com/weaxme/wicket/cluster/session/HazelcastSessionStore2.java:180-186 | for `path;jsessionid=value` with no other ';', the token is the value with "jsessionid=" removed, cut at '.' |
| SessionToken.UriRoute | src/main/java/com/weaxme/wicket/cluster/session/HazelcastSessionStore2.java:180-186 | `path;jsessionid=token.route` gives `token` |
| SessionToken.CookieExample | src/main/java/com/weaxme/wicket/cluster/session/HazelcastSessionStore2.java:170-175 | a foreign cookie is skipped and the route suffix of "A1.n1" is cut, giving "A1" |
| SessionToken.UriRouteExample | src/main/java/com/weaxme/wicket/cluster/session/HazelcastSessionStore2.java:180-186 | "/a;jsessionid=C3.n2" gives "C3" |
| SessionToken.UriExample | src/main/java/com/weaxme/wicket/cluster/session/HazelcastSessionStore2.java:169-189 | a JSESSIONID cookie without a value is skipped and the URI decides |
| SessionToken.UriSecondParameterExample | src/main/java/com/weaxme/wicket/cluster/session/HazelcastSessionStore2.java:180-181 | only the text right after the first ';' is looked at: "/a;x;jsessionid=C3" gives no token |
| SessionStore.AliasKeyInjective | src/main/java/com/weaxme/wicket/cluster/session/HazelcastSessionStore2.java:153 | two ids have the same alias key exactly when they are equal |
| SessionStore.AliasKeyNotGraph | src/main/java/com/weaxme/wicket/cluster/session/HazelcastSessionStore2.java:25-29 | no alias key is the graph key |
| SessionStore.EdgeEndsOld | src/main/java/com/weaxme/wicket/cluster/session/HazelcastSessionStore2.java:132-138 | in a consistent store both ends of every edge have aliases, and neither is a fresh id |
| SessionStore.CreatedConsistent | src/main/java/com/weaxme/wicket/cluster/session/HazelcastSessionStore2.java:132-138 | a store whose graph became WithCreated, with the new id sharing the creator's alias and all other aliases kept, is consistent |
| SessionStore.DerivedConsistent | src/main/java/com/weaxme/wicket/cluster/session/HazelcastSessionStore2.java:125-141 | minting on failover keeps the store consistent, gives the new id the token's alias, and keeps every other alias |
| SessionStore.RootedConsistent | src/main/java/com/weaxme/wicket/cluster/session/HazelcastSessionStore2.java:142-157 | opening a new session keeps the store consistent, makes the new id its own master, and keeps every other alias |
| SessionStore.ResolvesConsistent | src/main/java/com/weaxme/wicket/cluster/session/HazelcastSessionStore2.java:105-163 | every outcome of getSessionId keeps the store consistent, so every alias stays a self-mapped master |
| SessionStore.ResolvesKeepsAttributes | src/main/java/com/weaxme/wicket/cluster/session/HazelcastSessionStore2.java:105-163 | getSessionId writes only the alias and graph keys; every other entry is left as it was |
| SessionStore.PathSameAlias | src/main/java/com/weaxme/wicket/cluster/session/HazelcastSessionStore2.java:132-137 | every walk through a consistent store's graph stays within one alias value |
| SessionStore.ResolvedSameMaster | src/main/java/com/weaxme/wicket/cluster/session/HazelcastSessionStore2.java:293-299 | for a request with an aliased token and no HttpSession, the session getSessionId answers has the token's alias, so its attribute key is the token's |
| SessionStore.ResolveAfterReset | src/main/java/com/weaxme/wicket/cluster/session/HazelcastSessionStore2.java:39-43 | a token that kept its alias but lost its vertex in a graph reset finds nothing, and the minted vertex gets no creation edge |
| SessionStore.RootedOwnMaster | src/main/java/com/weaxme/wicket/cluster/session/HazelcastSessionStore2.java:142-157 | a newly opened session keys its attributes by its own id |
| SessionStore.VertexHasMaster | src/main/java/com/weaxme/wicket/cluster/session/HazelcastSessionStore2.java:296-298 | every session with a vertex has an alias, the master it names maps to itself, and its attribute key is that master, "-" and the name |
| SessionStore.ReservedAttributeKey | src/main/java/com/weaxme/wicket/cluster/session/HazelcastSessionStore2.java:298 | an attribute key can hit the graph key or an alias key only for a master named "session" or starting with "jsessionid" |
| SessionStore.AttributeWriteConsistent | src/main/java/com/weaxme/wicket/cluster/session/HazelcastSessionStore2.java:230-253 | putting or removing a key that is neither the graph key nor an alias key keeps the store consistent |
| SessionStore.ResetConsistent | src/main/java/com/weaxme/wicket/cluster/session/HazelcastSessionStore2.java:39-43 | replacing the graph with an empty one keeps the store consistent whenever every alias holds a master |
| SessionStore.DistributedMap.constructor | src/main/java/com/weaxme/wicket/cluster/session/HazelcastSessionStore2.java:40 | the map starts with the given entries |
| SessionStore.DistributedMap.Put | src/main/java/com/weaxme/wicket/cluster/session/HazelcastSessionStore2.java:137-138 | IMap.put maps the key to the value and changes nothing else |
| SessionStore.DistributedMap.Remove | src/main/java/com/weaxme/wicket/cluster/session/HazelcastSessionStore2.java:233 | IMap.remove drops the key and changes nothing else |
| SessionStore.HazelcastSessionStore.constructor | src/main/java/com/weaxme/wicket/cluster/session/HazelcastSessionStore2.java:39-43 | the shared graph is replaced by an empty one, whatever other nodes put there, and the store is consistent when every alias held a master |
| SessionStore.HazelcastSessionStore.GetSessionId | src/main/java/com/weaxme/wicket/cluster/session/HazelcastSessionStore2.java:105-163 | the store stays consistent and the answer and new map are as Resolves says: the HttpSession's id; a reachable vertex on the node (the token's own when it is there) with no write; a session minted from the token, even without create; a new root session with create; or null with no write |
| SessionStore.HazelcastSessionStore.GetKey | src/main/java/com/weaxme/wicket/cluster/session/HazelcastSessionStore2.java:293-301 | null when no session resolves, else the master text of the resolved session, then "-" and the name |
| SessionStore.HazelcastSessionStore.GetAttribute | src/main/java/com/weaxme/wicket/cluster/session/HazelcastSessionStore2.java:84-92 | the value under that key, or null when there is no key or no entry |
| SessionStore.HazelcastSessionStore.SetAttribute | src/main/java/com/weaxme/wicket/cluster/session/HazelcastSessionStore2.java:244-253 | after resolving, only the attribute key is written, and nothing when it is null; the store stays consistent unless the key is reserved |
| SessionStore.HazelcastSessionStore.RemoveAttribute | src/main/java/com/weaxme/wicket/cluster/session/HazelcastSessionStore2.java:230-235 | after resolving, only the attribute key is removed, and nothing when it is null; the store stays consistent unless the key is reserved |
| Failover.RoutedCookie | src/main/java/com/weaxme/wicket/cluster/session/HazelcastSessionStore2.java:170-175 | the cookie `a.route` names session a |
| Failover.NoToken | src/main/java/com/weaxme/wicket/cluster/session/HazelcastSessionStore2.java:165-191 | a request with no cookie and no path parameter carries no token |
| Failover.StartedStore | src/main/java/com/weaxme/wicket/cluster/session/HazelcastSessionStore2.java:39-43 | the map right after a node started is consistent, and every id is fresh in it |
| Failover.OpenedSession | src/main/java/com/weaxme/wicket/cluster/session/HazelcastSessionStore2.java:142-157 | a request with nothing, with create, opens the fresh id as its own master, keyed by its own id, and other fresh ids stay fresh |
| Failover.LocalSessionKey | src/main/java/com/weaxme/wicket/cluster/session/HazelcastSessionStore2.java:106-110 | with an HttpSession at hand, nothing is written and the key is that session's |
| Failover.AttributeWritten | src/main/java/com/weaxme/wicket/cluster/session/HazelcastSessionStore2.java:244-253 | writing an attribute of a master not named like a reserved key keeps the store consistent, leaves fresh ids fresh and the key unchanged |
| Failover.FailedOver | src/main/java/com/weaxme/wicket/cluster/session/HazelcastSessionStore2.java:112-141 | a request with a's token and no HttpSession, on any node, reads the value stored under a's attribute key |
| Failover.FailoverKeepsAttributes | src/main/java/com/weaxme/wicket/cluster/session/HazelcastSessionStore2.java:105-163 | a value set on node1 for session a is read back on node2 by a request with the cookie `a.node1`, though node2 mints a new session on the way |
| GraphFixture.LiteralsDistinct | src/test/java/com/weaxme/wicket/cluster/TestHttpGraph.java:26-28 | the test's ids "id1".."id4" are distinct, and so are "node1".."node4" |
| GraphFixture.TwoStep | src/test/java/com/weaxme/wicket/cluster/TestHttpGraph.java:160-165 | a vertex at an end of an edge of a graph vertex is one step away |
| GraphFixture.ThreeStep | src/test/java/com/weaxme/wicket/cluster/TestHttpGraph.java:160-165 | two such steps make a walk of three vertices |
| GraphFixture.OnlyCandidate | src/test/java/com/weaxme/wicket/cluster/TestHttpGraph.java:124-158 | when the only vertex on the node is reachable, any result meeting findVertex's contract is that vertex |
| GraphFixture.NoCandidate | src/test/java/com/weaxme/wicket/cluster/TestHttpGraph.java:124-158 | with no vertex on the node, any result meeting findVertex's contract is null |
| GraphFixture.EdgeOnThree | src/test/java/com/weaxme/wicket/cluster/TestHttpGraph.java:204-221 | addEdge on three vertices whose third is not an end of the edge rebuilds the two ends and keeps the third |
| GraphFixture.FirstEdge | src/test/java/com/weaxme/wicket/cluster/TestHttpGraph.java:34 | the edge (id1,id1) on the three empty vertices gives id1 a self-edge |
| GraphFixture.SecondEdge | src/test/java/com/weaxme/wicket/cluster/TestHttpGraph.java:35 | the edge (id1,id2) is appended to id1 and given to id2 |
| GraphFixture.ThirdEdge | src/test/java/com/weaxme/wicket/cluster/TestHttpGraph.java:36 | the edge (id1,id3) is appended to id1 and given to id3 |
| GraphFixture.TestHttpGraph.constructor | src/test/java/com/weaxme/wicket/cluster/TestHttpGraph.java:20-24 | the fixture holds a new, empty graph of its own |
| GraphFixture.TestHttpGraph.Init | src/test/java/com/weaxme/wicket/cluster/TestHttpGraph.java:23-37 | after init the graph is exactly three vertices: id1 with edges (id1,id1), (id1,id2), (id1,id3), and id2 and id3 each with their edge from id1 |
| GraphFixture.TestHttpGraph.TestFirstThenSecondNode | src/test/java/com/weaxme/wicket/cluster/TestHttpGraph.java:46-60 | on the init graph, id2 on node1 finds the vertex of id1 |
| GraphFixture.TestHttpGraph.TestCreateVertex | src/test/java/com/weaxme/wicket/cluster/TestHttpGraph.java:63-122 | the four searches the test asserts null are null, and the three it asserts non-null find the vertices of id1, id3 and id4 exactly |
| GraphFixture.TestHttpGraph.OpenOnNode1 | src/test/java/com/weaxme/wicket/cluster/TestHttpGraph.java:64-72 | on the cleared graph id1 on node1 finds nothing, and id1 is then opened as a root |
| GraphFixture.TestHttpGraph.MoveToNode2 | src/test/java/com/weaxme/wicket/cluster/TestHttpGraph.java:80-82 | id1 on node2 finds nothing, then id2 is minted on node2 from id1 |
| GraphFixture.TestHttpGraph.BackToNode1 | src/test/java/com/weaxme/wicket/cluster/TestHttpGraph.java:87-88 | id2 on node1 finds the vertex of id1 in one hop |
| GraphFixture.TestHttpGraph.MoveToNode3 | src/test/java/com/weaxme/wicket/cluster/TestHttpGraph.java:94-96 | id1 on node3 finds nothing, then id3 is minted on node3 from id1 |
| GraphFixture.TestHttpGraph.Node3WithId2 | src/test/java/com/weaxme/wicket/cluster/TestHttpGraph.java:101-102 | id2 on node3 finds the vertex of id3 in two hops, through id1 |
| GraphFixture.TestHttpGraph.MoveToNode4 | src/test/java/com/weaxme/wicket/cluster/TestHttpGraph.java:110-112 | id3 on node4 finds nothing, then id4 is minted on node4 from id3 |
| GraphFixture.TestHttpGraph.Node4WithId1 | src/test/java/com/weaxme/wicket/cluster/TestHttpGraph.java:118-119 | id1 on node4 finds the vertex of id4 in two hops, through id3 |
| GraphFixture.TestCreateVertexLiterals | src/test/java/com/weaxme/wicket/cluster/TestHttpGraph.java:63-122 | with the test's own literals, the three non-null searches find the vertices of "id1", "id3" and "id4" exactly |
| PageStore.Fetched | src/main/java/com/weaxme/wicket/cluster/pageStore/HazelcastDataStore.java:28-35 | getData is null for an unknown session or page id, and otherwise the stored bytes |
| PageStore.Stored | src/main/java/com/weaxme/wicket/cluster/pageStore/HazelcastDataStore.java:53-60 | after storeData, getData of that page gives the data; every other page and session is unchanged; a first store makes a record carrying its session id |
| PageStore.FragmentRemoved | src/main/java/com/weaxme/wicket/cluster/pageStore/HazelcastDataStore.java:39-45 | removeData(s, id) drops exactly that page, makes no record for an unknown session and keeps the set of sessions |
| PageStore.SessionRemoved | src/main/java/com/weaxme/wicket/cluster/pageStore/HazelcastDataStore.java:47-50 | removeData(s) makes getData(s, id) null for every id and leaves the other sessions untouched |
| PageStore.StoreOverwrites | src/main/java/com/weaxme/wicket/cluster/pageStore/HazelcastDataStore.java:53-60 | storing the same page twice leaves only the second value |
| PageStore.StoreThenRemove | src/main/java/com/weaxme/wicket/cluster/pageStore/HazelcastDataStore.java:39-60 | under a known session, removing a page just stored gives the same map as removing it without the store |
| PageStore.HazelcastPageData.constructor | src/main/java/com/weaxme/wicket/cluster/pageStore/HazelcastDataStore.java:87-90 | a new record has its session id and no pages |
| PageStore.HazelcastPageData.Copy | src/main/java/com/weaxme/wicket/cluster/pageStore/HazelcastDataStore.java:29 | the object a map read hands out holds the stored record |
| PageStore.HazelcastPageData.PutData | src/main/java/com/weaxme/wicket/cluster/pageStore/HazelcastDataStore.java:100-102 | the page map gains the data under the id |
| PageStore.HazelcastPageData.RemoveData | src/main/java/com/weaxme/wicket/cluster/pageStore/HazelcastDataStore.java:104-106 | the page map loses the id |
| PageStore.HazelcastDataStore.constructor | src/main/java/com/weaxme/wicket/cluster/pageStore/HazelcastDataStore.java:23-25 | the store works on the map as it already is on the cluster |
| PageStore.HazelcastDataStore.Get | src/main/java/com/weaxme/wicket/cluster/pageStore/HazelcastDataStore.java:29 | pageStore.get gives null exactly for an unknown session, and otherwise a fresh copy of its record |
| PageStore.HazelcastDataStore.GetData | src/main/java/com/weaxme/wicket/cluster/pageStore/HazelcastDataStore.java:28-35 | getData returns Fetched of the map |
| PageStore.HazelcastDataStore.RemoveData | src/main/java/com/weaxme/wicket/cluster/pageStore/HazelcastDataStore.java:39-45 | the map becomes FragmentRemoved of the old one |
| PageStore.HazelcastDataStore.RemoveSession | src/main/java/com/weaxme/wicket/cluster/pageStore/HazelcastDataStore.java:47-50 | the map becomes SessionRemoved of the old one |
| PageStore.HazelcastDataStore.StoreData | src/main/java/com/weaxme/wicket/cluster/pageStore/HazelcastDataStore.java:53-60 | the map becomes Stored of the old one, through a fresh or newly made record changed in place and put back |
| PageStore.HazelcastDataStore.Destroy | src/main/java/com/weaxme/wicket/cluster/pageStore/HazelcastDataStore.java:63-69 | the map is emptied and every page reads null |
| PageStore.HazelcastDataStore.IsReplicated | src/main/java/com/weaxme/wicket/cluster/pageStore/HazelcastDataStore.java:71-74 | the store is not replicated |
| PageStore.HazelcastDataStore.CanBeAsynchronous | src/main/java/com/weaxme/wicket/cluster/pageStore/HazelcastDataStore.java:76-79 | the store cannot be asynchronous |

## Left out

- Concurrency between nodes is not modelled. The map is one sequential map, so the lost
  update between reading the graph (`HazelcastSessionStore2.java:115`) and writing it back
  (`:138`, `:154`) cannot occur. `synchronized` on the graph and the `CopyOnWriteArraySet`
  listener sets are omitted for the same reason.
- `bind`, `flushSession`, `lookup`, `invalidate`, the bind and unbind listeners,
  `SessionBindingListener`, `onBind` and `onUnbind` are omitted. They depend on Wicket
  `Session` object identity, `Application.get` and servlet-container callbacks.
- `getAttributeNames` is omitted. It maps the unordered key set of the whole map,
  graph and alias keys included, and there is little to state about it.
- `destroy` of the session store does nothing in the source and is not modelled.
- The servlet container is not modelled; its inputs are parameters:
  - the id of a new HttpSession is the parameter `freshId`, required to have no alias
    and no vertex;
  - the request's existing HttpSession is `Request.localSession`;
  - `IRequestLogger.sessionCreated` and all logging and printing are left out;
  - the cast in `getHttpServletRequest` and its exception are left out.
- GetSessionId takes the request as a value. When it mints a session it does not return
  an updated request whose HttpSession is the new one. A caller that resolves again
  within the same request passes that request itself.
- SessionToken.CutAt, SessionToken.CookieToken, SessionToken.UriToken and
  SessionToken.JsessionId give the empty token for a value made only of dots, where
  Java's `split("\\.")[0]` throws ArrayIndexOutOfBoundsException. The model covers
  the text before the first '.' and not that exception.
- A null `byte[]` page value is not modelled: page data is `seq<bv8>`.
- PageStore.HazelcastDataStore.Destroy: every IMap operation is modelled as total and
  never throwing. A failed `clear`, which Java swallows
  (`HazelcastDataStore.java:66-68`) and which can leave records in the map, is not
  modelled.
- SessionGraph.Lookup requires one vertex per id, because `findFirst` over a `HashSet`
  that holds two vertices with one id depends on hash order. The graph has one vertex
  per id whenever ids are fresh (`CreatedVertex`), and `AddVertexDuplicates` shows how
  it can be lost.
- GraphSearch.FindVertex states which vertices the search may return: reachable ones on
  the current node, with the start's own vertex taken first. It does not pin which of
  several such vertices the FIFO order returns first. The fixture states exact results
  wherever only one vertex is on the node.
- SessionStore.HazelcastSessionStore.SetAttribute and
  SessionStore.HazelcastSessionStore.RemoveAttribute keep the invariant
  only for keys other than the graph key and the alias keys. A master named "session",
  or one starting with "jsessionid", would make an attribute overwrite those entries
  (`ReservedAttributeKey`). Java then hits a ClassCastException on a later read, which
  the model does not follow.
- SessionStore.Resolves and SessionStore.HazelcastSessionStore.GetSessionId pin the
  search branch to the vertices FindVertex may return, and no further: which of several
  reachable vertices on the node the FIFO order answers first is not stated.
- The Java overloads `removeData(sessionId, id)` and `removeData(sessionId)` are the
  methods `RemoveData` and `RemoveSession`. The map names `STORE_NAME` are not modelled:
  each map is its own object.
- `TestHttpGraph.testGraph` and `printVertex` only print, and are left out.
  `testFirstThenSecondNode` asserts nothing in the source; the model states the vertex
  it finds.
- The duplicated graph code in `TestHttpGraph.java` is the same as in the store, line for
  line (`:124-173`, `:196-265`). It is modelled once, in `SessionGraph` and `GraphSearch`.
