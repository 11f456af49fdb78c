/**
  HazelcastSessionStore2.getJsessionId: the session token a request carries, from a
  `JSESSIONID` cookie or else from a `;jsessionid=` path parameter.
 */
module SessionToken {
  import opened Wrappers

  const JSESSIONID := "JSESSIONID"
  const URI_PARAM := "jsessionid="

  /** A cookie of the request; a cookie without a value has `None`. */
  datatype Cookie = Cookie(name: string, value: Option<string>)

  /** The text of `s` before its first `c`; all of `s` when `c` does not occur. */
  function CutAt(s: string, c: char): (r: string)
    ensures r <= s
    ensures c !in r
    ensures |r| == |s| || s[|r|] == c
    decreases |s|
  {
    if s == [] || s[0] == c then [] else [s[0]] + CutAt(s[1..], c)
  }

  /** The text of `s` after its first `c`, when `c` occurs. */
  function After(s: string, c: char): (r: Option<string>)
    ensures r.Some? <==> c in s
    ensures r.Some? ==> s == CutAt(s, c) + [c] + r.value
  {
    if c in s then
      var k := |CutAt(s, c)|;
      assert CutAt(s, c) == s[..k];
      assert s == s[..k] + [c] + s[k + 1..];
      Some(s[k + 1..])
    else
      None
  }

  /** String.contains. */
  predicate Contains(s: string, p: string)
    decreases |s|
  {
    |p| <= |s| && (s[..|p|] == p || Contains(s[1..], p))
  }

  /** `p` occurs in `s` at position `i`. */
  predicate OccursAt(s: string, p: string, i: int) {
    0 <= i <= |s| - |p| && s[i..i + |p|] == p
  }

  /** Contains(s, p) holds exactly when `p` occurs in `s` at some position. */
  lemma {:induction false} ContainsAt(s: string, p: string)
    ensures Contains(s, p) <==> exists i :: OccursAt(s, p, i)
    decreases |s|
  {
    if |p| <= |s| && s[..|p|] != p {
      ContainsAt(s[1..], p);
      if Contains(s[1..], p) {
        var i :| OccursAt(s[1..], p, i);
        assert s[i + 1..i + 1 + |p|] == s[1..][i..i + |p|];
        assert OccursAt(s, p, i + 1);
      } else if i :| OccursAt(s, p, i) {
        assert i != 0;
        assert s[1..][i - 1..i - 1 + |p|] == s[i..i + |p|];
        assert OccursAt(s[1..], p, i - 1);
      }
    } else if |p| <= |s| {
      assert OccursAt(s, p, 0);
    }
  }

  /**
    String.replace(p, "") for a non-empty `p`: the occurrences of `p` found scanning
    left to right, without overlap, are dropped.
   */
  function RemoveAll(s: string, p: string): (r: string)
    requires |p| > 0
    ensures |r| <= |s|
    ensures !Contains(s, p) ==> r == s
    decreases |s|
  {
    if |s| < |p| then s
    else if s[..|p|] == p then RemoveAll(s[|p|..], p)
    else [s[0]] + RemoveAll(s[1..], p)
  }

  /** Removing an occurrence shortens the text by at least the length of `p`. */
  lemma {:induction false} RemoveAllShrinks(s: string, p: string)
    requires |p| > 0 && Contains(s, p)
    ensures |RemoveAll(s, p)| <= |s| - |p|
    decreases |s|
  {
    if s[..|p|] != p {
      RemoveAllShrinks(s[1..], p);
    }
  }

  /** The cookie a token may come from: named JSESSIONID and carrying a value. */
  predicate IsSessionCookie(c: Cookie) {
    c.name == JSESSIONID && c.value.Some?
  }

  /** The cookie half of getJsessionId: the first session cookie's value, cut at its first '.'. */
  function CookieToken(cookies: seq<Cookie>): (r: Option<string>)
    ensures r.Some? ==> '.' !in r.value
    decreases |cookies|
  {
    if cookies == [] then None
    else if IsSessionCookie(cookies[0]) then Some(CutAt(cookies[0].value.value, '.'))
    else CookieToken(cookies[1..])
  }

  /** The first session cookie decides the token, whatever follows it. */
  lemma {:induction false} CookieTokenFirst(cookies: seq<Cookie>, i: nat)
    requires i < |cookies| && IsSessionCookie(cookies[i])
    requires forall j :: 0 <= j < i ==> !IsSessionCookie(cookies[j])
    ensures CookieToken(cookies) == Some(CutAt(cookies[i].value.value, '.'))
    decreases i
  {
    if i > 0 {
      assert !IsSessionCookie(cookies[0]);
      CookieTokenFirst(cookies[1..], i - 1);
    }
  }

  /** Without a session cookie there is no cookie token. */
  lemma {:induction false} CookieTokenNone(cookies: seq<Cookie>)
    requires forall j :: 0 <= j < |cookies| ==> !IsSessionCookie(cookies[j])
    ensures CookieToken(cookies) == None
    decreases |cookies|
  {
    if cookies != [] {
      CookieTokenNone(cookies[1..]);
    }
  }

  /**
    The URI half of getJsessionId. Java splits the URI at ';' and looks at the second
    piece, which is the text between the first ';' and the next one. `split` drops
    trailing empty pieces, but a piece holding "jsessionid=" is never empty, so the test
    `split.length > 1 && split[1].contains("jsessionid=")` holds exactly when that text
    exists and contains "jsessionid=". The parameter name is removed and the rest cut at
    its first '.'.
   */
  function UriToken(uri: string): (r: Option<string>)
    ensures r.Some? ==> ';' in uri && '.' !in r.value
  {
    var rest := After(uri, ';');
    if rest.Some? && Contains(CutAt(rest.value, ';'), URI_PARAM) then
      Some(CutAt(RemoveAll(CutAt(rest.value, ';'), URI_PARAM), '.'))
    else
      None
  }

  /** getJsessionId: the cookie token when there is one, else the URI token. */
  function JsessionId(cookies: seq<Cookie>, uri: string): (r: Option<string>)
    ensures r.Some? ==> '.' !in r.value
  {
    var fromCookie := CookieToken(cookies);
    if fromCookie.Some? then fromCookie else UriToken(uri)
  }

  /** The first session cookie wins, and the URI is then not consulted. */
  lemma CookieWins(cookies: seq<Cookie>, uri: string, i: nat)
    requires i < |cookies| && IsSessionCookie(cookies[i])
    requires forall j :: 0 <= j < i ==> !IsSessionCookie(cookies[j])
    ensures JsessionId(cookies, uri) == Some(CutAt(cookies[i].value.value, '.'))
  {
    CookieTokenFirst(cookies, i);
  }

  /** With no session cookie the token is the URI's. */
  lemma UriFallback(cookies: seq<Cookie>, uri: string)
    requires forall j :: 0 <= j < |cookies| ==> !IsSessionCookie(cookies[j])
    ensures JsessionId(cookies, uri) == UriToken(uri)
  {
    CookieTokenNone(cookies);
  }

  /** The text before and after the first `c` of `a + [c] + b` are `a` and `b`. */
  lemma {:induction false} SplitAtFirst(a: string, c: char, b: string)
    requires c !in a
    ensures CutAt(a + [c] + b, c) == a
    ensures After(a + [c] + b, c) == Some(b)
    decreases |a|
  {
    var s := a + [c] + b;
    if a != [] {
      assert s[1..] == a[1..] + [c] + b;
      SplitAtFirst(a[1..], c, b);
    }
    assert CutAt(s, c) == a;
    assert s[|a| + 1..] == b;
  }

  /** A leading occurrence of `p` is dropped and the scan goes on after it. */
  lemma RemoveAllLeading(p: string, t: string)
    requires |p| > 0
    ensures Contains(p + t, p)
    ensures RemoveAll(p + t, p) == RemoveAll(t, p)
  {
    assert (p + t)[..|p|] == p;
    assert (p + t)[|p|..] == t;
  }

  /** A Tomcat-style cookie value: the route suffix after '.' is cut off. */
  lemma CookieExample()
    ensures JsessionId([Cookie("lang", Some("en")), Cookie(JSESSIONID, Some("A1.n1"))], "/") == Some("A1")
  {
    var cookies := [Cookie("lang", Some("en")), Cookie(JSESSIONID, Some("A1.n1"))];
    assert !IsSessionCookie(cookies[0]);
    CookieWins(cookies, "/", 1);
    assert "A1.n1" == "A1" + ['.'] + "n1";
    SplitAtFirst("A1", '.', "n1");
  }

  /** A URI `path;jsessionid=value` yields `value`, with the parameter name removed, cut at '.'. */
  lemma UriParameter(path: string, value: string)
    requires ';' !in path && ';' !in value
    ensures UriToken(path + [';'] + (URI_PARAM + value)) == Some(CutAt(RemoveAll(value, URI_PARAM), '.'))
  {
    var rest := URI_PARAM + value;
    SplitAtFirst(path, ';', rest);
    assert ';' !in rest;
    assert CutAt(rest, ';') == rest;
    RemoveAllLeading(URI_PARAM, value);
  }

  /** `path;jsessionid=token.route` yields `token` when the value does not repeat the parameter name. */
  lemma UriRoute(path: string, token: string, route: string)
    requires ';' !in path && ';' !in token && '.' !in token && ';' !in route
    requires !Contains(token + ['.'] + route, URI_PARAM)
    ensures UriToken(path + [';'] + (URI_PARAM + (token + ['.'] + route))) == Some(token)
  {
    var value := token + ['.'] + route;
    UriParameter(path, value);
    SplitAtFirst(token, '.', route);
  }

  /** A path parameter with a route suffix gives the text before the '.'. */
  lemma UriRouteExample()
    ensures UriToken("/a;jsessionid=C3.n2") == Some("C3")
  {
    assert "/a;jsessionid=C3.n2" == "/a" + [';'] + (URI_PARAM + ("C3" + ['.'] + "n2"));
    UriRoute("/a", "C3", "n2");
  }

  /** The URI decides when the only JSESSIONID cookie has no value. */
  lemma UriExample()
    ensures JsessionId([Cookie(JSESSIONID, None)], "/a;jsessionid=C3.n2") == Some("C3")
  {
    UriFallback([Cookie(JSESSIONID, None)], "/a;jsessionid=C3.n2");
    UriRouteExample();
  }

  /** Only the text right after the first ';' is looked at. */
  lemma UriSecondParameterExample()
    ensures JsessionId([], "/a;x;jsessionid=C3") == None
  {
    assert "/a;x;jsessionid=C3" == "/a" + [';'] + ("x" + [';'] + "jsessionid=C3");
    SplitAtFirst("/a", ';', "x" + [';'] + "jsessionid=C3");
    SplitAtFirst("x", ';', "jsessionid=C3");
  }
}
