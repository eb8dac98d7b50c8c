/**
  The response table and the resolver of the request handler: the route key
  built from a request, the table lookup, and the fallback to the
  "default|default" entry.
 */
module Routing {
  import opened GoStrings

  /** Go's `int` on a 64-bit platform. */
  newtype int64 = x: int | -0x8000_0000_0000_0000 <= x < 0x8000_0000_0000_0000

  /** One canned response: the status code, the delay in seconds, and the
      paths of the header-description file and of the body file. */
  datatype HeaderAndBody = HeaderAndBody(HttpCode: int64, Delay: int64, Header: string, Body: string)

  /** Go's zero value of HeaderAndBody. It is what a lookup of a missing key
      returns, and the handler treats it as "not found". */
  const Zero := HeaderAndBody(0, 0, "", "")

  /** The key of the fallback entry. */
  const DefaultKey := "default|default"

  /** The route key of a request: its verb exactly as received, a bar, and
      its request target with every leading and trailing '/' removed. The
      verb is not case-normalised and the query string stays in. */
  function RouteKey(verb: string, requestURI: string): (key: string)
    ensures |key| > |verb| && key[..|verb|] == verb && key[|verb|] == '|'
    ensures Unpadded(key[|verb| + 1..], '/')
    ensures exists i: nat, j: nat :: requestURI == Rep('/', i) + key[|verb| + 1..] + Rep('/', j)
  {
    TrimShape(requestURI, '/');
    var key := verb + "|" + Trim(requestURI, '/');
    assert key[|verb| + 1..] == Trim(requestURI, '/');
    key
  }

  /** Go's map index: the stored value, or the zero value for a missing key. */
  function Lookup(table: map<string, HeaderAndBody>, key: string): HeaderAndBody
  {
    if key in table then table[key] else Zero
  }

  /** The response the handler serves: the entry under the request's route
      key unless that is missing or zero, and then the "default|default"
      entry, which is itself the zero value when the table has none. */
  function Resolve(table: map<string, HeaderAndBody>, verb: string, requestURI: string): (r: HeaderAndBody)
    ensures var key := RouteKey(verb, requestURI);
      key in table && table[key] != Zero ==> r == table[key]
    ensures var key := RouteKey(verb, requestURI);
      (key !in table || table[key] == Zero) && DefaultKey in table ==> r == table[DefaultKey]
    ensures var key := RouteKey(verb, requestURI);
      (key !in table || table[key] == Zero) && DefaultKey !in table ==> r == Zero
  {
    var response := Lookup(table, RouteKey(verb, requestURI));
    if response == Zero then Lookup(table, DefaultKey) else response
  }

  /** Trimming an already trimmed request target changes nothing: the key is
      the verb, a bar and the target itself. */
  lemma RouteKeyOfTrimmed(verb: string, requestURI: string)
    requires Unpadded(requestURI, '/')
    ensures RouteKey(verb, requestURI) == verb + "|" + requestURI
  {
    assert Rep('/', 0) + requestURI + Rep('/', 0) == requestURI;
    TrimOfPadded('/', 0, requestURI, 0);
  }

  /** Slashes added before or after the request target do not change the key. */
  lemma RouteKeyPaddingInvariant(verb: string, requestURI: string, i: nat, j: nat)
    ensures RouteKey(verb, Rep('/', i) + requestURI + Rep('/', j)) == RouteKey(verb, requestURI)
  {
    TrimPaddingInvariant(requestURI, '/', i, j);
  }

  /** One or two slashes on each side do not change the key: "/a/b/",
      "//a/b//" and "a/b" all give verb|a/b, the interior slash kept. */
  lemma RouteKeyExamples(verb: string, path: string)
    requires Unpadded(path, '/')
    ensures RouteKey(verb, "/" + path + "/") == verb + "|" + path
    ensures RouteKey(verb, "//" + path + "//") == verb + "|" + path
    ensures RouteKey(verb, path) == verb + "|" + path
  {
    RouteKeyOfTrimmed(verb, path);
    assert "/" + path + "/" == Rep('/', 1) + path + Rep('/', 1);
    RouteKeyPaddingInvariant(verb, path, 1, 1);
    assert "//" + path + "//" == Rep('/', 2) + path + Rep('/', 2);
    RouteKeyPaddingInvariant(verb, path, 2, 2);
  }

  /** One leading slash is dropped from a target that is otherwise trimmed. */
  lemma RouteKeyLeadingSlash(verb: string, target: string)
    requires Unpadded(target, '/')
    ensures RouteKey(verb, "/" + target) == verb + "|" + target
  {
    assert "/" + target == Rep('/', 1) + target + Rep('/', 0);
    RouteKeyOfTrimmed(verb, target);
    RouteKeyPaddingInvariant(verb, target, 1, 0);
  }

  /** The query string is part of the key: "/status?x=1" gives
      verb|status?x=1. */
  lemma RouteKeyKeepsQuery(verb: string, path: string, query: string)
    requires path != [] && path[0] != '/'
    requires query == [] || query[|query| - 1] != '/'
    ensures RouteKey(verb, "/" + path + "?" + query) == verb + "|" + path + "?" + query
  {
    var target := path + "?" + query;
    assert target[0] == path[0] && target[|target| - 1] != '/';
    assert "/" + path + "?" + query == "/" + target;
    assert verb + "|" + path + "?" + query == verb + "|" + target;
    RouteKeyLeadingSlash(verb, target);
  }

  /** Different verbs give different keys for the same target: "get" and
      "GET" are two routes. */
  lemma RouteKeySeparatesMethods(m1: string, m2: string, requestURI: string)
    requires m1 != m2
    ensures RouteKey(m1, requestURI) != RouteKey(m2, requestURI)
  {
  }

  /** When the verb holds no bar, the key can be taken apart again: the
      verb ends at the first bar and the trimmed target follows it. */
  lemma RouteKeyParts(verb: string, requestURI: string)
    requires '|' !in verb
    ensures var key := RouteKey(verb, requestURI);
      IndexOf(key, '|') == |verb| && key[|verb| + 1..] == Trim(requestURI, '/')
  {
    var key := RouteKey(verb, requestURI);
    assert key == verb + "|" + Trim(requestURI, '/');
    assert key[|verb|] == '|';
    assert forall k :: 0 <= k < |verb| ==> key[k] == verb[k];
  }

  /** Two requests whose targets differ only in leading and trailing slashes
      are served the same response. */
  lemma ResolvePaddingInvariant(table: map<string, HeaderAndBody>, verb: string, requestURI: string, i: nat, j: nat)
    ensures Resolve(table, verb, Rep('/', i) + requestURI + Rep('/', j)) == Resolve(table, verb, requestURI)
  {
    RouteKeyPaddingInvariant(verb, requestURI, i, j);
  }

  /** The handler serves the zero response exactly when both the entry under
      the key and the fallback entry are missing or zero. */
  lemma ResolveZeroIff(table: map<string, HeaderAndBody>, verb: string, requestURI: string)
    ensures Resolve(table, verb, requestURI) == Zero <==>
      Lookup(table, RouteKey(verb, requestURI)) == Zero && Lookup(table, DefaultKey) == Zero
  {
  }

  /** A table with an entry for one route and a fallback: a request for
      that route gets its own entry, a request for any other route gets the
      fallback (as "GET /status" and "GET /missing" do for a table holding
      "GET|status" and "default|default"). */
  lemma ResolveScenario(verb: string, path: string, other: string, status: HeaderAndBody, notFound: HeaderAndBody)
    requires Unpadded(path, '/') && Unpadded(other, '/') && path != other
    requires verb + "|" + path != DefaultKey && verb + "|" + other != DefaultKey
    requires status != Zero
    ensures var table := map[verb + "|" + path := status, DefaultKey := notFound];
      Resolve(table, verb, "/" + path) == status && Resolve(table, verb, "/" + other) == notFound
  {
    var table := map[verb + "|" + path := status, DefaultKey := notFound];
    var hit, miss := verb + "|" + path, verb + "|" + other;
    assert hit != miss by {
      assert hit[|verb| + 1..] == path && miss[|verb| + 1..] == other;
    }
    assert miss !in table;
    assert hit in table && table[hit] == status;
    RouteKeyLeadingSlash(verb, path);
    RouteKeyLeadingSlash(verb, other);
  }
}
