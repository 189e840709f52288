/**
 * `match_routes`: the route table is an ordered list of `"METHOD:path"` keys
 * with the name of the handler each is bound to. Walking it in order, the
 * matcher remembers the handler of every entry whose path and method both
 * match (so the last one wins) and collects, in order of first occurrence,
 * the other methods registered at the request's path.
 */
module Router {
  import opened PhpValues
  import opened Requests

  type RouteTable = seq<(string, string)>

  datatype MatchResult = MatchResult(handler: Option<string>, otherMethods: Option<seq<string>>, request: Request)

  /** `list($route_method, $route_path) = explode(':', $route)`: the part before the first `:`. */
  function RouteMethod(route: string): string {
    Split(route, ':')[0]
  }

  /** The part between the first and the second `:`; null for a key without `:`. */
  function RoutePath(route: string): Option<string> {
    var parts := Split(route, ':');
    if |parts| >= 2 then Some(parts[1]) else None
  }

  /** A route key written as `METHOD:path` is read back as that method and that path. */
  lemma RouteKeyParts(verb: string, path: string)
    requires ':' !in verb && ':' !in path
    ensures RouteMethod(verb + ":" + path) == verb
    ensures RoutePath(verb + ":" + path) == Some(path)
  {
    assert Implode([verb, path], [':']) == verb + ":" + path;
    SplitImplode([verb, path], ':');
  }

  /** `$route_path == $req['path']`; a null path compares loosely equal to "" only. */
  predicate AtPath(route: string, path: string) {
    match RoutePath(route)
    case Some(p) => p == path
    case None => path == ""
  }

  predicate Serves(route: string, path: string, verb: string) {
    AtPath(route, path) && RouteMethod(route) == verb
  }

  /** The handler recorded after the walk: that of the last entry serving path and method. */
  function LastHandler(routes: RouteTable, path: string, verb: string): Option<string>
    decreases |routes|
  {
    if routes == [] then None
    else
      var last := routes[|routes| - 1];
      if Serves(last.0, path, verb) then Some(last.1) else LastHandler(routes[..|routes| - 1], path, verb)
  }

  /**
   * The keys of the `other_methods` dictionary after the walk: inserting a
   * key that is already there keeps its place, so each method appears once,
   * where it was first seen.
   */
  function OtherMethods(routes: RouteTable, path: string, verb: string): seq<string>
    decreases |routes|
  {
    if routes == [] then []
    else
      var last := routes[|routes| - 1];
      var seen := OtherMethods(routes[..|routes| - 1], path, verb);
      var m := RouteMethod(last.0);
      if AtPath(last.0, path) && m != verb && m !in seen then seen + [m] else seen
  }

  /** The result of `match_routes`: `other_methods` is false when there is none. */
  function Matched(req: Request, routes: RouteTable): MatchResult {
    var others := OtherMethods(routes, req.path, req.verb);
    MatchResult(LastHandler(routes, req.path, req.verb), if |others| > 0 then Some(others) else None, req)
  }

  /** `match_routes`: one pass over the table, in declaration order. */
  method MatchRoutes(req: Request, routes: RouteTable) returns (res: MatchResult)
    ensures res.handler == LastHandler(routes, req.path, req.verb)
    ensures res.otherMethods.Some? <==> |OtherMethods(routes, req.path, req.verb)| > 0
    ensures res.otherMethods.Some? ==> res.otherMethods.value == OtherMethods(routes, req.path, req.verb)
    ensures res.request == req
  {
    var handler: Option<string> := None;
    var others: seq<string> := [];
    for i := 0 to |routes|
      invariant handler == LastHandler(routes[..i], req.path, req.verb)
      invariant others == OtherMethods(routes[..i], req.path, req.verb)
    {
      assert routes[..i + 1][..i] == routes[..i];
      var (route, h) := routes[i];
      var parts := Split(route, ':');
      var routeMethod := parts[0];
      var routePath := if |parts| >= 2 then Some(parts[1]) else None;
      var pathMatches := match routePath case Some(p) => p == req.path case None => req.path == "";
      if pathMatches {
        if routeMethod != req.verb {
          if routeMethod !in others {
            others := others + [routeMethod];
          }
          continue;
        }
        handler := Some(h);
      }
    }
    assert routes[..|routes|] == routes;
    res := MatchResult(handler, if |others| > 0 then Some(others) else None, req);
  }

  /**
   * The handler is null exactly when no entry serves the path and method;
   * otherwise it is that of the last entry that does.
   */
  lemma {:induction false} LastHandlerSpec(routes: RouteTable, path: string, verb: string)
    ensures LastHandler(routes, path, verb).None? <==>
              forall i :: 0 <= i < |routes| ==> !Serves(routes[i].0, path, verb)
    ensures forall i ::
              0 <= i < |routes| && Serves(routes[i].0, path, verb)
              && (forall j :: i < j < |routes| ==> !Serves(routes[j].0, path, verb))
              ==> LastHandler(routes, path, verb) == Some(routes[i].1)
    decreases |routes|
  {
    if routes != [] {
      var n := |routes| - 1;
      var prefix := routes[..n];
      LastHandlerSpec(prefix, path, verb);
      assert forall i :: 0 <= i < n ==> prefix[i] == routes[i];
    }
  }

  /** Some entry among the first `bound` registers method `m` at `path`. */
  ghost predicate RegisteredBefore(routes: RouteTable, path: string, m: string, bound: int) {
    exists i :: 0 <= i < bound && i < |routes| && AtPath(routes[i].0, path) && RouteMethod(routes[i].0) == m
  }

  lemma RegisteredInPrefix(routes: RouteTable, n: nat, path: string, m: string, bound: int)
    requires n <= |routes| && bound <= n
    ensures RegisteredBefore(routes[..n], path, m, bound) <==> RegisteredBefore(routes, path, m, bound)
  {
    if RegisteredBefore(routes, path, m, bound) {
      var i :| 0 <= i < bound && i < |routes| && AtPath(routes[i].0, path) && RouteMethod(routes[i].0) == m;
      assert routes[..n][i] == routes[i];
    }
  }

  /**
   * The other methods are the methods registered at the path that differ
   * from the request's, each once; their order is that of first occurrence:
   * any prefix of the table that registers a later one registers every
   * earlier one too.
   */
  lemma {:induction false} OtherMethodsSpec(routes: RouteTable, path: string, verb: string)
    ensures forall m ::
              m in OtherMethods(routes, path, verb) <==> m != verb && RegisteredBefore(routes, path, m, |routes|)
    ensures forall p, q :: 0 <= p < q < |OtherMethods(routes, path, verb)| ==>
              OtherMethods(routes, path, verb)[p] != OtherMethods(routes, path, verb)[q]
    ensures forall p, q, j ::
              0 <= p < q < |OtherMethods(routes, path, verb)| && j <= |routes|
              && RegisteredBefore(routes, path, OtherMethods(routes, path, verb)[q], j)
              ==> RegisteredBefore(routes, path, OtherMethods(routes, path, verb)[p], j)
    decreases |routes|
  {
    if routes != [] {
      var n := |routes| - 1;
      var prefix := routes[..n];
      var last := routes[n];
      var seen := OtherMethods(prefix, path, verb);
      var others := OtherMethods(routes, path, verb);
      var m := RouteMethod(last.0);
      OtherMethodsSpec(prefix, path, verb);
      forall x, bound | bound <= n
        ensures RegisteredBefore(prefix, path, x, bound) <==> RegisteredBefore(routes, path, x, bound)
      {
        RegisteredInPrefix(routes, n, path, x, bound);
      }
      forall x
        ensures RegisteredBefore(routes, path, x, |routes|)
            <==> RegisteredBefore(routes, path, x, n) || (AtPath(last.0, path) && m == x)
      {
        if RegisteredBefore(routes, path, x, |routes|) && !(AtPath(last.0, path) && m == x) {
          var i :| 0 <= i < |routes| && AtPath(routes[i].0, path) && RouteMethod(routes[i].0) == x;
          assert i < n;
        }
      }
      forall p, q, j |
        0 <= p < q < |others| && j <= |routes| && RegisteredBefore(routes, path, others[q], j)
        ensures RegisteredBefore(routes, path, others[p], j)
      {
        assert others[p] in seen;
        if j <= n {
          if q < |seen| {
            assert others[q] == seen[q];
          } else {
            assert false;
          }
        } else {
          assert RegisteredBefore(routes, path, others[p], n);
          var i :| 0 <= i < n && i < |routes| && AtPath(routes[i].0, path) && RouteMethod(routes[i].0) == others[p];
        }
      }
    }
  }

  /** The route table eilog declares. */
  const EntryRoutes: RouteTable := [("POST:/entry", "do_put_entry"), ("PUT:/entry", "do_put_entry")]

  lemma EntryRouteKeys()
    ensures RouteMethod(EntryRoutes[0].0) == "POST" && RoutePath(EntryRoutes[0].0) == Some("/entry")
    ensures RouteMethod(EntryRoutes[1].0) == "PUT" && RoutePath(EntryRoutes[1].0) == Some("/entry")
  {
    assert "POST:/entry" == "POST" + ":" + "/entry";
    assert "PUT:/entry" == "PUT" + ":" + "/entry";
    RouteKeyParts("POST", "/entry");
    RouteKeyParts("PUT", "/entry");
  }

  /** The walk over a table of two entries, entry by entry. */
  lemma TwoRoutes(e0: (string, string), e1: (string, string), path: string, verb: string)
    ensures LastHandler([e0, e1], path, verb)
         == if Serves(e1.0, path, verb) then Some(e1.1) else if Serves(e0.0, path, verb) then Some(e0.1) else None
    ensures OtherMethods([e0, e1], path, verb)
         == var first := if AtPath(e0.0, path) && RouteMethod(e0.0) != verb then [RouteMethod(e0.0)] else [];
            if AtPath(e1.0, path) && RouteMethod(e1.0) != verb && RouteMethod(e1.0) !in first
            then first + [RouteMethod(e1.0)] else first
  {
    var t := [e0, e1];
    var one := [e0];
    assert t[..|t| - 1] == one && t[|t| - 1] == e1;
    assert one[..|one| - 1] == [] && one[|one| - 1] == e0;
    assert LastHandler(one, path, verb) == if Serves(e0.0, path, verb) then Some(e0.1) else None;
    assert OtherMethods(one, path, verb)
        == if AtPath(e0.0, path) && RouteMethod(e0.0) != verb then [RouteMethod(e0.0)] else [];
  }

  /** With that table, `/entry` is served for POST and PUT, and any other method sees both listed. */
  lemma EntryRoutesMatch(path: string, verb: string)
    ensures path == "/entry" && (verb == "POST" || verb == "PUT") ==>
              LastHandler(EntryRoutes, path, verb) == Some("do_put_entry")
    ensures path == "/entry" && verb != "POST" && verb != "PUT" ==>
              LastHandler(EntryRoutes, path, verb) == None && OtherMethods(EntryRoutes, path, verb) == ["POST", "PUT"]
    ensures path != "/entry" ==>
              LastHandler(EntryRoutes, path, verb) == None && OtherMethods(EntryRoutes, path, verb) == []
  {
    EntryRouteKeys();
    TwoRoutes(EntryRoutes[0], EntryRoutes[1], path, verb);
    assert EntryRoutes == [EntryRoutes[0], EntryRoutes[1]];
    assert "POST" != "PUT";
  }

}
