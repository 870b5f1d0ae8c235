/**
 * Dispatch in route.go: `route` turns the candidates for a request into the
 * endpoint's handler and method list, getHandler decides between serving,
 * 404 and 405, and the Router registers templates and handlers.
 */
module Router {
  import opened Common
  import Strings
  import opened RouteKeys
  import opened RouteScore

  /** The handler a request method gets from an endpoint's table: its own entry, else the "*" entry. */
  function HandlerFor<H>(methods: map<string, H>, httpMethod: string): (h: Option<H>)
    ensures h.Some? <==> httpMethod in methods || "*" in methods
    ensures httpMethod in methods ==> h == Some(methods[httpMethod])
    ensures httpMethod !in methods && "*" in methods ==> h == Some(methods["*"])
  {
    if httpMethod in methods then Some(methods[httpMethod])
    else if "*" in methods then Some(methods["*"])
    else None
  }

  /** `ms` lists every key of `methods` exactly once. */
  ghost predicate ListsKeys<H>(ms: seq<string>, methods: map<string, H>) {
    && (forall i, j | 0 <= i < j < |ms| :: ms[i] != ms[j])
    && (forall m :: m in ms <==> m in methods)
  }

  /**
   * The route found for a request: the handler to serve and the methods the
   * endpoint has. The pattern and the parameters of Go's route come from
   * the route trie's pathString and vars, which are not part of this model.
   */
  datatype Route<H> = Route(handler: Option<H>, methods: seq<string>)

  /** What `route` returns for the endpoint `t`: the handler for the method and all of t's methods. */
  ghost predicate RouteOf<H>(r: Route<H>, methods: map<string, H>, httpMethod: string) {
    r.handler == HandlerFor(methods, httpMethod) && ListsKeys(r.methods, methods)
  }

  /**
   * router.route: nil when no candidate is eligible; otherwise the route of
   * the endpoint pickNode chooses under the penalty `rule` (ExactMethodOnly
   * is the code as written). The methods are listed in the map's iteration
   * order, which Go leaves unspecified.
   */
  method FindRoute<H>(a: seq<Node<H>>, nodes: seq<Option<nat>>, pieces: seq<string>, httpMethod: string, rule: PenaltyRule)
    returns (result: Option<Route<H>>)
    requires Candidates(a, nodes, pieces)
    ensures result.None? <==> forall j | 0 <= j < |nodes| :: !Eligible(a, nodes[j])
    ensures result.Some? ==> exists t | 0 <= t < |a| ::
      Picked(a, nodes, pieces, httpMethod, rule, Some(t)) && RouteOf(result.value, a[t].methods, httpMethod)
  {
    if |nodes| < 1 {
      return None;
    }
    var node := PickNode(a, nodes, pieces, httpMethod, rule);
    if node.None? {
      return None;
    }
    var t := node.value;
    assert t < |a| by {
      var k :| 0 <= k < |nodes| && Eligible(a, nodes[k]) && node == a[nodes[k].value].terminator;
    }
    var table := a[t].methods;
    var methods: seq<string> := [];
    var rest := table.Keys;
    while rest != {}
      invariant rest <= table.Keys
      invariant forall m :: m in methods <==> m in table && m !in rest
      invariant forall i, j | 0 <= i < j < |methods| :: methods[i] != methods[j]
      decreases rest
    {
      var m :| m in rest;
      methods := methods + [m];
      rest := rest - {m};
    }
    result := Some(Route(HandlerFor(table, httpMethod), methods));
    assert RouteOf(result.value, a[t].methods, httpMethod);
  }

  /** What getHandler does with the request. */
  datatype Decision<H> = NotFound | MethodNotAllowed | Serve(handler: H)

  /**
   * getHandler's decision: no trie or no route is a 404; a route without a
   * handler is a 404 when its endpoint has no methods at all and a 405
   * otherwise; else the route's handler serves the request.
   */
  function Decide<H>(hasTrie: bool, found: Option<Route<H>>): Decision<H> {
    if !hasTrie then NotFound
    else if found.None? then NotFound
    else if found.value.handler.None? then
      if |found.value.methods| < 1 then NotFound else MethodNotAllowed
    else Serve(found.value.handler.value)
  }

  /**
   * For the route of an endpoint with method table `methods`: 404 exactly
   * when the table is empty, 405 exactly when it is not but has neither the
   * method nor "*", and otherwise the method's own handler, else the "*" one.
   */
  lemma DecideOnRoute<H>(r: Route<H>, methods: map<string, H>, httpMethod: string)
    requires RouteOf(r, methods, httpMethod)
    ensures Decide(true, Some(r)) == NotFound <==> methods == map[]
    ensures Decide(true, Some(r)) == MethodNotAllowed <==>
      methods != map[] && httpMethod !in methods && "*" !in methods
    ensures Decide(true, Some(r)).Serve? <==> httpMethod in methods || "*" in methods
    ensures httpMethod in methods ==> Decide(true, Some(r)) == Serve(methods[httpMethod])
    ensures httpMethod !in methods && "*" in methods ==> Decide(true, Some(r)) == Serve(methods["*"])
  {
    if methods != map[] {
      var m :| m in methods;
      assert m in r.methods;
    }
    if |r.methods| >= 1 {
      assert r.methods[0] in methods;
    }
  }

  /**
   * An endpoint given one handler for GET and POST serves GET and POST with
   * it and answers PUT with 405.
   */
  lemma GetPostEndpoint<H>(h: H, get: Route<H>, post: Route<H>, put: Route<H>)
    requires RouteOf(get, map["GET" := h, "POST" := h], "GET")
    requires RouteOf(post, map["GET" := h, "POST" := h], "POST")
    requires RouteOf(put, map["GET" := h, "POST" := h], "PUT")
    ensures Decide(true, Some(get)) == Serve(h)
    ensures Decide(true, Some(post)) == Serve(h)
    ensures Decide(true, Some(put)) == MethodNotAllowed
  {
    var methods := map["GET" := h, "POST" := h];
    DecideOnRoute(get, methods, "GET");
    DecideOnRoute(post, methods, "POST");
    DecideOnRoute(put, methods, "PUT");
  }

  /**
   * route.go:114-116 promises that a route that cannot serve the method is
   * returned only when no route can. As written it is not so: with `/v1`
   * registered for POST only and `/{id}` with a "*" handler only, GET /v1
   * picks `/v1`, and getHandler answers 405.
   */
  lemma CatchAllAnswered405<H>(postStatic: H, any: H, r: Route<H>, t: nat)
    requires var a := TwoEndpoints(map["POST" := postStatic], map["*" := any]);
      && Candidates(a, [Some(1), Some(2)], ["v1"])
      && t < |a| && Picked(a, [Some(1), Some(2)], ["v1"], "GET", ExactMethodOnly, Some(t))
      && RouteOf(r, a[t].methods, "GET")
    ensures Decide(true, Some(r)) == MethodNotAllowed
    ensures HandlerFor(TwoEndpoints(map["POST" := postStatic], map["*" := any])[2].methods, "GET") == Some(any)
  {
    var a := TwoEndpoints(map["POST" := postStatic], map["*" := any]);
    CatchAllLoses(postStatic, any, Some(t));
    assert t == 1 && "POST" in a[t].methods;
    DecideOnRoute(r, a[t].methods, "GET");
  }

  /**
   * Under the intended penalty the promise holds: when some eligible
   * candidate can serve the method (its own handler or "*"), the route
   * found is served, never answered 404 or 405.
   */
  lemma IntendedRouteServes<H>(a: seq<Node<H>>, nodes: seq<Option<nat>>, pieces: seq<string>, httpMethod: string,
                               r: Route<H>, t: nat, j: nat)
    requires Candidates(a, nodes, pieces)
    requires t < |a| && Picked(a, nodes, pieces, httpMethod, MethodOrCatchAll, Some(t)) && RouteOf(r, a[t].methods, httpMethod)
    requires j < |nodes| && Eligible(a, nodes[j])
    requires HandlerFor(a[a[nodes[j].value].terminator.value].methods, httpMethod).Some?
    ensures HandlerFor(a[t].methods, httpMethod).Some?
    ensures Decide(true, Some(r)) == Serve(HandlerFor(a[t].methods, httpMethod).value)
  {
    UnpenalisedWins(a, nodes, pieces, httpMethod, MethodOrCatchAll, Some(t), j);
    DecideOnRoute(r, a[t].methods, httpMethod);
  }

  /**
   * The pieces getHandler matches: the path without the router prefix,
   * cut exactly as a template is (trimmed, lower-cased, split at slashes).
   */
  function RequestPieces(prefix: string, path: string): (pieces: seq<string>)
    ensures |pieces| >= 1
  {
    TemplatePieces(Strings.TrimPrefix(path, prefix))
  }

  /**
   * A template matches the request that spells it out: each key of the
   * template `path` (after the prefix), written back out, is the request
   * piece at its position.
   */
  lemma RequestLikeTemplate(prefix: string, path: string)
    ensures |TemplateKeys(Strings.TrimPrefix(path, prefix))| == |RequestPieces(prefix, path)|
    ensures forall i | 0 <= i < |TemplateKeys(Strings.TrimPrefix(path, prefix))| ::
      Render(TemplateKeys(Strings.TrimPrefix(path, prefix))[i]) == RequestPieces(prefix, path)[i]
  {
    var t := Strings.TrimPrefix(path, prefix);
    forall i | 0 <= i < |TemplateKeys(t)| ensures Render(TemplateKeys(t)[i]) == RequestPieces(prefix, path)[i] {
      RenderKeyOf(TemplatePieces(t)[i]);
    }
  }

  /** The zero root node that Endpoint and Prefix create with the trie. */
  function RootNode<H>(): Node<H> {
    Node(None, Key("", false, false, false), None, map[])
  }

  /** `methods` after assigning `h` to every method in `ms`. */
  function AssignAll<H>(methods: map<string, H>, ms: seq<string>, h: H): (r: map<string, H>)
    ensures forall m :: m in r <==> m in methods || m in ms
    ensures forall m | m in ms :: r[m] == h
    ensures forall m | m in methods && m !in ms :: r[m] == methods[m]
  {
    if ms == [] then methods else AssignAll(methods, ms[..|ms| - 1], h)[ms[|ms| - 1] := h]
  }

  /**
   * The Router: the prefix it strips from request paths and its route trie,
   * absent until the first Endpoint or Prefix. The trie is the node arena.
   */
  class Router<H> {
    var prefix: string
    var hasTrie: bool
    var nodes: seq<Node<H>>

    ghost predicate Valid()
      reads this
    {
      && NodesWellFormed(nodes)
      && (hasTrie <==> |nodes| >= 1)
    }

    /** The zero Router: no prefix and no trie. */
    constructor ()
      ensures Valid() && prefix == "" && !hasTrie && nodes == []
    {
      prefix := "";
      hasTrie := false;
      nodes := [];
    }

    /** SetPrefix. */
    method SetPrefix(p: string)
      requires Valid()
      modifies this
      ensures Valid() && prefix == p && hasTrie == old(hasTrie) && nodes == old(nodes)
    {
      prefix := p;
    }

    /** The lazy creation of the trie, with its zero root, in Endpoint and Prefix. */
    method EnsureTrie()
      requires Valid()
      modifies this
      ensures Valid() && hasTrie && prefix == old(prefix)
      ensures nodes == if old(hasTrie) then old(nodes) else [RootNode()]
    {
      if !hasTrie {
        hasTrie := true;
        nodes := [RootNode()];
      }
    }

    /**
     * Router.Endpoint up to trie.add: creates the trie if needed and returns
     * the keys of the template, which trie.add would insert.
     */
    method Endpoint(e: string) returns (keys: seq<Key>)
      requires Valid()
      modifies this
      ensures Valid() && hasTrie && prefix == old(prefix)
      ensures nodes == if old(hasTrie) then old(nodes) else [RootNode()]
      ensures keys == TemplateKeys(e)
    {
      EnsureTrie();
      keys := KeysFromString(e);
    }

    /**
     * Router.Prefix up to trie.add: as Endpoint, with the last key marked as
     * a prefix key.
     */
    method Prefix(p: string) returns (keys: seq<Key>)
      requires Valid()
      modifies this
      ensures Valid() && hasTrie && prefix == old(prefix)
      ensures nodes == if old(hasTrie) then old(nodes) else [RootNode()]
      ensures keys == MarkPrefix(TemplateKeys(p))
    {
      EnsureTrie();
      keys := KeysFromString(p);
      var last := keys[|keys| - 1];
      last := last.(prefix := true);
      keys := keys[|keys| - 1 := last];
    }

    /** Endpoint.Handler and Prefix.Handler: the "*" entry of the node's table becomes `h`; nothing else changes. */
    method Handler(n: nat, h: H)
      requires Valid() && n < |nodes|
      modifies this
      ensures Valid() && prefix == old(prefix) && hasTrie == old(hasTrie)
      ensures nodes == old(nodes)[n := old(nodes[n]).(methods := old(nodes[n].methods)["*" := h])]
    {
      nodes := nodes[n := nodes[n].(methods := nodes[n].methods["*" := h])];
    }

    /** Methods.Handler: every listed method of the node's table maps to `h`; nothing else changes. */
    method MethodsHandler(n: nat, ms: seq<string>, h: H)
      requires Valid() && n < |nodes|
      modifies this
      ensures Valid() && prefix == old(prefix) && hasTrie == old(hasTrie)
      ensures nodes == old(nodes)[n := old(nodes[n]).(methods := AssignAll(old(nodes[n].methods), ms, h))]
    {
      for i := 0 to |ms|
        invariant Valid() && prefix == old(prefix) && hasTrie == old(hasTrie)
        invariant nodes == old(nodes)[n := old(nodes[n]).(methods := AssignAll(old(nodes[n].methods), ms[..i], h))]
      {
        assert ms[..i + 1][..i] == ms[..i];
        nodes := nodes[n := nodes[n].(methods := nodes[n].methods[ms[i] := h])];
      }
      assert ms[..|ms|] == ms;
    }

    /**
     * getHandler: for the request `path` and method, with `found` the nodes
     * trie.findNodes returns for the request pieces, the decision between
     * serving, 404 and 405.
     */
    method GetHandler(path: string, httpMethod: string, found: seq<Option<nat>>) returns (d: Decision<H>)
      requires Valid()
      requires hasTrie ==> Candidates(nodes, found, RequestPieces(prefix, path))
      ensures !hasTrie ==> d == NotFound
      ensures hasTrie && (forall j | 0 <= j < |found| :: !Eligible(nodes, found[j])) ==> d == NotFound
      ensures hasTrie && (exists j | 0 <= j < |found| :: Eligible(nodes, found[j])) ==>
        exists t | 0 <= t < |nodes| :: Picked(nodes, found, RequestPieces(prefix, path), httpMethod, ExactMethodOnly, Some(t))
          && (d == NotFound <==> nodes[t].methods == map[])
          && (d == MethodNotAllowed <==>
                nodes[t].methods != map[] && httpMethod !in nodes[t].methods && "*" !in nodes[t].methods)
          && (d.Serve? ==> d.handler == HandlerFor(nodes[t].methods, httpMethod).value)
    {
      if !hasTrie {
        return NotFound;
      }
      var pieces := Strings.Split(Strings.ToLower(Strings.Trim(Strings.TrimPrefix(path, prefix), '/')), '/');
      var route := FindRoute(nodes, found, pieces, httpMethod, ExactMethodOnly);
      if route.None? {
        return NotFound;
      }
      ghost var t :| 0 <= t < |nodes| && Picked(nodes, found, pieces, httpMethod, ExactMethodOnly, Some(t))
        && RouteOf(route.value, nodes[t].methods, httpMethod);
      DecideOnRoute(route.value, nodes[t].methods, httpMethod);
      if route.value.handler.None? {
        if |route.value.methods| < 1 {
          return NotFound;
        }
        return MethodNotAllowed;
      }
      d := Serve(route.value.handler.value);
    }
  }
}
