/** Operations with their HTTP bindings, and routes (surface/surface.go). */
module Surface {
  import PolicySpec

  datatype Binding = Binding(verb: string, path: string, body: string, responseBody: string)

  /** input and output are message names. */
  datatype SurfaceOp = SurfaceOp(operation: PolicySpec.Operation, input: string, output: string, bindings: seq<Binding>)

  /** source is "proto" or "extra". */
  datatype Route = Route(source: string, id: string, verb: string, protoPath: string, path: string, api: string)

  function RouteKey(verb: string, path: string): string {
    verb + " " + path
  }

  /** No two routes share method and declared path. */
  ghost predicate DistinctKeys(routes: seq<Route>) {
    forall i, j :: 0 <= i < j < |routes| ==>
      RouteKey(routes[i].verb, routes[i].protoPath) != RouteKey(routes[j].verb, routes[j].protoPath)
  }

  /** The routes that come from proto methods. */
  function ProtoRoutes(routes: seq<Route>): seq<Route> {
    if routes == [] then []
    else
      var before, r := ProtoRoutes(routes[..|routes| - 1]), routes[|routes| - 1];
      if r.source == "proto" then before + [r] else before
  }

  lemma {:induction false} ProtoRoutesMembers(routes: seq<Route>, r: Route)
    ensures multiset(ProtoRoutes(routes))[r] == if r.source == "proto" then multiset(routes)[r] else 0
    ensures r in ProtoRoutes(routes) <==> r in routes && r.source == "proto"
  {
    if routes != [] {
      var n := |routes| - 1;
      ProtoRoutesMembers(routes[..n], r);
      assert routes == routes[..n] + [routes[n]];
    }
  }
}
