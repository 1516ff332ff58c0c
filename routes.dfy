/** A route: a network range, the LAP to send through, the next hop and a distance in hops. */
module Routes {
  import opened Bytes
  import opened Laps

  datatype NextHop = NextHop(network: u16, node: byte)

  datatype Route = Route(rangeStart: u16, rangeEnd: u16, outboundLap: Lap?, nexthop: NextHop, distance: byte)

  /** `rt_routes_equal`: every field agrees, the LAP compared by identity. */
  predicate RoutesEqual(a: Route, b: Route): (r: bool)
    ensures r <==> a == b
  {
    a.rangeStart == b.rangeStart &&
    a.rangeEnd == b.rangeEnd &&
    a.outboundLap == b.outboundLap &&
    a.nexthop.network == b.nexthop.network &&
    a.nexthop.node == b.nexthop.node &&
    a.distance == b.distance
  }

  /** `rt_routes_match`: the same route apart from, possibly, its distance. */
  predicate RoutesMatch(a: Route, b: Route): (r: bool)
    ensures r <==> a.(distance := b.distance) == b
  {
    a.rangeStart == b.rangeStart &&
    a.rangeEnd == b.rangeEnd &&
    a.outboundLap == b.outboundLap &&
    a.nexthop.network == b.nexthop.network &&
    a.nexthop.node == b.nexthop.node
  }

  /** Matching is an equivalence, and equal routes are exactly the matching routes at the same distance. */
  lemma MatchLaws(a: Route, b: Route, c: Route)
    ensures RoutesMatch(a, a)
    ensures RoutesMatch(a, b) ==> RoutesMatch(b, a)
    ensures RoutesMatch(a, b) && RoutesMatch(b, c) ==> RoutesMatch(a, c)
    ensures RoutesEqual(a, b) <==> RoutesMatch(a, b) && a.distance == b.distance
  {
  }

  /** Whether a route's range covers a network number. */
  predicate Covers(r: Route, network: u16) {
    r.rangeStart <= network <= r.rangeEnd
  }
}
