/**
 * The routing table: a linked list behind a zero-filled head node, kept in order of distance.
 * Touching a route refreshes it, replaces a route that differs only in distance, or inserts it
 * after every route that is no further away; pruning ages routes from good to suspect to bad.
 */
module RouteTable {
  import opened Bytes
  import opened Laps
  import opened Routes

  datatype Status = Direct | Suspect | Good | Bad

  datatype Node = Node(dummy: bool, route: Route, timestamp: int, status: Status)

  /** The head node: zero-filled by `calloc`, so its status is the first one, direct. */
  const Head: Node := Node(true, Route(0, 0, null, NextHop(0, 0), 0), 0, Direct)

  predicate NoDummies(es: seq<Node>) {
    forall k :: 0 <= k < |es| ==> !es[k].dummy
  }

  // ---------------------------------------------------------------------------
  // Specification of touch

  /** An equal route is refreshed: new timestamp, and good again unless it is announced at distance 31. */
  function Refreshed(n: Node, r: Route, now: int): Node {
    n.(timestamp := now, status := if r.distance != 31 then Good else n.status)
  }

  datatype ScanResult = ScanResult(found: bool, nodes: seq<Node>)

  /** The first walk of touch: stop at an equal route, dropping every matching route before it. */
  function Scan(es: seq<Node>, r: Route, now: int): ScanResult {
    if |es| == 0 then ScanResult(false, [])
    else if RoutesEqual(es[0].route, r) then ScanResult(true, [Refreshed(es[0], r, now)] + es[1..])
    else if RoutesMatch(es[0].route, r) then Scan(es[1..], r, now)
    else
      var s := Scan(es[1..], r, now);
      ScanResult(s.found, [es[0]] + s.nodes)
  }

  function InitialStatus(distance: byte): Status {
    if distance == 0 then Direct else if distance == 31 then Bad else Good
  }

  function NewNode(r: Route, now: int): Node {
    Node(false, r, now, InitialStatus(r.distance))
  }

  /** The node goes before the first node that is further away. */
  function InsertByDistance(es: seq<Node>, n: Node): seq<Node> {
    if |es| == 0 then [n]
    else if es[0].route.distance > n.route.distance then [n] + es
    else [es[0]] + InsertByDistance(es[1..], n)
  }

  function Touched(es: seq<Node>, r: Route, now: int): seq<Node> {
    var s := Scan(es, r, now);
    if s.found then s.nodes else InsertByDistance(s.nodes, NewNode(r, now))
  }

  /** The route of the first non-dummy node whose range covers the network. */
  function FirstCovering(ns: seq<Node>, network: u16): Option<Route> {
    if |ns| == 0 then None
    else if !ns[0].dummy && Covers(ns[0].route, network) then Some(ns[0].route)
    else FirstCovering(ns[1..], network)
  }

  // ---------------------------------------------------------------------------
  // Specification of prune

  /** The nodes that stay in place: direct ones unchanged, good ones now suspect. */
  function Kept(es: seq<Node>): seq<Node> {
    if |es| == 0 then []
    else match es[0].status
      case Direct => [es[0]] + Kept(es[1..])
      case Good => [es[0].(status := Suspect)] + Kept(es[1..])
      case Suspect => Kept(es[1..])
      case Bad => Kept(es[1..])
  }

  /** Suspect nodes, now bad at distance 31, in their old order. */
  function Demoted(es: seq<Node>): seq<Node> {
    if |es| == 0 then []
    else if es[0].status == Suspect then [es[0].(status := Bad, route := es[0].route.(distance := 31))] + Demoted(es[1..])
    else Demoted(es[1..])
  }

  function Pruned(es: seq<Node>): seq<Node> {
    Kept(es) + Demoted(es)
  }

  // ---------------------------------------------------------------------------
  // The table

  class RoutingTable {
    var list: seq<Node>

    ghost predicate Valid()
      reads this
    {
      |list| >= 1 && list[0] == Head && NoDummies(list[1..])
    }

    /** The routes behind the head node. */
    function Entries(): seq<Node>
      reads this
      requires Valid()
    {
      list[1..]
    }

    /** `rt_new`. */
    constructor ()
      ensures Valid() && Entries() == []
    {
      list := [Head];
    }

    /** `rt_touch`, where `now` is the timer reading. */
    method Touch(r: Route, now: int)
      requires Valid()
      modifies this
      ensures Valid() && Entries() == Touched(old(Entries()), r, now)
    {
      var es := list[1..];
      var found, rest := ScanWalk(es, r, now);
      if !found {
        rest := InsertWalk(rest, NewNode(r, now));
      }
      TouchedNoDummies(es, r, now);
      list := [Head] + rest;
      assert list[1..] == rest;
    }

    /** `rt_touch_direct`: a route through a local LAP, no next hop, distance zero. */
    method TouchDirect(start: u16, end: u16, lap: Lap?, now: int)
      requires Valid()
      modifies this
      ensures Valid() && Entries() == Touched(old(Entries()), Route(start, end, lap, NextHop(0, 0), 0), now)
    {
      Touch(Route(start, end, lap, NextHop(0, 0), 0), now);
    }

    /** `rt_lookup`: the first route, in list order, whose range covers the network. */
    method Lookup(network: u16) returns (r: Option<Route>)
      requires Valid()
      ensures r == FirstCovering(Entries(), network)
    {
      assert FirstCovering(list, network) == FirstCovering(list[1..], network);
      for i := 0 to |list|
        invariant FirstCovering(list[i..], network) == FirstCovering(list, network)
      {
        assert list[i..][0] == list[i] && list[i..][1..] == list[i + 1..];
        if list[i].dummy {
          continue;
        }
        if list[i].route.rangeStart <= network <= list[i].route.rangeEnd {
          return Some(list[i].route);
        }
      }
      assert list[|list|..] == [];
      return None;
    }

    /** `rt_prune`. */
    method Prune()
      requires Valid()
      modifies this
      ensures Valid() && Entries() == Pruned(old(Entries()))
    {
      var es := list[1..];
      var kept, bad := PruneWalk(es);
      list := [Head] + (kept + bad);
      assert list[1..] == kept + bad;
    }
  }

  /** The walk of `rt_prune`: good routes become suspect, suspect ones are set aside as bad, bad ones go. */
  method PruneWalk(es: seq<Node>) returns (kept: seq<Node>, bad: seq<Node>)
    ensures kept == Kept(es) && bad == Demoted(es)
    ensures NoDummies(es) ==> NoDummies(kept) && NoDummies(bad)
  {
    kept, bad := [], [];
    for i := 0 to |es|
      invariant NoDummies(es) ==> NoDummies(kept) && NoDummies(bad)
      invariant kept + Kept(es[i..]) == Kept(es)
      invariant bad + Demoted(es[i..]) == Demoted(es)
    {
      PruneStep(es, i);
      match es[i].status {
        case Direct =>
          kept := kept + [es[i]];
        case Suspect =>
          bad := bad + [es[i].(status := Bad, route := es[i].route.(distance := 31))];
        case Good =>
          kept := kept + [es[i].(status := Suspect)];
        case Bad =>
      }
    }
    assert es[|es|..] == [];
  }

  /** The first walk of `rt_touch`: refresh an equal route, unlink the matching ones before it. */
  method ScanWalk(es: seq<Node>, r: Route, now: int) returns (found: bool, rest: seq<Node>)
    ensures ScanResult(found, rest) == Scan(es, r, now)
  {
    var kept: seq<Node> := [];
    var i := 0;
    while i < |es|
      invariant i <= |es|
      invariant Scan(es, r, now) == ScanResult(Scan(es[i..], r, now).found, kept + Scan(es[i..], r, now).nodes)
      decreases |es| - i
    {
      ScanStep(es, i, r, now);
      if RoutesEqual(es[i].route, r) {
        assert kept + ([Refreshed(es[i], r, now)] + es[i + 1..]) == kept + [Refreshed(es[i], r, now)] + es[i + 1..];
        return true, kept + [Refreshed(es[i], r, now)] + es[i + 1..];
      }
      if !RoutesMatch(es[i].route, r) {
        kept := kept + [es[i]];
      }
      i := i + 1;
    }
    assert es[i..] == [];
    return false, kept;
  }

  /** The second walk of `rt_touch`: link the new node in before the first one further away. */
  method InsertWalk(es: seq<Node>, n: Node) returns (rest: seq<Node>)
    ensures rest == InsertByDistance(es, n)
  {
    var j := 0;
    while j < |es| && es[j].route.distance <= n.route.distance
      invariant j <= |es|
      invariant InsertByDistance(es, n) == es[..j] + InsertByDistance(es[j..], n)
      decreases |es| - j
    {
      InsertStep(es, j, n);
      ghost var tail := InsertByDistance(es[j + 1..], n);
      assert es[..j + 1] == es[..j] + [es[j]];
      assert es[..j] + ([es[j]] + tail) == es[..j + 1] + tail;
      j := j + 1;
    }
    if j < |es| {
      InsertStep(es, j, n);
    } else {
      assert es[j..] == [];
    }
    assert es[..j] + ([n] + es[j..]) == es[..j] + [n] + es[j..];
    rest := es[..j] + [n] + es[j..];
  }

  /** One step of the walk of insertion, at position `j`. */
  lemma InsertStep(es: seq<Node>, j: nat, n: Node)
    requires j < |es|
    ensures es[j].route.distance <= n.route.distance ==> InsertByDistance(es[j..], n) == [es[j]] + InsertByDistance(es[j + 1..], n)
    ensures es[j].route.distance > n.route.distance ==> InsertByDistance(es[j..], n) == [n] + es[j..]
  {
    assert es[j..][0] == es[j] && es[j..][1..] == es[j + 1..];
  }

  lemma {:induction false} ScanNoDummies(es: seq<Node>, r: Route, now: int)
    requires NoDummies(es)
    ensures NoDummies(Scan(es, r, now).nodes)
  {
    if |es| > 0 && !RoutesEqual(es[0].route, r) {
      ScanNoDummies(es[1..], r, now);
    }
  }

  lemma {:induction false} InsertNoDummies(es: seq<Node>, n: Node)
    requires NoDummies(es) && !n.dummy
    ensures NoDummies(InsertByDistance(es, n))
  {
    if |es| > 0 && es[0].route.distance <= n.route.distance {
      InsertNoDummies(es[1..], n);
    }
  }

  /** Touch never adds a node that looks like the head. */
  lemma TouchedNoDummies(es: seq<Node>, r: Route, now: int)
    requires NoDummies(es)
    ensures NoDummies(Touched(es, r, now))
  {
    ScanNoDummies(es, r, now);
    InsertNoDummies(Scan(es, r, now).nodes, NewNode(r, now));
  }

  /** One step of the walk of touch, at position `i`. */
  lemma ScanStep(es: seq<Node>, i: nat, r: Route, now: int)
    requires i < |es|
    ensures RoutesEqual(es[i].route, r) ==> Scan(es[i..], r, now) == ScanResult(true, [Refreshed(es[i], r, now)] + es[i + 1..])
    ensures !RoutesEqual(es[i].route, r) && RoutesMatch(es[i].route, r) ==> Scan(es[i..], r, now) == Scan(es[i + 1..], r, now)
    ensures !RoutesMatch(es[i].route, r) ==>
      Scan(es[i..], r, now) == ScanResult(Scan(es[i + 1..], r, now).found, [es[i]] + Scan(es[i + 1..], r, now).nodes)
  {
    assert es[i..][0] == es[i] && es[i..][1..] == es[i + 1..];
  }

  /** One step of the walk of prune, at position `i`. */
  lemma PruneStep(es: seq<Node>, i: nat)
    requires i < |es|
    ensures Kept(es[i..]) == (match es[i].status
      case Direct => [es[i]]
      case Good => [es[i].(status := Suspect)]
      case _ => []) + Kept(es[i + 1..])
    ensures Demoted(es[i..]) == (if es[i].status == Suspect then [es[i].(status := Bad, route := es[i].route.(distance := 31))] else []) + Demoted(es[i + 1..])
  {
    assert es[i..][0] == es[i] && es[i..][1..] == es[i + 1..];
  }

  // ---------------------------------------------------------------------------
  // What touch guarantees

  predicate SortedByDistance(es: seq<Node>) {
    forall i, j :: 0 <= i < j < |es| ==> es[i].route.distance <= es[j].route.distance
  }

  predicate AtLeast(es: seq<Node>, b: int) {
    forall k :: 0 <= k < |es| ==> es[k].route.distance >= b
  }

  lemma {:induction false} ScanAtLeast(es: seq<Node>, r: Route, now: int, b: int)
    requires AtLeast(es, b)
    ensures AtLeast(Scan(es, r, now).nodes, b)
  {
    if |es| > 0 && !RoutesEqual(es[0].route, r) {
      ScanAtLeast(es[1..], r, now, b);
    }
  }

  lemma {:induction false} ScanSorted(es: seq<Node>, r: Route, now: int)
    requires SortedByDistance(es)
    ensures SortedByDistance(Scan(es, r, now).nodes)
  {
    if |es| > 0 && !RoutesEqual(es[0].route, r) {
      ScanSorted(es[1..], r, now);
      ScanAtLeast(es[1..], r, now, es[0].route.distance);
    }
  }

  lemma {:induction false} InsertAtLeast(es: seq<Node>, n: Node, b: int)
    requires AtLeast(es, b) && n.route.distance >= b
    ensures AtLeast(InsertByDistance(es, n), b)
  {
    if |es| > 0 && es[0].route.distance <= n.route.distance {
      InsertAtLeast(es[1..], n, b);
    }
  }

  lemma {:induction false} InsertSorted(es: seq<Node>, n: Node)
    requires SortedByDistance(es)
    ensures SortedByDistance(InsertByDistance(es, n))
  {
    if |es| > 0 && es[0].route.distance <= n.route.distance {
      InsertSorted(es[1..], n);
      InsertAtLeast(es[1..], n, es[0].route.distance);
    }
  }

  /** Touch keeps the table in order of distance. */
  lemma TouchedSorted(es: seq<Node>, r: Route, now: int)
    requires SortedByDistance(es)
    ensures SortedByDistance(Touched(es, r, now))
  {
    ScanSorted(es, r, now);
    InsertSorted(Scan(es, r, now).nodes, NewNode(r, now));
  }

  /** No two routes of the table differ only in distance. */
  predicate Distinct(es: seq<Node>) {
    forall i, j :: 0 <= i < j < |es| ==> !RoutesMatch(es[i].route, es[j].route)
  }

  /** Every node the walk keeps carries the route of one of the nodes it was given. */
  lemma {:induction false} ScanFromInput(es: seq<Node>, r: Route, now: int)
    ensures forall m :: 0 <= m < |Scan(es, r, now).nodes| ==>
      exists k :: 0 <= k < |es| && es[k].route == Scan(es, r, now).nodes[m].route
  {
    if |es| == 0 {
      assert Scan(es, r, now).nodes == [];
      return;
    }
    var s := Scan(es, r, now).nodes;
    var t := Scan(es[1..], r, now).nodes;
    if !RoutesEqual(es[0].route, r) {
      ScanFromInput(es[1..], r, now);
    }
    forall m | 0 <= m < |s|
      ensures exists k :: 0 <= k < |es| && es[k].route == s[m].route
    {
      if RoutesEqual(es[0].route, r) {
        assert es[m].route == s[m].route;
      } else if RoutesMatch(es[0].route, r) {
        assert s[m] == t[m];
        var k :| 0 <= k < |es[1..]| && es[1..][k].route == t[m].route;
        assert es[k + 1].route == s[m].route;
      } else if m > 0 {
        assert s[m] == t[m - 1];
        var k :| 0 <= k < |es[1..]| && es[1..][k].route == t[m - 1].route;
        assert es[k + 1].route == s[m].route;
      } else {
        assert es[0].route == s[m].route;
      }
    }
  }

  lemma {:induction false} ScanDistinct(es: seq<Node>, r: Route, now: int)
    requires Distinct(es)
    ensures Distinct(Scan(es, r, now).nodes)
  {
    if |es| > 0 && !RoutesEqual(es[0].route, r) {
      ScanDistinct(es[1..], r, now);
      if !RoutesMatch(es[0].route, r) {
        var t := Scan(es[1..], r, now).nodes;
        ScanFromInput(es[1..], r, now);
        forall m | 0 <= m < |t|
          ensures !RoutesMatch(es[0].route, t[m].route)
        {
          var k :| 0 <= k < |es[1..]| && es[1..][k].route == t[m].route;
          assert es[k + 1].route == t[m].route;
        }
      }
    } else if |es| > 0 {
      var s := Scan(es, r, now).nodes;
      assert forall m :: 0 <= m < |s| ==> es[m].route == s[m].route;
    }
  }

  /** When the walk finds no equal route it has removed every route that matches. */
  lemma {:induction false} ScanNotFoundRemovesMatches(es: seq<Node>, r: Route, now: int)
    requires !Scan(es, r, now).found
    ensures forall m :: 0 <= m < |Scan(es, r, now).nodes| ==> !RoutesMatch(Scan(es, r, now).nodes[m].route, r)
  {
    if |es| > 0 {
      ScanNotFoundRemovesMatches(es[1..], r, now);
    }
  }

  lemma {:induction false} InsertMembers(es: seq<Node>, n: Node)
    ensures forall m :: 0 <= m < |InsertByDistance(es, n)| ==>
      InsertByDistance(es, n)[m] == n || InsertByDistance(es, n)[m] in es
  {
    if |es| > 0 && es[0].route.distance <= n.route.distance {
      InsertMembers(es[1..], n);
    }
  }

  lemma {:induction false} InsertDistinct(es: seq<Node>, n: Node)
    requires Distinct(es)
    requires forall m :: 0 <= m < |es| ==> !RoutesMatch(es[m].route, n.route)
    ensures Distinct(InsertByDistance(es, n))
  {
    if |es| > 0 && es[0].route.distance <= n.route.distance {
      InsertDistinct(es[1..], n);
      InsertMembers(es[1..], n);
      var t := InsertByDistance(es[1..], n);
      forall m | 0 <= m < |t|
        ensures !RoutesMatch(es[0].route, t[m].route)
      {
        if t[m] != n {
          var k :| 0 <= k < |es[1..]| && es[1..][k] == t[m];
          assert es[k + 1] == t[m];
        }
      }
    }
  }

  /** Touch keeps every route unique up to distance. */
  lemma TouchedDistinct(es: seq<Node>, r: Route, now: int)
    requires Distinct(es)
    ensures Distinct(Touched(es, r, now))
  {
    ScanDistinct(es, r, now);
    if !Scan(es, r, now).found {
      ScanNotFoundRemovesMatches(es, r, now);
      InsertDistinct(Scan(es, r, now).nodes, NewNode(r, now));
    }
  }

  function MatchCount(es: seq<Node>, r: Route): nat {
    if |es| == 0 then 0 else (if RoutesMatch(es[0].route, r) then 1 else 0) + MatchCount(es[1..], r)
  }

  lemma {:induction false} NoMatchScan(es: seq<Node>, r: Route, now: int)
    requires forall k :: 0 <= k < |es| ==> !RoutesMatch(es[k].route, r)
    ensures Scan(es, r, now) == ScanResult(false, es) && MatchCount(es, r) == 0
  {
    if |es| > 0 {
      NoMatchScan(es[1..], r, now);
      assert [es[0]] + es[1..] == es;
    }
  }

  lemma {:induction false} ScanLength(es: seq<Node>, r: Route, now: int)
    requires Distinct(es)
    ensures MatchCount(es, r) <= 1
    ensures Scan(es, r, now).found ==> |Scan(es, r, now).nodes| == |es| && MatchCount(es, r) == 1
    ensures !Scan(es, r, now).found ==> |Scan(es, r, now).nodes| == |es| - MatchCount(es, r)
  {
    if |es| > 0 {
      if RoutesMatch(es[0].route, r) {
        forall k | 0 <= k < |es[1..]|
          ensures !RoutesMatch(es[1..][k].route, r)
        {
          assert !RoutesMatch(es[0].route, es[k + 1].route);
        }
        NoMatchScan(es[1..], r, now);
      } else {
        ScanLength(es[1..], r, now);
      }
    }
  }

  lemma {:induction false} InsertLength(es: seq<Node>, n: Node)
    ensures |InsertByDistance(es, n)| == |es| + 1
  {
    if |es| > 0 && es[0].route.distance <= n.route.distance {
      InsertLength(es[1..], n);
    }
  }

  /** Touch adds a node exactly when no route of the table matches, and otherwise keeps the size. */
  lemma TouchedLength(es: seq<Node>, r: Route, now: int)
    requires Distinct(es)
    ensures MatchCount(es, r) <= 1
    ensures |Touched(es, r, now)| == |es| + 1 - MatchCount(es, r)
  {
    ScanLength(es, r, now);
    InsertLength(Scan(es, r, now).nodes, NewNode(r, now));
  }

  /** The `k`th route, the first equal one, stands refreshed at `m` of `s`, followed by the routes that followed it. */
  ghost predicate RefreshedAt(es: seq<Node>, s: seq<Node>, r: Route, now: int, k: int, m: int) {
    0 <= m <= k < |es| && m < |s| &&
    RoutesEqual(es[k].route, r) && (forall j :: 0 <= j < k ==> !RoutesEqual(es[j].route, r)) &&
    s[m] == Refreshed(es[k], r, now) && s[m + 1..] == es[k + 1..]
  }

  /**
   * A found route is the first equal one, refreshed where it stood: matching routes before it are
   * unlinked, it takes the new timestamp, it becomes good unless announced at distance 31 (a former
   * direct route included), and the nodes after it are left as they were.
   */
  lemma {:induction false} ScanFoundRefreshes(es: seq<Node>, r: Route, now: int)
    requires Scan(es, r, now).found
    ensures var s := Scan(es, r, now).nodes;
      exists k, m :: RefreshedAt(es, s, r, now, k, m) &&
        s[m].route == r && s[m].timestamp == now &&
        s[m].status == (if r.distance != 31 then Good else es[k].status)
  {
    var s := Scan(es, r, now).nodes;
    if RoutesEqual(es[0].route, r) {
      assert s[0] == Refreshed(es[0], r, now) && s[1..] == es[1..];
      assert RefreshedAt(es, s, r, now, 0, 0);
    } else {
      ScanFoundRefreshes(es[1..], r, now);
      var t := Scan(es[1..], r, now).nodes;
      var k, m :| RefreshedAt(es[1..], t, r, now, k, m);
      ScanPassesUnequal(es, t, r, now, k, m);
      if RoutesMatch(es[0].route, r) {
        assert s == t;
        assert RefreshedAt(es, s, r, now, k + 1, m);
      } else {
        assert s == [es[0]] + t;
        KeptBeforeRefreshed(es[0], t, es, r, now, k + 1, m);
      }
    }
  }

  /** Past an unequal first route, the refreshed position found in the rest is one further in the table. */
  lemma ScanPassesUnequal(es: seq<Node>, t: seq<Node>, r: Route, now: int, k: int, m: int)
    requires |es| > 0 && !RoutesEqual(es[0].route, r)
    requires RefreshedAt(es[1..], t, r, now, k, m)
    ensures RefreshedAt(es, t, r, now, k + 1, m)
  {
    assert es[k + 1] == es[1..][k] && es[k + 2..] == es[1..][k + 1..];
    assert forall j :: 0 < j < k + 1 ==> es[j] == es[1..][j - 1];
  }

  /** A node kept before the refreshed one moves it one place further in the result. */
  lemma KeptBeforeRefreshed(n: Node, t: seq<Node>, es: seq<Node>, r: Route, now: int, k: int, m: int)
    requires RefreshedAt(es, t, r, now, k, m) && m < k
    ensures RefreshedAt(es, [n] + t, r, now, k, m + 1)
  {
    assert ([n] + t)[m + 1] == t[m] && ([n] + t)[m + 2..] == t[m + 1..];
  }

  /** After a touch the route is in the table, stamped with the time of the touch. */
  lemma TouchedHoldsRoute(es: seq<Node>, r: Route, now: int)
    ensures exists m :: 0 <= m < |Touched(es, r, now)| && Touched(es, r, now)[m].route == r && Touched(es, r, now)[m].timestamp == now
  {
    var s := Scan(es, r, now);
    if s.found {
      ScanFoundRefreshes(es, r, now);
      assert Touched(es, r, now) == s.nodes;
    } else {
      var t := InsertByDistance(s.nodes, NewNode(r, now));
      InsertHolds(s.nodes, NewNode(r, now));
      var m :| 0 <= m < |t| && t[m] == NewNode(r, now);
      assert Touched(es, r, now) == t && t[m].route == r && t[m].timestamp == now;
    }
  }

  /** A route equal to none in the table is not found by the first walk. */
  lemma {:induction false} NoEqualNotFound(es: seq<Node>, r: Route, now: int)
    requires forall k :: 0 <= k < |es| ==> !RoutesEqual(es[k].route, r)
    ensures !Scan(es, r, now).found
  {
    if |es| > 0 {
      NoEqualNotFound(es[1..], r, now);
    }
  }

  /**
   * A route equal to none in the table is inserted as a new node, stamped with the time of the
   * touch: direct at distance 0, bad at distance 31, good otherwise.
   */
  lemma NewRouteStatus(es: seq<Node>, r: Route, now: int)
    requires forall k :: 0 <= k < |es| ==> !RoutesEqual(es[k].route, r)
    ensures Node(false, r, now, if r.distance == 0 then Direct else if r.distance == 31 then Bad else Good) in Touched(es, r, now)
  {
    NoEqualNotFound(es, r, now);
    InsertHolds(Scan(es, r, now).nodes, NewNode(r, now));
  }

  lemma {:induction false} InsertHolds(es: seq<Node>, n: Node)
    ensures n in InsertByDistance(es, n)
  {
    if |es| > 0 && es[0].route.distance <= n.route.distance {
      InsertHolds(es[1..], n);
    }
  }

  // ---------------------------------------------------------------------------
  // What lookup guarantees

  /** Lookup finds a route exactly when some route covers the network, and the one it finds covers it. */
  lemma {:induction false} FirstCoveringComplete(es: seq<Node>, network: u16)
    requires NoDummies(es)
    ensures FirstCovering(es, network).Some? <==> exists k :: 0 <= k < |es| && Covers(es[k].route, network)
    ensures FirstCovering(es, network).Some? ==> Covers(FirstCovering(es, network).value, network)
  {
    if |es| > 0 {
      FirstCoveringComplete(es[1..], network);
      if !Covers(es[0].route, network) && exists k :: 0 <= k < |es| && Covers(es[k].route, network) {
        var k :| 0 <= k < |es| && Covers(es[k].route, network);
        assert es[1..][k - 1] == es[k];
      }
    }
  }

  /** The route lookup finds is one of the table's own routes. */
  lemma {:induction false} FirstCoveringIsEntry(ns: seq<Node>, network: u16)
    requires FirstCovering(ns, network).Some?
    ensures exists k :: 0 <= k < |ns| && ns[k].route == FirstCovering(ns, network).value
  {
    if !(!ns[0].dummy && Covers(ns[0].route, network)) {
      FirstCoveringIsEntry(ns[1..], network);
      var k :| 0 <= k < |ns[1..]| && ns[1..][k].route == FirstCovering(ns[1..], network).value;
      assert ns[k + 1] == ns[1..][k];
    }
  }

  /** In a table ordered by distance, lookup yields a nearest covering route: direct routes win. */
  lemma {:induction false} FirstCoveringNearest(es: seq<Node>, network: u16, k: nat)
    requires NoDummies(es) && SortedByDistance(es)
    requires k < |es| && Covers(es[k].route, network)
    ensures FirstCovering(es, network).Some? && FirstCovering(es, network).value.distance <= es[k].route.distance
  {
    if !Covers(es[0].route, network) {
      assert es[1..][k - 1] == es[k];
      FirstCoveringNearest(es[1..], network, k - 1);
    }
  }

  // ---------------------------------------------------------------------------
  // What prune guarantees

  function Directs(es: seq<Node>): seq<Node> {
    if |es| == 0 then [] else (if es[0].status == Direct then [es[0]] else []) + Directs(es[1..])
  }

  lemma {:induction false} DirectsAppend(a: seq<Node>, b: seq<Node>)
    ensures Directs(a + b) == Directs(a) + Directs(b)
  {
    if |a| > 0 {
      assert (a + b)[1..] == a[1..] + b;
      DirectsAppend(a[1..], b);
    } else {
      assert a + b == b;
    }
  }

  lemma {:induction false} DirectsOfParts(es: seq<Node>)
    ensures Directs(Kept(es)) == Directs(es) && Directs(Demoted(es)) == []
  {
    if |es| > 0 {
      DirectsOfParts(es[1..]);
    }
  }

  /** Pruning never drops, changes or reorders a direct route. */
  lemma DirectRoutesSurvivePrune(es: seq<Node>)
    ensures Directs(Pruned(es)) == Directs(es)
  {
    DirectsOfParts(es);
    DirectsAppend(Kept(es), Demoted(es));
  }

  lemma {:induction false} KeptStatuses(es: seq<Node>)
    ensures forall m :: 0 <= m < |Kept(es)| ==> Kept(es)[m].status in {Direct, Suspect}
    ensures (forall m :: 0 <= m < |es| ==> es[m].status != Good) ==>
      forall m :: 0 <= m < |Kept(es)| ==> Kept(es)[m].status == Direct
  {
    if |es| > 0 {
      KeptStatuses(es[1..]);
    }
  }

  lemma {:induction false} DemotedStatuses(es: seq<Node>)
    ensures forall m :: 0 <= m < |Demoted(es)| ==> Demoted(es)[m].status == Bad && Demoted(es)[m].route.distance == 31
    ensures (forall m :: 0 <= m < |es| ==> es[m].status != Suspect) ==> Demoted(es) == []
  {
    if |es| > 0 {
      DemotedStatuses(es[1..]);
    }
  }

  /** A route nobody touches is gone after three prunes, unless it is direct. */
  lemma ThreePrunesLeaveOnlyDirect(es: seq<Node>)
    ensures forall m :: 0 <= m < |Pruned(Pruned(Pruned(es)))| ==> Pruned(Pruned(Pruned(es)))[m].status == Direct
  {
    var p1 := Pruned(es);
    KeptStatuses(es);
    DemotedStatuses(es);
    assert forall m :: 0 <= m < |p1| ==> p1[m].status != Good;
    var p2 := Pruned(p1);
    KeptStatuses(p1);
    DemotedStatuses(p1);
    assert forall m :: 0 <= m < |p2| ==> p2[m].status in {Direct, Bad};
    KeptStatuses(p2);
    DemotedStatuses(p2);
  }

  predicate AtMost(es: seq<Node>, c: int) {
    forall k :: 0 <= k < |es| ==> es[k].route.distance <= c
  }

  lemma {:induction false} KeptRoutes(es: seq<Node>, b: int, c: int)
    requires AtLeast(es, b) && AtMost(es, c)
    ensures AtLeast(Kept(es), b) && AtMost(Kept(es), c) && |Kept(es)| + |Demoted(es)| <= |es|
  {
    if |es| > 0 {
      KeptRoutes(es[1..], b, c);
    }
  }

  lemma {:induction false} KeptSorted(es: seq<Node>)
    requires SortedByDistance(es)
    ensures SortedByDistance(Kept(es))
  {
    if |es| > 0 {
      KeptSorted(es[1..]);
      KeptRoutes(es[1..], es[0].route.distance, 255);
    }
  }

  /** Pruning keeps the table ordered when no distance exceeds 31, and never grows it. */
  lemma PrunedSorted(es: seq<Node>)
    requires SortedByDistance(es)
    requires forall k :: 0 <= k < |es| ==> es[k].route.distance <= 31
    ensures SortedByDistance(Pruned(es)) && |Pruned(es)| <= |es|
  {
    KeptSorted(es);
    KeptRoutes(es, 0, 31);
    DemotedStatuses(es);
    var k, d := Kept(es), Demoted(es);
    var p := Pruned(es);
    forall i, j | 0 <= i < j < |p|
      ensures p[i].route.distance <= p[j].route.distance
    {
      if j < |k| {
        assert p[i] == k[i] && p[j] == k[j];
      } else if i < |k| {
        assert p[i] == k[i] && p[j] == d[j - |k|];
      } else {
        assert p[i] == d[i - |k|] && p[j] == d[j - |k|];
      }
    }
  }
}
