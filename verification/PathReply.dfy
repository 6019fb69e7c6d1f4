/** On-demand route discovery (crates/mesh/src/path_request.rs, crates/mesh/src/routing.rs and the reply handler of
    crates/daemon/src/lib.rs). Link quality is an ordered value. */
module PathReplies {
  import opened Bytes
  import opened Packets

  datatype Address = Address(octets: Hash)

  // ---------- Routing table ----------

  datatype Route = Route(destination: Address, nextHop: Address, quality: real, hops: byte)

  type Table = map<Address, Route>

  /** The table prefers this route to what it has: better quality, then fewer hops. */
  predicate Adopts(t: Table, r: Route) {
    r.destination in t ==>
      r.quality > t[r.destination].quality || (r.quality == t[r.destination].quality && r.hops < t[r.destination].hops)
  }

  function Updated(t: Table, r: Route): Table { if Adopts(t, r) then t[r.destination := r] else t }

  class MeshRouter {
    const localAddr: Address
    var routes: Table

    constructor (localAddr: Address)
      ensures this.localAddr == localAddr && routes == map[]
    {
      this.localAddr := localAddr;
      routes := map[];
    }

    method UpdateRoute(dest: Address, nextHop: Address, quality: real, hops: byte)
      modifies this`routes
      ensures routes == Updated(old(routes), Route(dest, nextHop, quality, hops))
    {
      if dest !in routes {
        routes := routes[dest := Route(dest, nextHop, quality, hops)];
      }
      var entry := routes[dest];
      if quality > entry.quality || (quality == entry.quality && hops < entry.hops) {
        entry := entry.(destination := dest, nextHop := nextHop, quality := quality, hops := hops);
        routes := routes[dest := entry];
      }
    }

    /** Install the next hop towards the destination, and name the neighbour to forward the reply to. */
    method HandlePathReply(reply: Reply) returns (forwardTo: Option<Address>)
      modifies this`routes
      ensures routes == TableAfter(reply, old(routes), localAddr)
      ensures forwardTo == ForwardTo(reply.route, localAddr)
    {
      var found := Position(reply.route, localAddr);
      if found.Some? {
        var pos := found.value;
        if pos > 0 {
          UpdateRoute(reply.destination, reply.route[pos - 1], reply.quality, HopsAt(reply, pos));
        }
        if pos + 1 < |reply.route| {
          return Some(reply.route[pos + 1]);
        }
      }
      return None;
    }
  }

  // ---------- Requests and replies ----------

  datatype Request = Request(destination: Address, maxHops: byte, requestId: bytes, path: seq<Address>)

  datatype Reply = Reply(requestId: bytes, destination: Address, route: seq<Address>, quality: real, hopCount: byte)

  /** The request has been forwarded as often as it may be. */
  predicate IsExpired(r: Request) { |r.path| >= r.maxHops as int }

  function AddHop(r: Request, addr: Address): Request { if addr in r.path then r else r.(path := r.path + [addr]) }

  function Reversed(s: seq<Address>): seq<Address> { seq(|s|, i requires 0 <= i < |s| => s[|s| - 1 - i]) }

  function HandlePathRequest(r: Request, t: Table, local: Address): Option<Reply> {
    if r.destination == local then
      Some(Reply(r.requestId, r.destination, Reversed(r.path + [local]), 1.0, 0))
    else if r.destination in t then
      Some(Reply(r.requestId, r.destination, Reversed(r.path + [local]), t[r.destination].quality,
                 t[r.destination].hops))
    else None
  }

  /** Index of the first occurrence at or after `k`. */
  function PositionFrom(route: seq<Address>, a: Address, k: nat): (p: Option<nat>)
    requires k <= |route|
    ensures p.Some? ==> k <= p.value < |route| && route[p.value] == a && forall i :: k <= i < p.value ==> route[i] != a
    ensures p.None? ==> forall i :: k <= i < |route| ==> route[i] != a
    decreases |route| - k
  {
    if k == |route| then None else if route[k] == a then Some(k) else PositionFrom(route, a, k + 1)
  }

  function Position(route: seq<Address>, a: Address): Option<nat> { PositionFrom(route, a, 0) }

  /** Hop counts are octets. */
  function HopsAt(reply: Reply, pos: nat): byte { ((reply.hopCount as int + pos % 256) % 256) as byte }

  function RouteAt(reply: Reply, pos: nat): Route
    requires 0 < pos < |reply.route|
  {
    Route(reply.destination, reply.route[pos - 1], reply.quality, HopsAt(reply, pos))
  }

  function TableAfter(reply: Reply, t: Table, local: Address): Table {
    match Position(reply.route, local)
    case Some(pos) => if pos > 0 then Updated(t, RouteAt(reply, pos)) else t
    case None => t
  }

  function ForwardTo(route: seq<Address>, local: Address): Option<Address> {
    match Position(route, local)
    case Some(pos) => if pos + 1 < |route| then Some(route[pos + 1]) else None
    case None => None
  }

  predicate NoDup(s: seq<Address>) { forall i, j :: 0 <= i < j < |s| ==> s[i] != s[j] }

  // ---------- Which route is kept ----------

  /** The table after these routes were offered, in order. */
  function Learned(rs: seq<Route>): Table {
    if rs == [] then map[] else Updated(Learned(rs[..|rs| - 1]), rs[|rs| - 1])
  }

  /** Route `j` is for the destination; every other such route has a lower quality, or the same quality and at least as
      many hops, and an earlier one with the same quality has more. */
  predicate IsBest(rs: seq<Route>, d: Address, j: nat) {
    && j < |rs| && rs[j].destination == d
    && forall k :: 0 <= k < |rs| && rs[k].destination == d ==>
         rs[k].quality < rs[j].quality
         || (rs[k].quality == rs[j].quality && (rs[j].hops < rs[k].hops || (rs[j].hops == rs[k].hops && j <= k)))
  }

  /** Whatever is offered and in whatever order, the table has a route exactly for the destinations it was offered one
      for, and it is the best: of the highest quality, among these of the fewest hops, among these the first. */
  lemma {:induction false} BestRouteWins(rs: seq<Route>, d: Address)
    ensures d in Learned(rs) <==> exists k :: 0 <= k < |rs| && rs[k].destination == d
    ensures d in Learned(rs) ==> exists j: nat :: IsBest(rs, d, j) && Learned(rs)[d] == rs[j]
  {
    if rs != [] {
      var before, r := rs[..|rs| - 1], rs[|rs| - 1];
      BestRouteWins(before, d);
      assert forall k :: 0 <= k < |before| ==> before[k] == rs[k];
      if d in Learned(before) {
        var j: nat :| IsBest(before, d, j) && Learned(before)[d] == before[j];
        assert rs[j].destination == d;
        assert IsBest(rs, d, if r.destination == d && Adopts(Learned(before), r) then |before| else j);
      } else if r.destination == d {
        assert IsBest(rs, d, |before|);
      }
    }
  }

  // ---------- How requests are answered and forwarded ----------

  /** A request is answered by the destination itself and by whoever has a route to it: with its own number and
      destination, the path so far and the answering node in reverse, and quality and distance from there. */
  lemma AnsweredExactly(r: Request, t: Table, local: Address)
    ensures HandlePathRequest(r, t, local).Some? <==> r.destination == local || r.destination in t
    ensures HandlePathRequest(r, t, local).Some? ==>
      var reply := HandlePathRequest(r, t, local).value;
      && reply.requestId == r.requestId && reply.destination == r.destination
      && |reply.route| == |r.path| + 1 && reply.route[0] == local
      && (forall k :: 0 <= k < |r.path| ==> reply.route[|r.path| - k] == r.path[k])
      && (r.destination == local ==> reply.quality == 1.0 && reply.hopCount == 0)
      && (r.destination != local ==> reply.quality == t[r.destination].quality && reply.hopCount == t[r.destination].hops)
  {
  }

  /** Forwarders that are all different leave a path of just these forwarders, and may be as many as the request allows
      hops, and no more. */
  lemma {:induction false} ForwardedExactly(r: Request, hops: seq<Address>)
    requires r.path == [] && NoDup(hops)
    ensures WithHops(r, hops) == r.(path := hops)
    ensures Forwarded(r, hops) <==> |hops| <= r.maxHops as int
  {
    if hops != [] {
      var before, last := hops[..|hops| - 1], hops[|hops| - 1];
      assert NoDup(before) && last !in before;
      ForwardedExactly(r, before);
      assert before + [last] == hops;
    }
  }

  // ---------- The journey of a reply ----------

  /** Where a reply handed to `start` is after `n` deliveries; None once it has stopped. */
  function After(route: seq<Address>, start: Address, n: nat): Option<Address> {
    if n == 0 then Some(start)
    else
      match After(route, start, n - 1)
      case Some(a) => ForwardTo(route, a)
      case None => None
  }

  /** From position `p` on, every address occurs for the first time. */
  predicate FirstFrom(route: seq<Address>, p: nat) {
    forall i, j :: 0 <= i < j < |route| && p <= j ==> route[i] != route[j]
  }

  lemma PositionIn(route: seq<Address>, p: nat, i: nat)
    requires FirstFrom(route, p) && p <= i < |route|
    ensures Position(route, route[i]) == Some(i)
  {
  }

  /** Where no address repeats from position `p` on, a reply handed to `route[p]` visits the rest of the route in order
      and stops. */
  lemma {:induction false} TravelsInOrder(route: seq<Address>, p: nat, n: nat)
    requires FirstFrom(route, p) && p < |route|
    ensures After(route, route[p], n) == if p + n < |route| then Some(route[p + n]) else None
  {
    if n > 0 {
      TravelsInOrder(route, p, n - 1);
      if p + n - 1 < |route| {
        PositionIn(route, p, p + n - 1);
      }
    }
  }

  lemma NextStays(route: seq<Address>, j: nat, a: Address)
    requires 0 < j < |route| && route[j] in route[..j] && a in route[..j]
    ensures ForwardTo(route, a).Some? && ForwardTo(route, a).value in route[..j]
  {
    var i :| 0 <= i < j && route[..j][i] == a;
    var p := Position(route, a).value;
    assert p <= i;
    assert p + 1 < j ==> route[..j][p + 1] == route[p + 1];
  }

  /** A reply handed to a node before a repeated address never stops. */
  lemma {:induction false} RepeatNeverStops(route: seq<Address>, j: nat, start: Address, n: nat)
    requires 0 < j < |route| && route[j] in route[..j] && start in route[..j]
    ensures After(route, start, n).Some? && After(route, start, n).value in route[..j]
  {
    if n > 0 {
      RepeatNeverStops(route, j, start, n - 1);
      NextStays(route, j, After(route, start, n - 1).value);
    }
  }

  ghost predicate Stops(route: seq<Address>, start: Address) { exists n: nat :: After(route, start, n).None? }

  /** Whomever the reply is handed to, it stops exactly when that node is not on the route, or no address repeats from
      its position on. */
  lemma StopsExactly(route: seq<Address>, start: Address)
    ensures Stops(route, start) <==>
      (Position(route, start).Some? ==> FirstFrom(route, Position(route, start).value))
  {
    match Position(route, start)
    case None =>
      assert After(route, start, 0) == Some(start);
      assert After(route, start, 1).None?;
    case Some(p) =>
      if FirstFrom(route, p) {
        TravelsInOrder(route, p, |route|);
      } else {
        var i, j :| 0 <= i < j < |route| && p <= j && route[i] == route[j];
        assert route[..j][i] == route[j];
        assert p < j;
        assert route[..j][p] == start;
        forall n: nat ensures After(route, start, n).Some? { RepeatNeverStops(route, j, start, n); }
      }
  }

  // ---------- Where repetitions come from ----------

  function WithHops(r: Request, hops: seq<Address>): Request {
    if hops == [] then r else AddHop(WithHops(r, hops[..|hops| - 1]), hops[|hops| - 1])
  }

  /** Every hop found the request unexpired. */
  predicate Forwarded(r: Request, hops: seq<Address>) {
    hops != [] ==> Forwarded(r, hops[..|hops| - 1]) && !IsExpired(WithHops(r, hops[..|hops| - 1]))
  }

  /** However a request is flooded, no address occurs twice on its path, the last forwarder is on it, and the path has
      at most as many addresses as the request allows hops. */
  lemma {:induction false} PathHasNoDup(r: Request, hops: seq<Address>)
    requires r.path == []
    ensures NoDup(WithHops(r, hops).path)
    ensures hops != [] ==> hops[|hops| - 1] in WithHops(r, hops).path
    ensures WithHops(r, hops).maxHops == r.maxHops && WithHops(r, hops).destination == r.destination
    ensures Forwarded(r, hops) ==> |WithHops(r, hops).path| <= r.maxHops as int
  {
    if hops != [] {
      PathHasNoDup(r, hops[..|hops| - 1]);
    }
  }

  /** The reply that answers a request with this path travels this route. */
  lemma ReversedAt(path: seq<Address>, local: Address, k: nat)
    requires k <= |path|
    ensures var route := Reversed(path + [local]);
      |route| == |path| + 1 && route[0] == local && (k < |path| ==> route[|path| - k] == path[k])
  {
  }

  /** The first position of a path entry on the reversed route, unless it is the answering node. */
  lemma PositionOnRoute(path: seq<Address>, local: Address, k: nat)
    requires NoDup(path) && k < |path|
    ensures Position(Reversed(path + [local]), path[k]) == Some(if path[k] == local then 0 else |path| - k)
  {
    var route := Reversed(path + [local]);
    ReversedAt(path, local, k);
    if path[k] != local {
      forall i | 0 < i < |path| - k ensures route[i] != path[k] {
        assert route[i] == path[|path| - i];
      }
    }
  }

  /** From the position of path entry `k` on nothing repeats, unless the answering node is on the path at or after
      it. */
  lemma FirstFromOnRoute(path: seq<Address>, local: Address, k: nat)
    requires NoDup(path) && k < |path|
    ensures FirstFrom(Reversed(path + [local]), |path| - k) <==> local !in path[..k + 1]
  {
    var route := Reversed(path + [local]);
    if local in path[..k + 1] {
      var i :| 0 <= i <= k && path[i] == local;
      assert route[0] == route[|path| - i];
    } else {
      forall i, j | 0 <= i < j < |route| && |path| - k <= j ensures route[i] != route[j] {
        assert route[j] == path[|path| - j] && path[|path| - j] == path[..k + 1][|path| - j];
        if i > 0 {
          assert route[i] == path[|path| - i];
        }
      }
    }
  }

  /** The answering node hands its reply to whoever sent it the request. That is the last forwarder, and the reply stops
      exactly when the answering node has not forwarded the request, or came onto the path after the last forwarder
      did. */
  lemma ReplyStopsExactly(r: Request, hops: seq<Address>, t: Table, local: Address)
    requires r.path == [] && hops != []
    requires HandlePathRequest(WithHops(r, hops), t, local).Some?
    ensures var path, from := WithHops(r, hops).path, hops[|hops| - 1];
      var route := HandlePathRequest(WithHops(r, hops), t, local).value.route;
      && Position(path, from).Some?
      && (Stops(route, from) <==>
            local !in path || Position(path, from).value < Position(path, local).value)
  {
    var path, from := WithHops(r, hops).path, hops[|hops| - 1];
    var route := Reversed(path + [local]);
    PathHasNoDup(r, hops);
    var k := Position(path, from).value;
    PositionOnRoute(path, local, k);
    FirstFromOnRoute(path, local, k);
    StopsExactly(route, from);
    if local in path {
      PositionInPath(path, local, k);
    }
    if from == local {
      FirstFromOnRoute(path, local, k);
      assert local in path[..k + 1] by { assert path[..k + 1][k] == local; }
      assert route[|path| - k] == local && route[0] == local;
    }
  }

  lemma PositionInPath(path: seq<Address>, local: Address, k: nat)
    requires NoDup(path) && local in path && k < |path|
    ensures local in path[..k + 1] <==> Position(path, local).value <= k
  {
    var i := Position(path, local).value;
    if i <= k {
      assert path[..k + 1][i] == local;
    }
  }

  /** A request that was answered without having been forwarded: the requester is not on the route, so the reply stops
      there. */
  lemma DirectReplyStops(r: Request, t: Table, local: Address, from: Address)
    requires r.path == [] && from != local && HandlePathRequest(r, t, local).Some?
    ensures Stops(HandlePathRequest(r, t, local).value.route, from)
  {
    StopsExactly(Reversed(r.path + [local]), from);
  }

  // ---------- The routes a reply leaves behind ----------

  /** The table of every node. */
  type Net = Address -> Table

  function Journey(route: seq<Address>, start: Address): nat -> Option<Address> { (n: nat) => After(route, start, n) }

  /** The nodes a journey visits in its first `n` deliveries, in order. */
  function Visits(at: nat -> Option<Address>, n: nat): seq<Address> {
    if n == 0 then [] else Visits(at, n - 1) + (match at(n - 1) case Some(a) => [a] case None => [])
  }

  /** The journey walks the route from position `p` and ends with it. */
  ghost predicate Follows(at: nat -> Option<Address>, route: seq<Address>, p: nat) {
    forall k: nat :: at(k) == if p + k < |route| then Some(route[p + k]) else None
  }

  lemma JourneyFollows(route: seq<Address>, p: nat)
    requires FirstFrom(route, p) && p < |route|
    ensures Follows(Journey(route, route[p]), route, p)
  {
    forall k: nat ensures Journey(route, route[p])(k) == if p + k < |route| then Some(route[p + k]) else None {
      TravelsInOrder(route, p, k);
    }
  }

  lemma {:induction false} VisitsInOrder(at: nat -> Option<Address>, route: seq<Address>, p: nat, n: nat)
    requires p < |route| && Follows(at, route, p)
    ensures Visits(at, n) == if p + n < |route| then route[p..p + n] else route[p..]
  {
    if n > 0 {
      VisitsInOrder(at, route, p, n - 1);
      assert at(n - 1) == if p + (n - 1) < |route| then Some(route[p + (n - 1)]) else None;
      if p + (n - 1) < |route| {
        assert route[p..p + n] == route[p..p + (n - 1)] + [route[p + (n - 1)]];
        assert p + n == |route| ==> route[p..p + n] == route[p..];
      }
    }
  }

  lemma VisitsRoute(at: nat -> Option<Address>, route: seq<Address>, p: nat)
    requires p < |route| && Follows(at, route, p)
    ensures Visits(at, |route|) == route[p..]
  {
    VisitsInOrder(at, route, p, |route|);
  }

  /** The state of every node after the visits, when a visit to `a` turns its state `t` into `handle(a, t)`. */
  function Visited<T>(net: Address -> T, handle: (Address, T) -> T, visits: seq<Address>): Address -> T {
    if visits == [] then net
    else
      var before, a := Visited(net, handle, visits[..|visits| - 1]), visits[|visits| - 1];
      x => if x == a then handle(a, before(a)) else before(x)
  }

  /** Visiting each node at most once leaves every visited node handled once and every other node alone. */
  lemma {:induction false} VisitedOnce<T>(net: Address -> T, handle: (Address, T) -> T, visits: seq<Address>,
                                          x: Address)
    requires NoDup(visits)
    ensures Visited(net, handle, visits)(x) == if x in visits then handle(x, net(x)) else net(x)
  {
    if visits != [] {
      var before, a := visits[..|visits| - 1], visits[|visits| - 1];
      assert NoDup(before);
      assert visits == before + [a];
      assert a !in before;
      VisitedOnce(net, handle, before, x);
    }
  }

  function Handler(reply: Reply): (Address, Table) -> Table { (a, t) => TableAfter(reply, t, a) }

  /** The states after as many deliveries as the route is long; a journey that stops has stopped by then. */
  function Travelled<T>(net: Address -> T, handle: (Address, T) -> T, route: seq<Address>, start: Address)
    : Address -> T
  {
    Visited(net, handle, Visits(Journey(route, start), |route|))
  }

  lemma TravelledExactly<T>(net: Address -> T, handle: (Address, T) -> T, route: seq<Address>, p: nat, x: Address)
    requires FirstFrom(route, p) && p < |route|
    ensures Travelled(net, handle, route, route[p])(x) == if x in route[p..] then handle(x, net(x)) else net(x)
  {
    JourneyFollows(route, p);
    VisitsRoute(Journey(route, route[p]), route, p);
    VisitedOnce(net, handle, route[p..], x);
  }

  /** The tables once a reply that was handed to `start` has stopped. */
  function FinalNet(net: Net, reply: Reply, start: Address): Net {
    Travelled(net, Handler(reply), reply.route, start)
  }

  /** Every node of the route from the first recipient on handles the reply once; all others keep their tables. */
  lemma FinalNetExactly(net: Net, reply: Reply, p: nat, x: Address)
    requires FirstFrom(reply.route, p) && p < |reply.route|
    ensures FinalNet(net, reply, reply.route[p])(x) ==
      if x in reply.route[p..] then TableAfter(reply, net(x), x) else net(x)
  {
    TravelledExactly(net, Handler(reply), reply.route, p, x);
  }

  /** The node at position `i` sends traffic for the destination to the node before it. */
  predicate Points(net: Net, reply: Reply, i: nat)
    requires 0 < i < |reply.route|
  {
    var t := net(reply.route[i]);
    reply.destination in t && t[reply.destination].nextHop == reply.route[i - 1]
  }

  /** The node at position `i` gets the reply and prefers its route to what it has. */
  predicate Takes(net: Net, reply: Reply, p: nat, i: nat)
    requires 0 < i < |reply.route|
  {
    var t, hops := net(reply.route[i]), (reply.hopCount as int + i) % 256;
    && p <= i
    && (reply.destination in t ==>
          var r := t[reply.destination];
          r.quality < reply.quality || (r.quality == reply.quality && hops < r.hops as int))
  }

  /** The route a reply offers at position `i`: by way of the node before it, with the quality of the reply and that
      many more hops, counted in an octet. */
  predicate Offered(reply: Reply, i: nat, r: Route)
    requires 0 < i < |reply.route|
  {
    && r.destination == reply.destination && r.nextHop == reply.route[i - 1] && r.quality == reply.quality
    && r.hops as int == (reply.hopCount as int + i) % 256
  }

  lemma TakesIsAdopts(net: Net, reply: Reply, p: nat, i: nat)
    requires 0 < i < |reply.route|
    ensures Takes(net, reply, p, i) <==> p <= i && Adopts(net(reply.route[i]), RouteAt(reply, i))
    ensures Offered(reply, i, RouteAt(reply, i))
  {
    Wraps(reply.hopCount as int + i % 256, i / 256);
    assert HopsAt(reply, i) as int == (reply.hopCount as int + i) % 256;
  }

  lemma {:induction false} Wraps(x: nat, q: nat)
    ensures (x + 256 * q) % 256 == x % 256
  {
    if q > 0 {
      Wraps(x, q - 1);
      assert x + 256 * q == (x + 256 * (q - 1)) + 256;
    }
  }

  lemma HopsWithoutWrap(reply: Reply, i: nat, r: Route)
    requires 0 < i < |reply.route| && Offered(reply, i, r) && reply.hopCount as int + i < 256
    ensures r.hops as int == reply.hopCount as int + i
  {
  }

  /** A node ends up pointing down the route exactly when it takes the new route or pointed there already. */
  lemma PointsExactly(net: Net, reply: Reply, p: nat, i: nat)
    requires FirstFrom(reply.route, p) && p < |reply.route| && 0 < i < |reply.route|
    ensures var final := FinalNet(net, reply, reply.route[p]);
      && (Points(final, reply, i) <==> Takes(net, reply, p, i) || Points(net, reply, i))
      && (Takes(net, reply, p, i) ==> Entry(final, reply, i).Some? && Offered(reply, i, Entry(final, reply, i).value))
      && (!Takes(net, reply, p, i) ==> final(reply.route[i]) == net(reply.route[i]))
  {
    TakesIsAdopts(net, reply, p, i);
    FinalAt(net, reply, p, i);
  }

  function Entry(net: Net, reply: Reply, i: nat): Option<Route>
    requires i < |reply.route|
  {
    var t := net(reply.route[i]);
    if reply.destination in t then Some(t[reply.destination]) else None
  }

  lemma FinalAt(net: Net, reply: Reply, p: nat, i: nat)
    requires FirstFrom(reply.route, p) && p < |reply.route| && 0 < i < |reply.route|
    ensures FinalNet(net, reply, reply.route[p])(reply.route[i]) ==
      if p <= i then Updated(net(reply.route[i]), RouteAt(reply, i)) else net(reply.route[i])
  {
    FinalNetExactly(net, reply, p, reply.route[i]);
    if p <= i {
      assert reply.route[p..][i - p] == reply.route[i];
      PositionIn(reply.route, p, i);
    } else {
      assert reply.route[i] !in reply.route[p..];
    }
  }

  /** Follow next hops for `dest` from `a`. */
  function Follow(net: Net, dest: Address, a: Address, steps: nat): Option<Address>
    decreases steps
  {
    if steps == 0 then Some(a)
    else
      match Follow(net, dest, a, steps - 1)
      case Some(b) => if dest in net(b) then Some(net(b)[dest].nextHop) else None
      case None => None
  }

  /** From position `i` next hops lead down the route, one position a step, to its first node. */
  predicate LeadsHome(net: Net, reply: Reply, i: nat)
    requires i < |reply.route|
  {
    forall s: nat :: s <= i ==> Follow(net, reply.destination, reply.route[i], s) == Some(reply.route[i - s])
  }

  lemma {:induction false} PointersLeadHome(net: Net, reply: Reply, i: nat, steps: nat)
    requires steps <= i < |reply.route|
    requires forall j :: 0 < j <= i ==> Points(net, reply, j)
    ensures Follow(net, reply.destination, reply.route[i], steps) == Some(reply.route[i - steps])
  {
    if steps > 0 {
      PointersLeadHome(net, reply, i, steps - 1);
      assert Points(net, reply, i - (steps - 1));
    }
  }

  lemma LeadsHomeExactly(net: Net, reply: Reply, i: nat)
    requires i < |reply.route|
    ensures LeadsHome(net, reply, i) <==> forall j :: 0 < j <= i ==> Points(net, reply, j)
  {
    if LeadsHome(net, reply, i) {
      forall j | 0 < j <= i ensures Points(net, reply, j) {
        var s: nat := i - j;
        assert Follow(net, reply.destination, reply.route[i], s) == Some(reply.route[i - s]);
        assert Follow(net, reply.destination, reply.route[i], s + 1) == Some(reply.route[i - (s + 1)]);
      }
    } else if forall j :: 0 < j <= i ==> Points(net, reply, j) {
      forall s: nat | s <= i
        ensures Follow(net, reply.destination, reply.route[i], s) == Some(reply.route[i - s])
      {
        PointersLeadHome(net, reply, i, s);
      }
    }
  }

  /** The routes a reply builds: when it is handed to position `p` and nothing repeats from there on, next hops lead
      from position `i` down the route to the answering node in exactly `i` steps if and only if every node on the way
      takes the new route or pointed down the route before. In particular the nodes between the answering node and the
      first recipient, which never see the reply, must have pointed there already. */
  lemma RepliesBuildRoutes(net: Net, reply: Reply, p: nat, i: nat)
    requires FirstFrom(reply.route, p) && p < |reply.route| && i < |reply.route|
    ensures LeadsHome(FinalNet(net, reply, reply.route[p]), reply, i) <==>
      forall j :: 0 < j <= i ==> Takes(net, reply, p, j) || Points(net, reply, j)
  {
    var final := FinalNet(net, reply, reply.route[p]);
    LeadsHomeExactly(final, reply, i);
    forall j | 0 < j <= i ensures Points(final, reply, j) <==> Takes(net, reply, p, j) || Points(net, reply, j) {
      PointsExactly(net, reply, p, j);
    }
  }

  /** The good case: the last forwarder was new to the path and the answering node has not forwarded the request. Then
      the reply visits every node of its route after the answering node. If all of them take the new route, for instance
      because they had none, next hops lead from each of them to the answering node without a loop, and the hop counts
      say how far it is; they cannot wrap when the destination itself answers. */
  lemma NewForwarderBuildsRoutes(r: Request, hops: seq<Address>, net: Net, local: Address, i: nat)
    requires r.path == [] && Forwarded(r, hops) && hops != []
    requires HandlePathRequest(WithHops(r, hops), net(local), local).Some?
    requires hops[|hops| - 1] !in WithHops(r, hops[..|hops| - 1]).path && local !in WithHops(r, hops).path
    requires var reply := HandlePathRequest(WithHops(r, hops), net(local), local).value;
      0 < i < |reply.route| && forall j :: 0 < j < |reply.route| ==> Takes(net, reply, 1, j)
    ensures var reply := HandlePathRequest(WithHops(r, hops), net(local), local).value;
      var final := FinalNet(net, reply, hops[|hops| - 1]);
      && Stops(reply.route, hops[|hops| - 1])
      && LeadsHome(final, reply, i) && reply.route[0] == local
      && Entry(final, reply, i).Some? && Offered(reply, i, Entry(final, reply, i).value)
      && (r.destination == local ==> reply.hopCount == 0)
      && (reply.hopCount as int + i < 256 || r.destination == local ==>
            Entry(final, reply, i).value.hops as int == reply.hopCount as int + i)
  {
    var reply, from := HandlePathRequest(WithHops(r, hops), net(local), local).value, hops[|hops| - 1];
    NewForwarderIsSecond(r, hops, local);
    StopsExactly(reply.route, from);
    RepliesBuildRoutes(net, reply, 1, i);
    PointsExactly(net, reply, 1, i);
    AnsweredExactly(WithHops(r, hops), net(local), local);
    if reply.hopCount as int + i < 256 {
      HopsWithoutWrap(reply, i, Entry(FinalNet(net, reply, from), reply, i).value);
    }
  }

  /** A last forwarder that was new to the path is the second node of the route. */
  lemma NewForwarderIsSecond(r: Request, hops: seq<Address>, local: Address)
    requires r.path == [] && Forwarded(r, hops) && hops != []
    requires hops[|hops| - 1] !in WithHops(r, hops[..|hops| - 1]).path && local !in WithHops(r, hops).path
    ensures WithHops(r, hops).destination == r.destination
    ensures var route, from := Reversed(WithHops(r, hops).path + [local]), hops[|hops| - 1];
      && 2 <= |route| <= 256 && route[0] == local && route[1] == from
      && Position(route, from) == Some(1) && FirstFrom(route, 1)
  {
    var path := WithHops(r, hops).path;
    PathHasNoDup(r, hops);
    assert path[|path| - 1] == hops[|hops| - 1];
    PositionOnRoute(path, local, |path| - 1);
    FirstFromOnRoute(path, local, |path| - 1);
    assert path[..|path|] == path;
  }

  /** A request that goes round by way of A, B and A again and is answered by C: the reply goes to A, stops there, and B
      never sees it. */
  lemma RepeatedForwarderSkipsNodes(r: Request, net: Net, a: Address, b: Address, c: Address)
    requires r.path == [] && a != b && b != c && a != c && HandlePathRequest(WithHops(r, [a, b, a]), net(c), c).Some?
    ensures var reply := HandlePathRequest(WithHops(r, [a, b, a]), net(c), c).value;
      reply.route == [c, b, a] && Stops(reply.route, a) && FinalNet(net, reply, a)(b) == net(b)
  {
    var reply := HandlePathRequest(WithHops(r, [a, b, a]), net(c), c).value;
    ThreeHops(r, a, b);
    assert reply.route == Reversed([a, b] + [c]);
    ThreeReversed(a, b, c);
    PositionIn(reply.route, 2, 2);
    StopsExactly(reply.route, a);
    FinalNetExactly(net, reply, 2, b);
  }

  lemma ThreeReversed(a: Address, b: Address, c: Address)
    ensures Reversed([a, b] + [c]) == [c, b, a]
  {
  }

  lemma ThreeHops(r: Request, a: Address, b: Address)
    requires r.path == [] && a != b
    ensures WithHops(r, [a, b, a]).path == [a, b] && WithHops(r, [a, b]).path == [a, b]
  {
    assert [a, b, a][..2] == [a, b] && [a, b][..1] == [a] && [a][..0] == [];
    assert WithHops(r, [a]).path == [] + [a] == [a];
    assert WithHops(r, [a, b]).path == [a] + [b];
  }

  /** A request that A forwards, then B, and that comes back to A when A has learnt a route: the reply circulates
      between the two for ever. */
  lemma ReplyCirculates(r: Request, t: Table, a: Address, b: Address)
    requires r.path == [] && a != b && HandlePathRequest(WithHops(r, [a, b]), t, a).Some?
    ensures !Stops(HandlePathRequest(WithHops(r, [a, b]), t, a).value.route, b)
  {
    ThreeHops(r, a, b);
    ReplyStopsExactly(r, [a, b], t, a);
  }
}
