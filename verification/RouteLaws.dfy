// What a rendered config holds, said from the routes: which of them block, which send, with which targets, which
// add name servers, and which stop the rendering.
module RouteLaws {
  import opened Results
  import opened Text
  import opened RouteOutbounds

  // ----- Blocking and sending -----

  /** A route that names nothing to match says nothing, the default route aside. */
  predicate Silent(route: Route) {
    route.matchRules == [] && route.action != DefaultOut
  }

  predicate IsBlock(action: Action) {
    action == Block || action == BlockIp || action == BlockPort || action == Protocol
  }

  predicate IsForward(action: Action) {
    action == Forward || action == ForwardIp || action == DefaultOut
  }

  predicate BlocksTraffic(reader: Reader, route: Route) {
    !Silent(route) && (IsBlock(route.action) || (IsForward(route.action) && reader.isBlackhole(route)))
  }

  predicate SendsTraffic(reader: Reader, inbound: Inbound, route: Route) {
    && !Silent(route) && IsForward(route.action) && !reader.isBlackhole(route)
    && reader.outboundOf(inbound, route).Ok? && reader.outboundOf(inbound, route).value.Some?
  }

  /** The targets a route stands for, each action reading its match rules in its own way. */
  function Targets(reader: Reader, inbound: Inbound, route: Route): Result<seq<string>, string> {
    match route.action
    case Block => reader.targets(BlockTarget, inbound, route)
    case BlockIp => reader.targets(IpTarget, inbound, route)
    case BlockPort => reader.targets(PortTarget, inbound, route)
    case Protocol => reader.targets(ProtocolTarget, inbound, route)
    case ForwardIp => reader.targets(IpTarget, inbound, route)
    case DefaultOut => Ok(["*"])
    case _ => reader.targets(AnyTarget, inbound, route)
  }

  /** The routes that end up in the rendered list, in order. */
  function Effective(reader: Reader, inbound: Inbound, routes: seq<Route>): seq<Route> {
    if routes == [] then []
    else
      (if BlocksTraffic(reader, routes[0]) || SendsTraffic(reader, inbound, routes[0]) then [routes[0]] else [])
      + Effective(reader, inbound, routes[1..])
  }

  /** The rendered action is the route's: it blocks or sends as the route does, its targets, to its outbound. */
  predicate RenderedAs(reader: Reader, inbound: Inbound, route: Route, one: Rendered) {
    && Targets(reader, inbound, route) == Ok(one.targets)
    && (one.Blocks? <==> BlocksTraffic(reader, route))
    && (one.Sends? ==> reader.outboundOf(inbound, route) == Ok(Some(one.outbound)) && one.tag == one.outbound.tag)
  }

  /** Nothing stops the route from being rendered. */
  predicate Supported(reader: Reader, inbound: Inbound, route: Route) {
    || Silent(route)
    || (match route.action
        case Other(_) => false
        case Dns => true
        case _ =>
          if IsForward(route.action) && !reader.isBlackhole(route) then
            && reader.outboundOf(inbound, route).Ok?
            && (reader.outboundOf(inbound, route).value.Some? ==> Targets(reader, inbound, route).Ok?)
          else Targets(reader, inbound, route).Ok?)
  }

  /** Why a route cannot be rendered. */
  function Refusal(reader: Reader, inbound: Inbound, route: Route): string {
    match route.action
    case Other(name) => "keli-core-rs route action " + name + " on inbound " + inbound.tag + " is not supported yet"
    case _ =>
      if IsForward(route.action) && !reader.isBlackhole(route) && reader.outboundOf(inbound, route).Err?
      then reader.outboundOf(inbound, route).error
      else match Targets(reader, inbound, route) case Err(e) => e case Ok(_) => ""
  }

  lemma RouteIsRendered(reader: Reader, inbound: Inbound, route: Route)
    ensures RenderRoute(reader, inbound, route).Ok? <==> Supported(reader, inbound, route)
    ensures RenderRoute(reader, inbound, route).Err? ==>
              RenderRoute(reader, inbound, route).error == Refusal(reader, inbound, route)
    ensures RenderRoute(reader, inbound, route).Ok? ==>
              var one := RenderRoute(reader, inbound, route).value;
              && (one.Some? <==> BlocksTraffic(reader, route) || SendsTraffic(reader, inbound, route))
              && (one.Some? ==> RenderedAs(reader, inbound, route, one.value))
  {
  }

  predicate AllSupported(reader: Reader, inbound: Inbound, routes: seq<Route>) {
    forall i :: 0 <= i < |routes| ==> Supported(reader, inbound, routes[i])
  }

  predicate AllRenderedAs(reader: Reader, inbound: Inbound, routes: seq<Route>, list: seq<Rendered>) {
    |list| == |routes| && forall i :: 0 <= i < |routes| ==> RenderedAs(reader, inbound, routes[i], list[i])
  }

  lemma RenderedCons(
      reader: Reader, inbound: Inbound, route: Route, one: Rendered, routes: seq<Route>, list: seq<Rendered>)
    requires RenderedAs(reader, inbound, route, one) && AllRenderedAs(reader, inbound, routes, list)
    ensures AllRenderedAs(reader, inbound, [route] + routes, [one] + list)
  {
    hide RenderedAs;
  }

  /**
   * An inbound's routes render exactly when each is supported, and then to one action for every route that blocks
   * or sends, in order, each with its own targets and outbound, and nothing else.
   */
  lemma {:induction false} RoutesAreRendered(reader: Reader, inbound: Inbound, routes: seq<Route>)
    ensures RenderRoutes(reader, inbound, routes).Ok? <==> AllSupported(reader, inbound, routes)
    ensures RenderRoutes(reader, inbound, routes).Ok? ==>
              AllRenderedAs(reader, inbound, Effective(reader, inbound, routes),
                            RenderRoutes(reader, inbound, routes).value)
  {
    if routes != [] {
      hide RenderRoute, Supported, RenderedAs, BlocksTraffic, SendsTraffic;
      var first, tail := routes[0], routes[1..];
      RouteIsRendered(reader, inbound, first);
      RoutesAreRendered(reader, inbound, tail);
      assert forall i :: 0 <= i < |tail| ==> tail[i] == routes[i + 1];
      assert forall i :: 1 <= i < |routes| ==> routes[i] == tail[i - 1];
      if RenderRoutes(reader, inbound, routes).Ok? {
        var one := RenderRoute(reader, inbound, first).value;
        var rest := RenderRoutes(reader, inbound, tail).value;
        if one.Some? {
          RenderedCons(reader, inbound, first, one.value, Effective(reader, inbound, tail), rest);
        } else {
          assert [] + Effective(reader, inbound, tail) == Effective(reader, inbound, tail) && [] + rest == rest;
        }
      }
    }
  }

  /** The first route that is not supported stops the rendering, with its own reason. */
  lemma {:induction false} FirstRefusalDecides(reader: Reader, inbound: Inbound, routes: seq<Route>, k: nat)
    requires k < |routes| && AllSupported(reader, inbound, routes[..k]) && !Supported(reader, inbound, routes[k])
    ensures RenderRoutes(reader, inbound, routes) == Err(Refusal(reader, inbound, routes[k]))
  {
    hide RenderRoute, Supported, Refusal;
    RouteIsRendered(reader, inbound, routes[0]);
    if k > 0 {
      assert routes[..k][0] == routes[0] && routes[1..][..k - 1] == routes[..k][1..];
      assert forall i :: 1 <= i < k ==> routes[..k][i] == routes[..k][1..][i - 1];
      FirstRefusalDecides(reader, inbound, routes[1..], k - 1);
    }
  }

  /** So it is for every inbound of a rendered config. */
  lemma {:induction false} InboundsAreRendered(reader: Reader, inbounds: seq<Inbound>)
    ensures RenderInbounds(reader, inbounds).Ok? <==>
            forall i :: 0 <= i < |inbounds| ==> AllSupported(reader, inbounds[i], inbounds[i].routes)
    ensures RenderInbounds(reader, inbounds).Ok? ==>
              var lists := RenderInbounds(reader, inbounds).value;
              && |lists| == |inbounds|
              && forall i :: 0 <= i < |inbounds| ==>
                   AllRenderedAs(reader, inbounds[i], Effective(reader, inbounds[i], inbounds[i].routes), lists[i])
  {
    if inbounds != [] {
      hide RenderRoutes, AllSupported, AllRenderedAs, Effective;
      RoutesAreRendered(reader, inbounds[0], inbounds[0].routes);
      InboundsAreRendered(reader, inbounds[1..]);
      assert forall i :: 0 <= i < |inbounds[1..]| ==> inbounds[1..][i] == inbounds[i + 1];
      assert forall i :: 1 <= i < |inbounds| ==> inbounds[i] == inbounds[1..][i - 1];
    }
  }

  // ----- Name servers -----

  predicate NamesServer(route: Route) {
    route.action == Dns && route.actionValue.Some? && !AllWhitespace(route.actionValue.value)
  }

  function NamingRoutes(routes: seq<Route>): seq<Route> {
    if routes == [] then []
    else (if NamesServer(routes[0]) then [routes[0]] else []) + NamingRoutes(routes[1..])
  }

  /** The server is the one the route names: its address without the space around, for all domains or its own. */
  predicate ServedBy(reader: Reader, inbound: Inbound, route: Route, server: DnsServer) {
    && route.actionValue.Some? && server.address == Trim(route.actionValue.value)
    && (route.matchRules == [] ==> server.domains == None)
    && (route.matchRules != [] ==>
          server.domains.Some? && reader.targets(AnyTarget, inbound, route) == Ok(server.domains.value))
  }

  predicate AllServedBy(reader: Reader, inbound: Inbound, routes: seq<Route>, servers: seq<DnsServer>) {
    |servers| == |routes| && forall i :: 0 <= i < |routes| ==> ServedBy(reader, inbound, routes[i], servers[i])
  }

  lemma RouteIsServed(reader: Reader, inbound: Inbound, route: Route)
    ensures ServerOf(reader, inbound, route).Ok? <==>
            !NamesServer(route) || route.matchRules == [] || reader.targets(AnyTarget, inbound, route).Ok?
    ensures ServerOf(reader, inbound, route).Ok? ==>
              var one := ServerOf(reader, inbound, route).value;
              && (one.Some? <==> NamesServer(route))
              && (one.Some? ==> ServedBy(reader, inbound, route, one.value))
  {
    if route.actionValue.Some? {
      BlankIsWhitespace(route.actionValue.value);
    }
    hide Trim, AllWhitespace;
  }

  lemma ServedCons(
      reader: Reader, inbound: Inbound, route: Route, one: DnsServer, routes: seq<Route>, servers: seq<DnsServer>)
    requires ServedBy(reader, inbound, route, one) && AllServedBy(reader, inbound, routes, servers)
    ensures AllServedBy(reader, inbound, [route] + routes, [one] + servers)
  {
    hide ServedBy;
  }

  /** An inbound adds one server for each of its dns routes with an address, in order, and nothing else. */
  lemma {:induction false} ServersFollowRoutes(reader: Reader, inbound: Inbound, routes: seq<Route>)
    requires RouteServers(reader, inbound, routes).Ok?
    ensures AllServedBy(reader, inbound, NamingRoutes(routes), RouteServers(reader, inbound, routes).value)
  {
    if routes != [] {
      hide ServerOf, NamesServer, ServedBy;
      var first, tail := routes[0], routes[1..];
      RouteIsServed(reader, inbound, first);
      ServersFollowRoutes(reader, inbound, tail);
      var one := ServerOf(reader, inbound, first).value;
      var rest := RouteServers(reader, inbound, tail).value;
      if one.Some? {
        ServedCons(reader, inbound, first, one.value, NamingRoutes(tail), rest);
      } else {
        assert [] + NamingRoutes(tail) == NamingRoutes(tail) && [] + rest == rest;
      }
    }
  }

  /** The dns routes with an address of all inbounds, each with its inbound, in order. */
  function AllNaming(inbounds: seq<Inbound>): seq<(Inbound, Route)> {
    if inbounds == [] then [] else Paired(inbounds[0], NamingRoutes(inbounds[0].routes)) + AllNaming(inbounds[1..])
  }

  function Paired(inbound: Inbound, routes: seq<Route>): (r: seq<(Inbound, Route)>)
    ensures |r| == |routes| && forall i :: 0 <= i < |routes| ==> r[i] == (inbound, routes[i])
  {
    seq(|routes|, i requires 0 <= i < |routes| => (inbound, routes[i]))
  }

  predicate PairsServedBy(reader: Reader, pairs: seq<(Inbound, Route)>, servers: seq<DnsServer>) {
    |servers| == |pairs| && forall i :: 0 <= i < |pairs| ==> ServedBy(reader, pairs[i].0, pairs[i].1, servers[i])
  }

  lemma PairsConcat(
      reader: Reader, a: seq<(Inbound, Route)>, x: seq<DnsServer>, b: seq<(Inbound, Route)>, y: seq<DnsServer>)
    requires PairsServedBy(reader, a, x) && PairsServedBy(reader, b, y)
    ensures PairsServedBy(reader, a + b, x + y)
  {
    hide ServedBy;
  }

  lemma InboundIsServed(reader: Reader, inbound: Inbound)
    requires RouteServers(reader, inbound, inbound.routes).Ok?
    ensures PairsServedBy(reader, Paired(inbound, NamingRoutes(inbound.routes)),
                          RouteServers(reader, inbound, inbound.routes).value)
  {
    hide ServedBy, RouteServers, NamingRoutes;
    ServersFollowRoutes(reader, inbound, inbound.routes);
  }

  /** All inbounds together add one server for each of their dns routes with an address, in order. */
  lemma {:induction false} AllServersFollowRoutes(reader: Reader, inbounds: seq<Inbound>)
    requires AllServers(reader, inbounds).Ok?
    ensures PairsServedBy(reader, AllNaming(inbounds), AllServers(reader, inbounds).value)
  {
    if inbounds != [] {
      hide RouteServers, PairsServedBy, NamingRoutes;
      InboundIsServed(reader, inbounds[0]);
      AllServersFollowRoutes(reader, inbounds[1..]);
      PairsConcat(reader, Paired(inbounds[0], NamingRoutes(inbounds[0].routes)),
                  RouteServers(reader, inbounds[0], inbounds[0].routes).value,
                  AllNaming(inbounds[1..]), AllServers(reader, inbounds[1..]).value);
    }
  }

  /** The servers a config starts with: the configured ones, or two public ones when there are none. */
  predicate StartsWith(servers: seq<DnsServer>, addresses: seq<string>, rest: seq<DnsServer>) {
    if addresses == [] then servers == [DnsServer("1.1.1.1", None), DnsServer("8.8.8.8", None)] + rest
    else
      && |servers| == |addresses| + |rest| && servers[|addresses|..] == rest
      && forall i :: 0 <= i < |addresses| ==> servers[i] == DnsServer(addresses[i], None)
  }

  /** Behind those a config lists the servers its routes name. */
  lemma ConfigServers(reader: Reader, addresses: seq<string>, inbounds: seq<Inbound>)
    requires RenderConfig(reader, addresses, inbounds).Ok?
    ensures exists rest :: StartsWith(RenderConfig(reader, addresses, inbounds).value.servers, addresses, rest)
                        && PairsServedBy(reader, AllNaming(inbounds), rest)
  {
    AllServersFollowRoutes(reader, inbounds);
    hide CollectAll, AllServers, RenderInbounds, PairsServedBy, AllNaming;
    assert ForAllDomains(["1.1.1.1", "8.8.8.8"]) == [DnsServer("1.1.1.1", None), DnsServer("8.8.8.8", None)];
    assert StartsWith(RenderConfig(reader, addresses, inbounds).value.servers, addresses,
                      AllServers(reader, inbounds).value);
  }

  // ----- The built-in outbound -----

  lemma {:induction false} PushingKeepsFront(outbounds: seq<Outbound>, list: seq<Outbound>)
    ensures outbounds <= PushAll(outbounds, list)
    decreases |list|
  {
    if list != [] {
      PushingKeepsFront(PushOnce(outbounds, list[0]), list[1..]);
    }
  }

  /** The direct outbound is there and stands first. */
  lemma DirectComesFirst(reader: Reader, addresses: seq<string>, inbounds: seq<Inbound>)
    requires RenderConfig(reader, addresses, inbounds).Ok?
    ensures var outbounds := RenderConfig(reader, addresses, inbounds).value.outbounds;
            outbounds != [] && outbounds[0] == Outbound("direct", "freedom")
  {
    ValidWhenCollected(reader, inbounds, [DIRECT]);
    CollectsWhatInboundsRender(reader, inbounds, [DIRECT]);
    hide AllServers, BaseServers, CollectAll, RenderInbounds, PushAll;
    PushingKeepsFront([DIRECT], AllNamed(RenderInbounds(reader, inbounds).value));
  }

  // ----- What stops a config -----

  /** The inbound is valid and every outbound its forwarding routes name can be read. */
  predicate Collects(reader: Reader, inbound: Inbound) {
    && reader.validate(inbound).None?
    && forall j :: 0 <= j < |inbound.routes| ==>
         var route := inbound.routes[j];
         Silent(route) || !IsForward(route.action) || reader.isBlackhole(route) || reader.outboundOf(inbound, route).Ok?
  }

  lemma {:induction false} RoutesCollect(
      reader: Reader, inbound: Inbound, routes: seq<Route>, outbounds: seq<Outbound>)
    requires forall j :: 0 <= j < |routes| ==>
               Silent(routes[j]) || !IsForward(routes[j].action) || reader.isBlackhole(routes[j])
               || reader.outboundOf(inbound, routes[j]).Ok?
    ensures CollectRoutes(reader, inbound, routes, outbounds).Ok?
  {
    if routes != [] {
      assert CollectRoute(reader, inbound, routes[0], outbounds).Ok?;
      hide CollectRoute, Silent, IsForward;
      RoutesCollect(reader, inbound, routes[1..], CollectRoute(reader, inbound, routes[0], outbounds).value);
    }
  }

  lemma {:induction false} InvalidStopsCollecting(
      reader: Reader, inbounds: seq<Inbound>, k: nat, outbounds: seq<Outbound>)
    requires k < |inbounds| && reader.validate(inbounds[k]).Some?
    requires forall i :: 0 <= i < k ==> Collects(reader, inbounds[i])
    ensures CollectAll(reader, inbounds, outbounds) == Err(reader.validate(inbounds[k]).value)
  {
    if k > 0 {
      assert Collects(reader, inbounds[0]);
      RoutesCollect(reader, inbounds[0], inbounds[0].routes, outbounds);
      hide Collects, CollectRoutes;
      assert forall i :: 1 <= i < k ==> inbounds[i] == inbounds[1..][i - 1];
      InvalidStopsCollecting(reader, inbounds[1..], k - 1,
                             CollectRoutes(reader, inbounds[0], inbounds[0].routes, outbounds).value);
    }
  }

  /** The first invalid inbound stops the config with its own error, when nothing before it does. */
  lemma InvalidInboundIsRefused(reader: Reader, addresses: seq<string>, inbounds: seq<Inbound>, k: nat)
    requires k < |inbounds| && reader.validate(inbounds[k]).Some?
    requires forall i :: 0 <= i < k ==> Collects(reader, inbounds[i])
    ensures RenderConfig(reader, addresses, inbounds) == Err(reader.validate(inbounds[k]).value)
  {
    InvalidStopsCollecting(reader, inbounds, k, [DIRECT]);
  }
}
