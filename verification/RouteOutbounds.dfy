// Rendering a core config: routes are rendered per inbound, the outbounds they name are collected once for all.
module RouteOutbounds {
  import opened Sequences
  import opened Results
  import opened Text

  datatype Action =
    | Block | BlockIp | BlockPort | Forward | ForwardIp | DefaultOut | Protocol | Dns | Other(name: string)

  datatype Route = Route(action: Action, matchRules: seq<string>, actionValue: Option<string>)

  datatype Inbound = Inbound(tag: string, protocol: string, routes: seq<Route>)

  // `settings` stands for every field beside the tag.
  datatype Outbound = Outbound(tag: string, settings: string)

  const DIRECT := Outbound("direct", "freedom")

  datatype TargetKind = AnyTarget | BlockTarget | IpTarget | PortTarget | ProtocolTarget

  /**
   * What the renderer reads from an inbound and its routes: whether the inbound is valid, the outbound a route
   * names, whether that outbound is a blackhole, and the targets its match rules stand for. Any functions will do.
   */
  datatype Reader = Reader(
    validate: Inbound -> Option<string>,
    outboundOf: (Inbound, Route) -> Result<Option<Outbound>, string>,
    isBlackhole: Route -> bool,
    targets: (TargetKind, Inbound, Route) -> Result<seq<string>, string>)

  datatype Rendered =
    | Blocks(targets: seq<string>)
    | Sends(targets: seq<string>, tag: string, outbound: Outbound)

  /** A route without match rules is passed over, unless it is the default one. */
  predicate PassedOver(route: Route) {
    route.matchRules == [] && route.action != DefaultOut
  }

  predicate NamesOutbound(action: Action) {
    action == Forward || action == ForwardIp || action == DefaultOut
  }

  // ----- Collecting the outbounds -----

  predicate HasTag(outbounds: seq<Outbound>, tag: string) {
    exists i :: 0 <= i < |outbounds| && outbounds[i].tag == tag
  }

  function PushOnce(outbounds: seq<Outbound>, outbound: Outbound): seq<Outbound> {
    if HasTag(outbounds, outbound.tag) then outbounds else outbounds + [outbound]
  }

  function CollectRoute(reader: Reader, inbound: Inbound, route: Route, outbounds: seq<Outbound>)
    : Result<seq<Outbound>, string>
  {
    if PassedOver(route) || !NamesOutbound(route.action) || reader.isBlackhole(route) then Ok(outbounds)
    else
      var named :- reader.outboundOf(inbound, route);
      Ok(if named.Some? then PushOnce(outbounds, named.value) else outbounds)
  }

  function CollectRoutes(reader: Reader, inbound: Inbound, routes: seq<Route>, outbounds: seq<Outbound>)
    : Result<seq<Outbound>, string>
  {
    if routes == [] then Ok(outbounds)
    else
      var more :- CollectRoute(reader, inbound, routes[0], outbounds);
      CollectRoutes(reader, inbound, routes[1..], more)
  }

  function CollectAll(reader: Reader, inbounds: seq<Inbound>, outbounds: seq<Outbound>)
    : Result<seq<Outbound>, string>
  {
    if inbounds == [] then Ok(outbounds)
    else
      var invalid := reader.validate(inbounds[0]);
      if invalid.Some? then Err(invalid.value)
      else
        var more :- CollectRoutes(reader, inbounds[0], inbounds[0].routes, outbounds);
        CollectAll(reader, inbounds[1..], more)
  }

  method CollectRouteOutbounds(reader: Reader, inbound: Inbound, start: seq<Outbound>)
    returns (result: Result<seq<Outbound>, string>)
    ensures result == CollectRoutes(reader, inbound, inbound.routes, start)
  {
    var outbounds, routes := start, inbound.routes;
    for i := 0 to |routes|
      invariant CollectRoutes(reader, inbound, routes[i..], outbounds)
                == CollectRoutes(reader, inbound, routes, start)
    {
      var route := routes[i];
      assert routes[i..][1..] == routes[i + 1..];
      if route.matchRules == [] && route.action != DefaultOut {
        continue;
      }
      if !NamesOutbound(route.action) {
        continue;
      }
      if reader.isBlackhole(route) {
        continue;
      }
      var named := reader.outboundOf(inbound, route);
      if named.Err? {
        return Err(named.error);
      }
      if named.value.Some? {
        outbounds := PushOnce(outbounds, named.value.value);
      }
    }
    return Ok(outbounds);
  }

  // ----- Rendering the routes -----

  function RenderBlock(reader: Reader, kind: TargetKind, inbound: Inbound, route: Route)
    : Result<Option<Rendered>, string>
  {
    var targets :- reader.targets(kind, inbound, route);
    Ok(Some(Blocks(targets)))
  }

  function TargetsOf(reader: Reader, inbound: Inbound, route: Route): Result<seq<string>, string> {
    match route.action
    case ForwardIp => reader.targets(IpTarget, inbound, route)
    case DefaultOut => Ok(["*"])
    case _ => reader.targets(AnyTarget, inbound, route)
  }

  function RenderForward(reader: Reader, inbound: Inbound, route: Route): Result<Option<Rendered>, string> {
    if reader.isBlackhole(route) then
      var targets :- TargetsOf(reader, inbound, route);
      Ok(Some(Blocks(targets)))
    else
      var named :- reader.outboundOf(inbound, route);
      if named.None? then Ok(None)
      else
        var targets :- TargetsOf(reader, inbound, route);
        Ok(Some(Sends(targets, named.value.tag, named.value)))
  }

  function RenderRoute(reader: Reader, inbound: Inbound, route: Route): Result<Option<Rendered>, string> {
    if PassedOver(route) then Ok(None)
    else
      match route.action
      case Block => RenderBlock(reader, BlockTarget, inbound, route)
      case BlockIp => RenderBlock(reader, IpTarget, inbound, route)
      case BlockPort => RenderBlock(reader, PortTarget, inbound, route)
      case Protocol => RenderBlock(reader, ProtocolTarget, inbound, route)
      case Dns => Ok(None)
      case Other(name) =>
        Err("keli-core-rs route action " + name + " on inbound " + inbound.tag + " is not supported yet")
      case _ => RenderForward(reader, inbound, route)
  }

  function ListOf<T>(one: Option<T>): seq<T> {
    if one.Some? then [one.value] else []
  }

  function RenderRoutes(reader: Reader, inbound: Inbound, routes: seq<Route>): Result<seq<Rendered>, string> {
    if routes == [] then Ok([])
    else
      var first :- RenderRoute(reader, inbound, routes[0]);
      var rest :- RenderRoutes(reader, inbound, routes[1..]);
      Ok(ListOf(first) + rest)
  }

  function RenderInbounds(reader: Reader, inbounds: seq<Inbound>): Result<seq<seq<Rendered>>, string> {
    if inbounds == [] then Ok([])
    else
      var first :- RenderRoutes(reader, inbounds[0], inbounds[0].routes);
      var rest :- RenderInbounds(reader, inbounds[1..]);
      Ok([first] + rest)
  }

  // ----- Name servers -----

  /** A name server, for these domains or for all. */
  datatype DnsServer = DnsServer(address: string, domains: Option<seq<string>>)

  function ForAllDomains(addresses: seq<string>): (r: seq<DnsServer>)
    ensures |r| == |addresses| && forall i :: 0 <= i < |addresses| ==> r[i] == DnsServer(addresses[i], None)
  {
    seq(|addresses|, i requires 0 <= i < |addresses| => DnsServer(addresses[i], None))
  }

  /** The configured servers, or the built-in ones when there are none. */
  function BaseServers(addresses: seq<string>): seq<DnsServer> {
    ForAllDomains(if addresses == [] then ["1.1.1.1", "8.8.8.8"] else addresses)
  }

  /** The server a dns route adds; routes without an address add none. */
  function ServerOf(reader: Reader, inbound: Inbound, route: Route): Result<Option<DnsServer>, string> {
    if route.action != Dns || route.actionValue.None? || Trim(route.actionValue.value) == "" then Ok(None)
    else if route.matchRules == [] then Ok(Some(DnsServer(Trim(route.actionValue.value), None)))
    else
      var domains :- reader.targets(AnyTarget, inbound, route);
      Ok(Some(DnsServer(Trim(route.actionValue.value), Some(domains))))
  }

  function RouteServers(reader: Reader, inbound: Inbound, routes: seq<Route>): Result<seq<DnsServer>, string> {
    if routes == [] then Ok([])
    else
      var first :- ServerOf(reader, inbound, routes[0]);
      var rest :- RouteServers(reader, inbound, routes[1..]);
      Ok(ListOf(first) + rest)
  }

  function AllServers(reader: Reader, inbounds: seq<Inbound>): Result<seq<DnsServer>, string> {
    if inbounds == [] then Ok([])
    else
      var first :- RouteServers(reader, inbounds[0], inbounds[0].routes);
      var rest :- AllServers(reader, inbounds[1..]);
      Ok(first + rest)
  }

  datatype Config = Config(servers: seq<DnsServer>, outbounds: seq<Outbound>, inbounds: seq<seq<Rendered>>)

  function RenderConfig(reader: Reader, addresses: seq<string>, inbounds: seq<Inbound>): Result<Config, string> {
    var outbounds :- CollectAll(reader, inbounds, [DIRECT]);
    var servers :- AllServers(reader, inbounds);
    var rendered :- RenderInbounds(reader, inbounds);
    Ok(Config(BaseServers(addresses) + servers, outbounds, rendered))
  }

  function Before<T>(done: seq<T>, rest: Result<seq<T>, string>): Result<seq<T>, string> {
    match rest
    case Ok(list) => Ok(done + list)
    case Err(error) => Err(error)
  }

  lemma BeforeNothing<T>(rest: Result<seq<T>, string>)
    ensures Before([], rest) == rest
  {
    assert rest.Ok? ==> [] + rest.value == rest.value;
  }

  method RenderRoutesForInbound(reader: Reader, inbound: Inbound) returns (result: Result<seq<Rendered>, string>)
    ensures result == RenderRoutes(reader, inbound, inbound.routes)
  {
    var rendered: seq<Rendered>, routes := [], inbound.routes;
    BeforeNothing(RenderRoutes(reader, inbound, routes));
    assert routes[0..] == routes;
    for i := 0 to |routes|
      invariant Before(rendered, RenderRoutes(reader, inbound, routes[i..])) == RenderRoutes(reader, inbound, routes)
    {
      assert routes[i..][1..] == routes[i + 1..];
      var one := RenderRoute(reader, inbound, routes[i]);
      if one.Err? {
        return Err(one.error);
      }
      ghost var rest := RenderRoutes(reader, inbound, routes[i + 1..]);
      assert rest.Ok? ==> (rendered + ListOf(one.value)) + rest.value == rendered + (ListOf(one.value) + rest.value);
      rendered := rendered + ListOf(one.value);
    }
    assert rendered + [] == rendered;
    return Ok(rendered);
  }

  lemma BeforeBoth<T>(done: seq<T>, first: seq<T>, rest: Result<seq<T>, string>)
    requires rest.Ok?
    ensures Before(done, Ok(first + rest.value)) == Before(done + first, rest)
  {
    ConcatTail(done, first, rest.value);
  }

  method RouteServersForInbound(reader: Reader, inbound: Inbound, start: seq<DnsServer>)
    returns (result: Result<seq<DnsServer>, string>)
    ensures result == Before(start, RouteServers(reader, inbound, inbound.routes))
  {
    var servers, routes := start, inbound.routes;
    assert routes[0..] == routes;
    for i := 0 to |routes|
      invariant Before(servers, RouteServers(reader, inbound, routes[i..]))
                == Before(start, RouteServers(reader, inbound, routes))
    {
      var route := routes[i];
      assert routes[i..][1..] == routes[i + 1..];
      ghost var rest := RouteServers(reader, inbound, routes[i + 1..]);
      if route.action != Dns {
        assert rest.Ok? ==> [] + rest.value == rest.value;
        continue;
      }
      var one := ServerOf(reader, inbound, route);
      if one.Err? {
        return Err(one.error);
      }
      if rest.Ok? {
        BeforeBoth(servers, ListOf(one.value), rest);
      }
      servers := servers + ListOf(one.value);
    }
    assert servers + [] == servers;
    return Ok(servers);
  }

  method RenderServers(reader: Reader, addresses: seq<string>, inbounds: seq<Inbound>)
    returns (result: Result<seq<DnsServer>, string>)
    ensures result == Before(BaseServers(addresses), AllServers(reader, inbounds))
  {
    hide RouteServers, BaseServers;
    var servers := BaseServers(addresses);
    assert inbounds[0..] == inbounds;
    for i := 0 to |inbounds|
      invariant Before(servers, AllServers(reader, inbounds[i..]))
                == Before(BaseServers(addresses), AllServers(reader, inbounds))
    {
      assert inbounds[i..][1..] == inbounds[i + 1..];
      var more := RouteServersForInbound(reader, inbounds[i], servers);
      if more.Err? {
        return Err(more.error);
      }
      ghost var rest := AllServers(reader, inbounds[i + 1..]);
      if rest.Ok? {
        BeforeBoth(servers, RouteServers(reader, inbounds[i], inbounds[i].routes).value, rest);
      }
      servers := more.value;
    }
    assert servers + [] == servers;
    return Ok(servers);
  }

  method RenderCoreConfig(reader: Reader, addresses: seq<string>, inbounds: seq<Inbound>)
    returns (result: Result<Config, string>)
    ensures result == RenderConfig(reader, addresses, inbounds)
  {
    var outbounds := [DIRECT];
    for i := 0 to |inbounds|
      invariant CollectAll(reader, inbounds[i..], outbounds) == CollectAll(reader, inbounds, [DIRECT])
    {
      assert inbounds[i..][1..] == inbounds[i + 1..];
      var invalid := reader.validate(inbounds[i]);
      if invalid.Some? {
        return Err(invalid.value);
      }
      var more := CollectRouteOutbounds(reader, inbounds[i], outbounds);
      if more.Err? {
        return Err(more.error);
      }
      outbounds := more.value;
    }
    var servers := RenderServers(reader, addresses, inbounds);
    if servers.Err? {
      return Err(servers.error);
    }
    var rendered: seq<seq<Rendered>> := [];
    BeforeNothing(RenderInbounds(reader, inbounds));
    assert inbounds[0..] == inbounds;
    for i := 0 to |inbounds|
      invariant Before(rendered, RenderInbounds(reader, inbounds[i..])) == RenderInbounds(reader, inbounds)
    {
      assert inbounds[i..][1..] == inbounds[i + 1..];
      var one := RenderRoutesForInbound(reader, inbounds[i]);
      if one.Err? {
        return Err(one.error);
      }
      ghost var rest := RenderInbounds(reader, inbounds[i + 1..]);
      assert rest.Ok? ==> (rendered + [one.value]) + rest.value == rendered + ([one.value] + rest.value);
      rendered := rendered + [one.value];
    }
    assert rendered + [] == rendered;
    return Ok(Config(servers.value, outbounds, rendered));
  }

  // ----- The outbounds close the routes -----

  /** The outbounds the rendered routes name, in order. */
  function Named(rendered: seq<Rendered>): seq<Outbound> {
    if rendered == [] then []
    else (if rendered[0].Sends? then [rendered[0].outbound] else []) + Named(rendered[1..])
  }

  function AllNamed(inbounds: seq<seq<Rendered>>): seq<Outbound> {
    if inbounds == [] then [] else Named(inbounds[0]) + AllNamed(inbounds[1..])
  }

  function PushAll(outbounds: seq<Outbound>, list: seq<Outbound>): seq<Outbound>
    decreases |list|
  {
    if list == [] then outbounds else PushAll(PushOnce(outbounds, list[0]), list[1..])
  }

  lemma PushAllCons(outbounds: seq<Outbound>, first: Outbound, rest: seq<Outbound>)
    ensures PushAll(outbounds, [first] + rest) == PushAll(PushOnce(outbounds, first), rest)
  {
    hide PushOnce;
    assert ([first] + rest)[1..] == rest;
  }

  lemma PushNothing(outbounds: seq<Outbound>)
    ensures PushAll(outbounds, []) == outbounds
  {
  }

  lemma {:induction false} PushAllConcat(outbounds: seq<Outbound>, a: seq<Outbound>, b: seq<Outbound>)
    ensures PushAll(outbounds, a + b) == PushAll(PushAll(outbounds, a), b)
    decreases |a|
  {
    hide PushAll, PushOnce;
    if a == [] {
      AddNothing(b);
      PushNothing(outbounds);
    } else {
      HeadTail(a);
      PushAllConcat(PushOnce(outbounds, a[0]), a[1..], b);
      PushAllCons(outbounds, a[0], a[1..]);
      PushAllCons(outbounds, a[0], a[1..] + b);
      ConcatTail([a[0]], a[1..], b);
    }
  }

  lemma NamedCons(first: Option<Rendered>, rest: seq<Rendered>)
    ensures Named(ListOf(first) + rest) == Named(ListOf(first)) + Named(rest)
  {
    if first.Some? {
      assert (ListOf(first) + rest)[1..] == rest && ListOf(first)[1..] == [];
    } else {
      assert ListOf(first) + rest == rest;
    }
  }

  // A blackhole or blocking route names nothing; a forwarding one names what collecting pushes.
  lemma CollectsWhatItRenders(reader: Reader, inbound: Inbound, route: Route, outbounds: seq<Outbound>)
    requires RenderRoute(reader, inbound, route).Ok?
    ensures CollectRoute(reader, inbound, route, outbounds)
            == Ok(PushAll(outbounds, Named(ListOf(RenderRoute(reader, inbound, route).value))))
  {
    var one := ListOf(RenderRoute(reader, inbound, route).value);
    assert one != [] ==> one[1..] == [];
    hide HasTag;
  }

  lemma {:induction false} CollectsWhatRoutesRender(
    reader: Reader, inbound: Inbound, routes: seq<Route>, outbounds: seq<Outbound>)
    requires RenderRoutes(reader, inbound, routes).Ok?
    ensures CollectRoutes(reader, inbound, routes, outbounds)
            == Ok(PushAll(outbounds, Named(RenderRoutes(reader, inbound, routes).value)))
  {
    if routes != [] {
      hide RenderRoute, CollectRoute, PushOnce;
      var one := RenderRoute(reader, inbound, routes[0]).value;
      var rest := RenderRoutes(reader, inbound, routes[1..]).value;
      CollectsWhatItRenders(reader, inbound, routes[0], outbounds);
      CollectsWhatRoutesRender(reader, inbound, routes[1..], PushAll(outbounds, Named(ListOf(one))));
      NamedCons(one, rest);
      PushAllConcat(outbounds, Named(ListOf(one)), Named(rest));
    }
  }

  /** Collecting succeeds on whatever renders, unless an inbound is invalid, and gathers what rendering names. */
  lemma {:induction false} CollectsWhatInboundsRender(
    reader: Reader, inbounds: seq<Inbound>, outbounds: seq<Outbound>)
    requires RenderInbounds(reader, inbounds).Ok?
    requires forall i :: 0 <= i < |inbounds| ==> reader.validate(inbounds[i]).None?
    ensures CollectAll(reader, inbounds, outbounds)
            == Ok(PushAll(outbounds, AllNamed(RenderInbounds(reader, inbounds).value)))
  {
    if inbounds != [] {
      hide RenderRoutes, CollectRoutes, PushOnce, Named;
      var first := RenderRoutes(reader, inbounds[0], inbounds[0].routes).value;
      var rest := RenderInbounds(reader, inbounds[1..]).value;
      CollectsWhatRoutesRender(reader, inbounds[0], inbounds[0].routes, outbounds);
      CollectsWhatInboundsRender(reader, inbounds[1..], PushAll(outbounds, Named(first)));
      assert ([first] + rest)[1..] == rest;
      PushAllConcat(outbounds, Named(first), AllNamed(rest));
    }
  }

  predicate DistinctTags(outbounds: seq<Outbound>) {
    forall i, j :: 0 <= i < j < |outbounds| ==> outbounds[i].tag != outbounds[j].tag
  }

  /** The first outbound of a list with this tag. */
  function FirstTagged(list: seq<Outbound>, tag: string): Option<Outbound> {
    if list == [] then None
    else if list[0].tag == tag then Some(list[0])
    else FirstTagged(list[1..], tag)
  }

  lemma {:induction false} HasTagIsFirstTagged(list: seq<Outbound>, tag: string)
    ensures HasTag(list, tag) <==> FirstTagged(list, tag).Some?
  {
    if list != [] {
      HasTagIsFirstTagged(list[1..], tag);
      if FirstTagged(list[1..], tag).Some? {
        var i :| 0 <= i < |list[1..]| && list[1..][i].tag == tag;
        assert list[i + 1].tag == tag;
      }
      if i :| 1 <= i < |list| && list[i].tag == tag {
        assert list[1..][i - 1].tag == tag;
      }
    }
  }

  lemma {:induction false} FirstTaggedConcat(a: seq<Outbound>, b: seq<Outbound>, tag: string)
    ensures FirstTagged(a + b, tag) == if FirstTagged(a, tag).Some? then FirstTagged(a, tag) else FirstTagged(b, tag)
  {
    if a == [] {
      assert a + b == b;
    } else {
      FirstTaggedConcat(a[1..], b, tag);
      assert (a + b)[1..] == a[1..] + b;
    }
  }

  lemma PushOnceKeepsFirst(outbounds: seq<Outbound>, outbound: Outbound, tag: string)
    ensures FirstTagged(PushOnce(outbounds, outbound), tag) == FirstTagged(outbounds + [outbound], tag)
  {
    HasTagIsFirstTagged(outbounds, outbound.tag);
    FirstTaggedConcat(outbounds, [outbound], tag);
    hide HasTag;
  }

  lemma PushOnceIsDistinct(outbounds: seq<Outbound>, outbound: Outbound)
    requires DistinctTags(outbounds)
    ensures DistinctTags(PushOnce(outbounds, outbound))
  {
  }

  lemma {:induction false} PushAllIsDistinct(outbounds: seq<Outbound>, list: seq<Outbound>)
    requires DistinctTags(outbounds)
    ensures DistinctTags(PushAll(outbounds, list))
    decreases |list|
  {
    if list != [] {
      PushOnceIsDistinct(outbounds, list[0]);
      hide PushOnce, DistinctTags;
      PushAllIsDistinct(PushOnce(outbounds, list[0]), list[1..]);
    }
  }

  lemma SplitFirst<T>(front: seq<T>, list: seq<T>)
    requires list != []
    ensures front + list == (front + [list[0]]) + list[1..]
  {
  }

  lemma SameFrontSameFirst(a: seq<Outbound>, b: seq<Outbound>, rest: seq<Outbound>, tag: string)
    requires FirstTagged(a, tag) == FirstTagged(b, tag)
    ensures FirstTagged(a + rest, tag) == FirstTagged(b + rest, tag)
  {
    FirstTaggedConcat(a, rest, tag);
    FirstTaggedConcat(b, rest, tag);
  }

  /** Each tag keeps the first outbound that came with it. */
  lemma {:induction false} PushAllKeepsFirst(outbounds: seq<Outbound>, list: seq<Outbound>, tag: string)
    ensures FirstTagged(PushAll(outbounds, list), tag) == FirstTagged(outbounds + list, tag)
    decreases |list|
  {
    if list == [] {
      assert outbounds + list == outbounds;
    } else {
      hide PushOnce, FirstTagged;
      var more := PushOnce(outbounds, list[0]);
      PushOnceKeepsFirst(outbounds, list[0], tag);
      PushAllKeepsFirst(more, list[1..], tag);
      SameFrontSameFirst(more, outbounds + [list[0]], list[1..], tag);
      SplitFirst(outbounds, list);
    }
  }

  lemma {:induction false} ValidWhenCollected(reader: Reader, inbounds: seq<Inbound>, outbounds: seq<Outbound>)
    requires CollectAll(reader, inbounds, outbounds).Ok?
    ensures forall i :: 0 <= i < |inbounds| ==> reader.validate(inbounds[i]).None?
  {
    if inbounds != [] {
      hide CollectRoutes;
      var more := CollectRoutes(reader, inbounds[0], inbounds[0].routes, outbounds).value;
      ValidWhenCollected(reader, inbounds[1..], more);
      assert forall i :: 1 <= i < |inbounds| ==> inbounds[i] == inbounds[1..][i - 1];
    }
  }

  /** Some rendered action sends to this tag. */
  predicate SomeActionSendsTo(rendered: seq<Rendered>, tag: string) {
    exists i :: 0 <= i < |rendered| && rendered[i].Sends? && rendered[i].tag == tag
  }

  predicate AnyActionSendsTo(inbounds: seq<seq<Rendered>>, tag: string) {
    exists i :: 0 <= i < |inbounds| && SomeActionSendsTo(inbounds[i], tag)
  }

  lemma RenderedTag(reader: Reader, inbound: Inbound, route: Route)
    requires RenderRoute(reader, inbound, route).Ok? && RenderRoute(reader, inbound, route).value.Some?
    ensures var one := RenderRoute(reader, inbound, route).value.value;
            one.Sends? ==> one.tag == one.outbound.tag
  {
  }

  lemma ActionCons(one: Option<Rendered>, rest: seq<Rendered>, tag: string)
    ensures SomeActionSendsTo(ListOf(one) + rest, tag) <==>
            (one.Some? && one.value.Sends? && one.value.tag == tag) || SomeActionSendsTo(rest, tag)
  {
    var all, n := ListOf(one) + rest, |ListOf(one)|;
    if i :| 0 <= i < |rest| && rest[i].Sends? && rest[i].tag == tag {
      assert all[n + i] == rest[i];
    }
    if i :| n <= i < |all| && all[i].Sends? && all[i].tag == tag {
      assert rest[i - n] == all[i];
    }
    assert one.Some? ==> all[0] == one.value;
  }

  lemma NamedOne(one: Option<Rendered>, tag: string)
    ensures HasTag(Named(ListOf(one)), tag) <==> one.Some? && one.value.Sends? && one.value.outbound.tag == tag
  {
    var list := ListOf(one);
    assert list != [] ==> list[1..] == [];
    HasTagIsFirstTagged(Named(list), tag);
    hide HasTag;
  }

  /** The tags the rendered actions carry are those of the outbounds rendered beside them. */
  lemma {:induction false} ActionsName(reader: Reader, inbound: Inbound, routes: seq<Route>, tag: string)
    requires RenderRoutes(reader, inbound, routes).Ok?
    ensures var rendered := RenderRoutes(reader, inbound, routes).value;
            HasTag(Named(rendered), tag) <==> SomeActionSendsTo(rendered, tag)
  {
    if routes != [] {
      hide RenderRoute, HasTag, SomeActionSendsTo, Named, ListOf;
      var one := RenderRoute(reader, inbound, routes[0]).value;
      var rest := RenderRoutes(reader, inbound, routes[1..]).value;
      ActionsName(reader, inbound, routes[1..], tag);
      if one.Some? {
        RenderedTag(reader, inbound, routes[0]);
      }
      NamedOne(one, tag);
      NamedCons(one, rest);
      HasTagConcat(Named(ListOf(one)), Named(rest), tag);
      ActionCons(one, rest, tag);
    } else {
      assert Named([]) == [];
    }
  }

  lemma {:induction false} AllActionsName(reader: Reader, inbounds: seq<Inbound>, tag: string)
    requires RenderInbounds(reader, inbounds).Ok?
    ensures var rendered := RenderInbounds(reader, inbounds).value;
            HasTag(AllNamed(rendered), tag) <==> AnyActionSendsTo(rendered, tag)
  {
    if inbounds != [] {
      hide RenderRoutes, HasTag, SomeActionSendsTo, Named;
      var first := RenderRoutes(reader, inbounds[0], inbounds[0].routes).value;
      var rest := RenderInbounds(reader, inbounds[1..]).value;
      AllActionsName(reader, inbounds[1..], tag);
      ActionsName(reader, inbounds[0], inbounds[0].routes, tag);
      var all := [first] + rest;
      assert all[1..] == rest;
      HasTagConcat(Named(first), AllNamed(rest), tag);
      assert forall i :: 0 <= i < |rest| ==> all[i + 1] == rest[i];
      assert forall i :: 1 <= i < |all| ==> all[i] == rest[i - 1];
    }
  }

  /**
   * In every rendered config the outbound tags are distinct, a tag is there exactly when it is "direct" or some
   * rendered action sends to it, and it stands for the first outbound that came with it, the built-in one first.
   */
  lemma OutboundsCloseTheRoutes(reader: Reader, addresses: seq<string>, inbounds: seq<Inbound>, tag: string)
    requires RenderConfig(reader, addresses, inbounds).Ok?
    ensures var config := RenderConfig(reader, addresses, inbounds).value;
            && DistinctTags(config.outbounds)
            && (HasTag(config.outbounds, tag) <==> tag == DIRECT.tag || AnyActionSendsTo(config.inbounds, tag))
            && FirstTagged(config.outbounds, tag) == FirstTagged([DIRECT] + AllNamed(config.inbounds), tag)
  {
    AllActionsName(reader, inbounds, tag);
    hide AnyActionSendsTo, AllServers, BaseServers;
    var config := RenderConfig(reader, addresses, inbounds).value;
    ValidWhenCollected(reader, inbounds, [DIRECT]);
    CollectsWhatInboundsRender(reader, inbounds, [DIRECT]);
    PushAllIsDistinct([DIRECT], AllNamed(config.inbounds));
    PushAllKeepsFirst([DIRECT], AllNamed(config.inbounds), tag);
    HasTagIsFirstTagged(config.outbounds, tag);
    HasTagIsFirstTagged(AllNamed(config.inbounds), tag);
    hide HasTag, AllNamed, PushAll, CollectAll, RenderInbounds;
    assert ([DIRECT] + AllNamed(config.inbounds))[1..] == AllNamed(config.inbounds);
  }

  lemma {:induction false} RouteServersAreExact(reader: Reader, inbound: Inbound, routes: seq<Route>)
    ensures RouteServers(reader, inbound, routes).Ok?
            <==> forall j :: 0 <= j < |routes| ==> ServerOf(reader, inbound, routes[j]).Ok?
    ensures RouteServers(reader, inbound, routes).Ok? ==>
              forall server :: server in RouteServers(reader, inbound, routes).value <==>
                exists j :: 0 <= j < |routes| && ServerOf(reader, inbound, routes[j]) == Ok(Some(server))
  {
    hide ServerOf;
    if routes != [] {
      RouteServersAreExact(reader, inbound, routes[1..]);
      assert forall j :: 0 <= j < |routes[1..]| ==> routes[1..][j] == routes[j + 1];
      assert forall j :: 1 <= j < |routes| ==> routes[j] == routes[1..][j - 1];
    }
  }

  /** Some dns route of an inbound adds the server. */
  predicate AddsServer(reader: Reader, inbound: Inbound, server: DnsServer) {
    exists j :: 0 <= j < |inbound.routes| && ServerOf(reader, inbound, inbound.routes[j]) == Ok(Some(server))
  }

  predicate ServersRender(reader: Reader, inbound: Inbound) {
    forall j :: 0 <= j < |inbound.routes| ==> ServerOf(reader, inbound, inbound.routes[j]).Ok?
  }

  /** The servers added are exactly those of the dns routes, and adding fails exactly when one of those fails. */
  lemma {:induction false} ServersAreExact(reader: Reader, inbounds: seq<Inbound>)
    ensures AllServers(reader, inbounds).Ok? <==> forall i :: 0 <= i < |inbounds| ==> ServersRender(reader, inbounds[i])
    ensures AllServers(reader, inbounds).Ok? ==>
              forall server :: server in AllServers(reader, inbounds).value <==>
                exists i :: 0 <= i < |inbounds| && AddsServer(reader, inbounds[i], server)
  {
    hide RouteServers;
    if inbounds != [] {
      RouteServersAreExact(reader, inbounds[0], inbounds[0].routes);
      ServersAreExact(reader, inbounds[1..]);
      hide AddsServer, ServersRender;
      assert forall i :: 0 <= i < |inbounds[1..]| ==> inbounds[1..][i] == inbounds[i + 1];
      assert forall i :: 1 <= i < |inbounds| ==> inbounds[i] == inbounds[1..][i - 1];
    }
  }

  /** A config renders exactly when every inbound is valid, every dns route has its domains and every route renders. */
  lemma RendersExactly(reader: Reader, addresses: seq<string>, inbounds: seq<Inbound>)
    ensures RenderConfig(reader, addresses, inbounds).Ok?
            <==> RenderInbounds(reader, inbounds).Ok? &&
                 forall i :: 0 <= i < |inbounds| ==>
                   reader.validate(inbounds[i]).None? && ServersRender(reader, inbounds[i])
  {
    ServersAreExact(reader, inbounds);
    hide AllServers, ServersRender, AddsServer, BaseServers;
    if RenderConfig(reader, addresses, inbounds).Ok? {
      ValidWhenCollected(reader, inbounds, [DIRECT]);
    } else if RenderInbounds(reader, inbounds).Ok? && AllServers(reader, inbounds).Ok? {
      if forall i :: 0 <= i < |inbounds| ==> reader.validate(inbounds[i]).None? {
        CollectsWhatInboundsRender(reader, inbounds, [DIRECT]);
        assert false;
      }
    }
  }

  /** The route sends its traffic to the outbound with this tag; a blackhole route sends it nowhere. */
  predicate SendsTo(reader: Reader, inbound: Inbound, route: Route, tag: string) {
    && !PassedOver(route) && NamesOutbound(route.action) && !reader.isBlackhole(route)
    && var named := reader.outboundOf(inbound, route);
    && named.Ok? && named.value.Some? && named.value.value.tag == tag
  }

  predicate SomeRouteSendsTo(reader: Reader, inbound: Inbound, routes: seq<Route>, tag: string) {
    exists j :: 0 <= j < |routes| && SendsTo(reader, inbound, routes[j], tag)
  }

  predicate SomeInboundSendsTo(reader: Reader, inbounds: seq<Inbound>, tag: string) {
    exists i :: 0 <= i < |inbounds| && SomeRouteSendsTo(reader, inbounds[i], inbounds[i].routes, tag)
  }

  lemma HasTagConcat(a: seq<Outbound>, b: seq<Outbound>, tag: string)
    ensures HasTag(a + b, tag) <==> HasTag(a, tag) || HasTag(b, tag)
  {
    HasTagIsFirstTagged(a, tag);
    HasTagIsFirstTagged(b, tag);
    HasTagIsFirstTagged(a + b, tag);
    FirstTaggedConcat(a, b, tag);
  }

  lemma RouteNames(reader: Reader, inbound: Inbound, route: Route, tag: string)
    requires RenderRoute(reader, inbound, route).Ok?
    ensures HasTag(Named(ListOf(RenderRoute(reader, inbound, route).value)), tag)
            <==> SendsTo(reader, inbound, route, tag)
  {
    var one := ListOf(RenderRoute(reader, inbound, route).value);
    assert one != [] ==> one[1..] == [];
    HasTagIsFirstTagged(Named(one), tag);
    hide HasTag;
  }

  lemma {:induction false} RoutesName(reader: Reader, inbound: Inbound, routes: seq<Route>, tag: string)
    requires RenderRoutes(reader, inbound, routes).Ok?
    ensures HasTag(Named(RenderRoutes(reader, inbound, routes).value), tag)
            <==> SomeRouteSendsTo(reader, inbound, routes, tag)
  {
    if routes != [] {
      var one := RenderRoute(reader, inbound, routes[0]).value;
      var rest := RenderRoutes(reader, inbound, routes[1..]).value;
      hide RenderRoute, SendsTo, HasTag;
      RouteNames(reader, inbound, routes[0], tag);
      RoutesName(reader, inbound, routes[1..], tag);
      NamedCons(one, rest);
      HasTagConcat(Named(ListOf(one)), Named(rest), tag);
      assert forall j :: 0 <= j < |routes[1..]| ==> routes[1..][j] == routes[j + 1];
      assert forall j :: 1 <= j < |routes| ==> routes[j] == routes[1..][j - 1];
    }
  }

  /** The tags named by a rendered config are those some route sends to. */
  lemma {:induction false} InboundsName(reader: Reader, inbounds: seq<Inbound>, tag: string)
    requires RenderInbounds(reader, inbounds).Ok?
    ensures HasTag(AllNamed(RenderInbounds(reader, inbounds).value), tag)
            <==> SomeInboundSendsTo(reader, inbounds, tag)
  {
    if inbounds != [] {
      var first := RenderRoutes(reader, inbounds[0], inbounds[0].routes).value;
      var rest := RenderInbounds(reader, inbounds[1..]).value;
      hide RenderRoutes, SomeRouteSendsTo, HasTag;
      RoutesName(reader, inbounds[0], inbounds[0].routes, tag);
      InboundsName(reader, inbounds[1..], tag);
      assert ([first] + rest)[1..] == rest;
      HasTagConcat(Named(first), AllNamed(rest), tag);
      assert forall i :: 0 <= i < |inbounds[1..]| ==> inbounds[1..][i] == inbounds[i + 1];
      assert forall i :: 1 <= i < |inbounds| ==> inbounds[i] == inbounds[1..][i - 1];
    }
  }
}
