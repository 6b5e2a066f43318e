// The port-forward planner: which external ports go to which node, and the rules that say so.
module PortPlanner {
  import opened Sequences
  import opened Results
  import opened Text
  import opened PortText

  const HYSTERIA_COMMENT := "V2NODE-HY2"
  const MIERU_COMMENT := "V2NODE-MIERU"

  datatype Protocol = Hysteria2 | Mieru | OtherProtocol

  datatype NodeInfo = NodeInfo(
    id: nat, protocol: Protocol, serverPort: Port, port: string, ports: string, transport: string)

  datatype Rule = Rule(matcher: Matcher, target: Port, protocol: string, comment: string)

  datatype AllowRule = AllowRule(protocol: string, port: Port, comment: string)

  datatype Allocation = Allocation(nodeId: nat, target: Port, protocol: string, range: PortRange)

  datatype PlanError =
    | InvalidServerPort(id: nat)
    | InvalidTransport(id: nat, transport: string)
    | BadPortText(id: nat, text: string, error: PortError)
    | FullyCovered(id: nat, text: string)

  // The two node families that use port forwarding. Their builders differ only in what is below.
  datatype Family = HysteriaFamily | MieruFamily {
    function NodeProtocol(): Protocol {
      if HysteriaFamily? then Hysteria2 else Mieru
    }

    function Comment(): string {
      if HysteriaFamily? then HYSTERIA_COMMENT else MIERU_COMMENT
    }

    /** The packet protocol a node listens on: always udp for HY2, the transport field for Mieru. */
    function Transport(info: NodeInfo): (r: Result<string, string>)
      ensures r.Ok? ==> r.value == "udp" || (MieruFamily? && r.value == "tcp")
    {
      if HysteriaFamily? then Ok("udp") else MieruTransport(info.transport)
    }

    /** HY2 prefers the `port` field, Mieru the `ports` field. */
    function ExternalPort(info: NodeInfo): string {
      var (first, second) := if HysteriaFamily? then (info.port, info.ports) else (info.ports, info.port);
      if Trim(first) == "" then Trim(second) else Trim(first)
    }

    /** Duplicate detection compares these texts. */
    function RuleKey(protocol: string, target: Port, matcher: Matcher): string {
      var key := Decimal(target) + "|" + Join(matcher.args, '\0');
      if HysteriaFamily? then key else protocol + "|" + key
    }
  }

  function ToUpperAscii(s: string): (r: string)
    ensures |r| == |s|
  {
    seq(|s|, i requires 0 <= i < |s| => if 'a' <= s[i] <= 'z' then (s[i] as int - 32) as char else s[i])
  }

  function MieruTransport(raw: string): (r: Result<string, string>)
    ensures r.Ok? ==> r.value == "udp" || r.value == "tcp"
  {
    var value := ToUpperAscii(Trim(raw));
    if value == "" || value == "TCP" then Ok("tcp")
    else if value == "UDP" then Ok("udp")
    else Err(value)
  }

  // ----- Target ports -----

  /** The node belongs to the family and listens for this packet protocol. */
  predicate Serves(family: Family, protocol: string, info: NodeInfo) {
    info.protocol == family.NodeProtocol() && info.serverPort > 0 && family.Transport(info) == Ok(protocol)
  }

  function TargetPorts(family: Family, protocol: string, infos: seq<NodeInfo>): set<Port> {
    set info | info in infos && Serves(family, protocol, info) :: info.serverPort
  }

  /** The ports of a set from `lo` upwards, in ascending order, as an ordered map lists its keys. */
  function AscendingFrom(lo: nat, ports: set<Port>): (r: seq<Port>)
    requires lo <= 0x1_0000
    ensures forall p :: p in r <==> p in ports && lo <= p
    ensures forall i, j :: 0 <= i < j < |r| ==> r[i] < r[j]
    decreases 0x1_0000 - lo
  {
    if lo == 0x1_0000 then []
    else if lo in ports then
      var rest := AscendingFrom(lo + 1, ports);
      assert forall j :: 0 <= j < |rest| ==> rest[j] in rest;
      [lo] + rest
    else AscendingFrom(lo + 1, ports)
  }

  function Ascending(ports: set<Port>): (r: seq<Port>)
    ensures forall p :: p in r <==> p in ports
  {
    AscendingFrom(0, ports)
  }

  // ----- Trimming -----

  function TrimTargets(ranges: seq<PortRange>, own: Port, ports: seq<Port>): seq<PortRange> {
    if ports == [] then ranges
    else
      var port := ports[|ports| - 1];
      var trimmed := TrimTargets(ranges, own, ports[..|ports| - 1]);
      if port == own then trimmed else Subtract(trimmed, PortRange(port, port))
  }

  method TrimTargetPortConflicts(ranges: seq<PortRange>, own: Port, ports: seq<Port>) returns (out: seq<PortRange>)
    ensures out == TrimTargets(ranges, own, ports)
  {
    out := ranges;
    for i := 0 to |ports|
      invariant out == TrimTargets(ranges, own, ports[..i])
    {
      assert ports[..i + 1][..i] == ports[..i];
      if ports[i] != own {
        out := SubtractRange(out, PortRange(ports[i], ports[i]));
      }
    }
    assert ports[..|ports|] == ports;
  }

  lemma {:induction false} TrimTargetsIsExact(ranges: seq<PortRange>, own: Port, ports: seq<Port>)
    requires Proper(ranges)
    ensures Proper(TrimTargets(ranges, own, ports))
    ensures forall p: Port :: Covers(TrimTargets(ranges, own, ports), p)
                              <==> Covers(ranges, p) && (p == own || p !in ports)
  {
    if ports != [] {
      var init, port := ports[..|ports| - 1], ports[|ports| - 1];
      TrimTargetsIsExact(ranges, own, init);
      assert ports == init + [port];
      if port != own {
        SubtractIsExact(TrimTargets(ranges, own, init), PortRange(port, port));
      }
    }
  }

  predicate Blocks(a: Allocation, own: Port, protocol: string) {
    a.target != own && a.protocol == protocol
  }

  function TrimAllocated(ranges: seq<PortRange>, own: Port, protocol: string, held: seq<Allocation>)
    : seq<PortRange>
  {
    if held == [] then ranges
    else
      var a := held[|held| - 1];
      var trimmed := TrimAllocated(ranges, own, protocol, held[..|held| - 1]);
      if Blocks(a, own, protocol) then Subtract(trimmed, a.range) else trimmed
  }

  method TrimAllocatedRangeConflicts(
      ranges: seq<PortRange>, own: Port, protocol: string, held: seq<Allocation>)
    returns (out: seq<PortRange>)
    ensures out == TrimAllocated(ranges, own, protocol, held)
  {
    out := ranges;
    for i := 0 to |held|
      invariant out == TrimAllocated(ranges, own, protocol, held[..i])
    {
      assert held[..i + 1][..i] == held[..i];
      if held[i].target == own || held[i].protocol != protocol {
        continue;
      }
      out := SubtractRange(out, held[i].range);
    }
    assert held[..|held|] == held;
  }

  predicate AllocatedTo(held: seq<Allocation>, protocol: string, p: Port, t: Port) {
    exists a :: a in held && a.protocol == protocol && a.target == t && a.range.Has(p)
  }

  predicate ProperAllocations(held: seq<Allocation>) {
    forall a :: a in held ==> a.range.Valid()
  }

  /** Some allocation to a different target holds the port. */
  predicate Taken(held: seq<Allocation>, own: Port, protocol: string, p: Port) {
    exists a :: a in held && Blocks(a, own, protocol) && a.range.Has(p)
  }

  lemma {:induction false} TrimAllocatedIsExact(
      ranges: seq<PortRange>, own: Port, protocol: string, held: seq<Allocation>)
    requires Proper(ranges) && ProperAllocations(held)
    ensures Proper(TrimAllocated(ranges, own, protocol, held))
    ensures forall p: Port :: Covers(TrimAllocated(ranges, own, protocol, held), p)
                              <==> Covers(ranges, p) && !Taken(held, own, protocol, p)
  {
    if held != [] {
      var init, a := held[..|held| - 1], held[|held| - 1];
      TrimAllocatedIsExact(ranges, own, protocol, init);
      assert held == init + [a];
      if Blocks(a, own, protocol) {
        SubtractIsExact(TrimAllocated(ranges, own, protocol, init), a.range);
      }
      forall p: Port
        ensures Taken(held, own, protocol, p)
            <==> Taken(init, own, protocol, p) || (Blocks(a, own, protocol) && a.range.Has(p))
      {
      }
    }
  }

  // ----- One node's claim -----

  datatype Claim = Skipped | Rejected(error: PlanError) | Claimed(protocol: string, ranges: seq<PortRange>)

  function NodeClaim(family: Family, info: NodeInfo): Claim {
    var external := family.ExternalPort(info);
    if info.protocol != family.NodeProtocol() then Skipped
    else if info.serverPort == 0 then Rejected(InvalidServerPort(info.id))
    else if external == "" then Skipped
    else
      match family.Transport(info)
      case Err(transport) => Rejected(InvalidTransport(info.id, transport))
      case Ok(protocol) =>
        match CompilePorts(external, info.serverPort)
        case Err(error) => Rejected(BadPortText(info.id, external, error))
        case Ok((_, ranges)) => if ranges == [] then Skipped else Claimed(protocol, ranges)
  }

  /** The node asks for the port: its external port text names it. */
  predicate Claims(family: Family, protocol: string, info: NodeInfo, p: Port) {
    && Serves(family, protocol, info)
    && NamedPorts(family.ExternalPort(info)).Ok?
    && Covers(NamedPorts(family.ExternalPort(info)).value, p)
  }

  lemma NodeClaimIsExact(family: Family, info: NodeInfo, protocol: string)
    ensures NodeClaim(family, info).Claimed? ==>
              Serves(family, NodeClaim(family, info).protocol, info) && Proper(NodeClaim(family, info).ranges)
    ensures forall p: Port :: p != info.serverPort ==>
              (Claims(family, protocol, info, p) <==>
               var c := NodeClaim(family, info); c.Claimed? && c.protocol == protocol && Covers(c.ranges, p))
    ensures NodeClaim(family, info).Claimed? ==> !Covers(NodeClaim(family, info).ranges, info.serverPort)
  {
    CompileIsFaithful(family.ExternalPort(info), info.serverPort);
    if family.ExternalPort(info) == "" {
      assert Without("", ' ') == "";
    }
  }

  // ----- Building rules -----

  datatype Plan = Plan(rules: seq<Rule>, errors: seq<PlanError>, seen: set<string>, held: seq<Allocation>)

  const EMPTY_PLAN := Plan([], [], {}, [])

  function Allocations(id: nat, target: Port, protocol: string, ranges: seq<PortRange>): (r: seq<Allocation>)
    ensures |r| == |ranges|
    ensures forall i :: 0 <= i < |ranges| ==> r[i] == Allocation(id, target, protocol, ranges[i])
  {
    seq(|ranges|, i requires 0 <= i < |ranges| => Allocation(id, target, protocol, ranges[i]))
  }

  /** Appends a rule for the matcher unless its key has been seen. */
  function AddMatcher(family: Family, protocol: string, target: Port, plan: Plan, m: Matcher): Plan {
    var key := family.RuleKey(protocol, target, m);
    if key in plan.seen then plan
    else plan.(rules := plan.rules + [Rule(m, target, protocol, family.Comment())], seen := plan.seen + {key})
  }

  function AddMatchers(family: Family, protocol: string, target: Port, plan: Plan, matchers: seq<Matcher>): Plan {
    if matchers == [] then plan
    else
      AddMatcher(family, protocol, target,
                 AddMatchers(family, protocol, target, plan, matchers[..|matchers| - 1]), matchers[|matchers| - 1])
  }

  /** What a claiming node still gets once target ports and earlier allocations are taken out. */
  function Remaining(family: Family, infos: seq<NodeInfo>, held: seq<Allocation>, own: Port, claim: Claim)
    : seq<PortRange>
    requires claim.Claimed?
  {
    var targets := Ascending(TargetPorts(family, claim.protocol, infos));
    TrimAllocated(TrimTargets(claim.ranges, own, targets), own, claim.protocol, held)
  }

  function AddNode(family: Family, infos: seq<NodeInfo>, plan: Plan, info: NodeInfo): Plan {
    match NodeClaim(family, info)
    case Skipped => plan
    case Rejected(error) => plan.(errors := plan.errors + [error])
    case Claimed(protocol, ranges) =>
      var rest := Remaining(family, infos, plan.held, info.serverPort, Claimed(protocol, ranges));
      if rest == [] then plan.(errors := plan.errors + [FullyCovered(info.id, family.ExternalPort(info))])
      else
        AddMatchers(family, protocol, info.serverPort,
                    plan.(held := plan.held + Allocations(info.id, info.serverPort, protocol, rest)),
                    Pack(rest))
  }

  function PlanUpTo(family: Family, infos: seq<NodeInfo>, k: nat): Plan
    requires k <= |infos|
  {
    if k == 0 then EMPTY_PLAN else AddNode(family, infos, PlanUpTo(family, infos, k - 1), infos[k - 1])
  }

  function PlanFor(family: Family, infos: seq<NodeInfo>): Plan {
    PlanUpTo(family, infos, |infos|)
  }

  method AppendRules(family: Family, protocol: string, target: Port, plan: Plan, matchers: seq<Matcher>)
    returns (rules: seq<Rule>, seen: set<string>)
    ensures plan.(rules := rules, seen := seen) == AddMatchers(family, protocol, target, plan, matchers)
  {
    hide Family.RuleKey;
    rules, seen := plan.rules, plan.seen;
    for i := 0 to |matchers|
      invariant plan.(rules := rules, seen := seen) == AddMatchers(family, protocol, target, plan, matchers[..i])
    {
      assert matchers[..i + 1][..i] == matchers[..i];
      var key := family.RuleKey(protocol, target, matchers[i]);
      if key in seen {
        continue;
      }
      seen := seen + {key};
      rules := rules + [Rule(matchers[i], target, protocol, family.Comment())];
    }
    assert matchers[..|matchers|] == matchers;
  }

  /** Builds the forwarding rules of one family from the node list, in node order. */
  method BuildRules(family: Family, infos: seq<NodeInfo>) returns (rules: seq<Rule>, errors: seq<PlanError>)
    ensures rules == PlanFor(family, infos).rules
    ensures errors == PlanFor(family, infos).errors
  {
    hide CompilePorts, Family.ExternalPort, Family.Transport, Pack, TrimTargets, TrimAllocated, AddMatchers, Ascending;
    rules, errors := [], [];
    var seen: set<string> := {};
    var held: seq<Allocation> := [];
    for k := 0 to |infos|
      invariant Plan(rules, errors, seen, held) == PlanUpTo(family, infos, k)
    {
      var info := infos[k];
      if info.protocol != family.NodeProtocol() {
        continue;
      }
      var target := info.serverPort;
      if target == 0 {
        errors := errors + [InvalidServerPort(info.id)];
        continue;
      }
      var external := family.ExternalPort(info);
      if external == "" {
        continue;
      }
      var transport := family.Transport(info);
      if transport.Err? {
        errors := errors + [InvalidTransport(info.id, transport.error)];
        continue;
      }
      var protocol := transport.value;
      var compiled := ParseMatchersAndRanges(external, target);
      if compiled.Err? {
        errors := errors + [BadPortText(info.id, external, compiled.error)];
        continue;
      }
      var ranges := compiled.value.1;
      if ranges == [] {
        continue;
      }
      var targets := Ascending(TargetPorts(family, protocol, infos));
      ranges := TrimTargetPortConflicts(ranges, target, targets);
      ranges := TrimAllocatedRangeConflicts(ranges, target, protocol, held);
      if ranges == [] {
        errors := errors + [FullyCovered(info.id, external)];
        continue;
      }
      var matchers := MatchersFromRanges(ranges);
      held := held + Allocations(info.id, target, protocol, ranges);
      rules, seen := AppendRules(family, protocol, target, Plan(rules, errors, seen, held), matchers);
    }
  }

  // ----- The allocation law -----

  /** The server port of the first of the first `k` nodes that asks for the port. */
  function FirstClaimer(family: Family, protocol: string, infos: seq<NodeInfo>, k: nat, p: Port): Option<Port>
    requires k <= |infos|
  {
    if k == 0 then None
    else
      var earlier := FirstClaimer(family, protocol, infos, k - 1, p);
      if earlier.Some? then earlier
      else if Claims(family, protocol, infos[k - 1], p) then Some(infos[k - 1].serverPort)
      else None
  }

  /** Where the plan should send a port: nowhere if a node listens on it, else to its first claimer. */
  function PlannedTarget(family: Family, infos: seq<NodeInfo>, protocol: string, p: Port): Option<Port> {
    if p in TargetPorts(family, protocol, infos) then None else FirstClaimer(family, protocol, infos, |infos|, p)
  }

  predicate RuledTo(rules: seq<Rule>, protocol: string, p: Port, t: Port) {
    exists r :: r in rules && r.protocol == protocol && r.target == t && Covers(Spans(r.matcher), p)
  }

  /** Rules the builders produce: a known protocol, the family's comment, a tight matcher of plain words. */
  predicate WellBuilt(family: Family, r: Rule) {
    && (r.protocol == "udp" || (family.MieruFamily? && r.protocol == "tcp"))
    && r.comment == family.Comment()
    && r.target > 0
    && Tight(r.matcher)
    && PlainArgs(r.matcher)
  }

  predicate AllWellBuilt(family: Family, rules: seq<Rule>) {
    forall r :: r in rules ==> WellBuilt(family, r)
  }

  function KeyOf(family: Family, r: Rule): string {
    family.RuleKey(r.protocol, r.target, r.matcher)
  }

  predicate SeenMatchesRules(family: Family, plan: Plan) {
    forall key :: key in plan.seen ==> exists r :: r in plan.rules && KeyOf(family, r) == key
  }

  lemma PlainHasNoNul(args: seq<string>)
    requires AllPlain(args)
    ensures forall i :: 0 <= i < |args| ==> '\0' !in args[i]
  {
  }

  /** Two rules with the same key forward the same ports to the same place. */
  lemma RuleKeyIsInjective(family: Family, r: Rule, s: Rule)
    requires WellBuilt(family, r) && WellBuilt(family, s)
    requires KeyOf(family, r) == KeyOf(family, s)
    ensures r.protocol == s.protocol && r.target == s.target && r.matcher.args == s.matcher.args
  {
    var rest, rest' := Join(r.matcher.args, '\0'), Join(s.matcher.args, '\0');
    var key, key' := Decimal(r.target) + ['|'] + rest, Decimal(s.target) + ['|'] + rest';
    if family.MieruFamily? {
      assert KeyOf(family, r) == r.protocol + ['|'] + key;
      assert KeyOf(family, s) == s.protocol + ['|'] + key';
      CutAtFirst(r.protocol, key, s.protocol, key', '|');
    }
    assert key == key';
    DecimalHasNo(r.target, '|');
    DecimalHasNo(s.target, '|');
    CutAtFirst(Decimal(r.target), rest, Decimal(s.target), rest', '|');
    DecimalInjective(r.target, s.target);
    PlainHasNoNul(r.matcher.args);
    PlainHasNoNul(s.matcher.args);
    SplitJoin(r.matcher.args, '\0');
    SplitJoin(s.matcher.args, '\0');
  }

  predicate Sound(family: Family, plan: Plan) {
    AllWellBuilt(family, plan.rules) && SeenMatchesRules(family, plan)
  }

  /** The rules gained send exactly the ports of `ranges` to the target, and nothing else changed. */
  ghost predicate GainsRules(before: Plan, after: Plan, protocol: string, target: Port, ranges: seq<PortRange>) {
    forall q, p: Port, t: Port :: RuledTo(after.rules, q, p, t) <==>
      RuledTo(before.rules, q, p, t) || (q == protocol && t == target && Covers(ranges, p))
  }

  ghost predicate Gains(before: Plan, after: Plan, protocol: string, target: Port, ranges: seq<PortRange>) {
    after.errors == before.errors && after.held == before.held && GainsRules(before, after, protocol, target, ranges)
  }

  lemma GainsCompose(a: Plan, b: Plan, c: Plan, protocol: string, target: Port, r: seq<PortRange>, s: seq<PortRange>)
    requires Gains(a, b, protocol, target, r) && Gains(b, c, protocol, target, s)
    ensures Gains(a, c, protocol, target, r + s)
  {
    forall p: Port ensures Covers(r + s, p) <==> Covers(r, p) || Covers(s, p) {
      CoversConcat(r, s, p);
    }
  }

  /** Dropping a matcher whose key was seen loses no port. */
  lemma {:induction false} AddMatchersIsExact(
      family: Family, protocol: string, target: Port, plan: Plan, matchers: seq<Matcher>)
    requires Sound(family, plan)
    requires forall m :: m in matchers ==> WellBuilt(family, Rule(m, target, protocol, family.Comment()))
    ensures Sound(family, AddMatchers(family, protocol, target, plan, matchers))
    ensures Gains(plan, AddMatchers(family, protocol, target, plan, matchers), protocol, target, AllSpans(matchers))
  {
    if matchers != [] {
      var init, m := matchers[..|matchers| - 1], matchers[|matchers| - 1];
      assert matchers == init + [m];
      AddMatchersIsExact(family, protocol, target, plan, init);
      var before := AddMatchers(family, protocol, target, plan, init);
      AddMatcherIsExact(family, protocol, target, before, m);
      GainsCompose(plan, before, AddMatcher(family, protocol, target, before, m), protocol, target,
                   AllSpans(init), Spans(m));
    }
  }

  lemma SoundOneMore(family: Family, plan: Plan, rule: Rule)
    requires Sound(family, plan) && WellBuilt(family, rule)
    ensures Sound(family, plan.(rules := plan.rules + [rule], seen := plan.seen + {KeyOf(family, rule)}))
  {
    hide WellBuilt, Family.RuleKey;
    var after := plan.(rules := plan.rules + [rule], seen := plan.seen + {KeyOf(family, rule)});
    SnocMembers(plan.rules, rule);
    forall key | key in after.seen
      ensures exists r :: r in after.rules && KeyOf(family, r) == key
    {
      if key in plan.seen {
        var r :| r in plan.rules && KeyOf(family, r) == key;
        assert r in after.rules;
      } else {
        assert rule in after.rules && KeyOf(family, rule) == key;
      }
    }
  }

  lemma RuledOneMore(rules: seq<Rule>, rule: Rule, q: string, p: Port, t: Port)
    ensures RuledTo(rules + [rule], q, p, t) <==>
            RuledTo(rules, q, p, t) || (q == rule.protocol && t == rule.target && Covers(Spans(rule.matcher), p))
  {
    hide Covers, Spans;
    SnocMembers(rules, rule);
  }

  /** A rule whose key was seen adds nothing: a rule with the same ports and target is there. */
  lemma SeenGains(family: Family, plan: Plan, rule: Rule)
    requires Sound(family, plan) && WellBuilt(family, rule) && KeyOf(family, rule) in plan.seen
    ensures Gains(plan, plan, rule.protocol, rule.target, Spans(rule.matcher))
  {
    hide WellBuilt, Family.RuleKey, Covers;
    var r :| r in plan.rules && KeyOf(family, r) == KeyOf(family, rule);
    RuleKeyIsInjective(family, r, rule);
    assert Spans(r.matcher) == Spans(rule.matcher);
    hide Spans;
    forall q, p: Port, t: Port
      ensures q == rule.protocol && t == rule.target && Covers(Spans(rule.matcher), p) ==> RuledTo(plan.rules, q, p, t)
    {
    }
  }

  lemma AddMatcherIsExact(family: Family, protocol: string, target: Port, plan: Plan, m: Matcher)
    requires Sound(family, plan)
    requires WellBuilt(family, Rule(m, target, protocol, family.Comment()))
    ensures Sound(family, AddMatcher(family, protocol, target, plan, m))
    ensures Gains(plan, AddMatcher(family, protocol, target, plan, m), protocol, target, Spans(m))
  {
    hide WellBuilt, Family.RuleKey, Covers, Spans, Sound, RuledTo;
    var rule := Rule(m, target, protocol, family.Comment());
    if KeyOf(family, rule) in plan.seen {
      SeenGains(family, plan, rule);
    } else {
      SoundOneMore(family, plan, rule);
      forall q, p: Port, t: Port
        ensures RuledTo(plan.rules + [rule], q, p, t) <==>
                RuledTo(plan.rules, q, p, t) || (q == protocol && t == target && Covers(Spans(m), p))
      {
        RuledOneMore(plan.rules, rule, q, p, t);
      }
    }
  }

  /** After `k` nodes, the allocations and the rules both send each port to its first claimer. */
  ghost predicate Faithful(family: Family, infos: seq<NodeInfo>, k: nat, plan: Plan)
    requires k <= |infos|
  {
    && Sound(family, plan)
    && ProperAllocations(plan.held)
    && (forall q, p: Port, t: Port :: AllocatedTo(plan.held, q, p, t) <==>
          p !in TargetPorts(family, q, infos) && FirstClaimer(family, q, infos, k, p) == Some(t))
    && (forall q, p: Port, t: Port :: RuledTo(plan.rules, q, p, t) <==> AllocatedTo(plan.held, q, p, t))
  }

  /** What remains of a claim is what nobody else holds and no node of the family listens on. */
  lemma RemainingIsExact(family: Family, infos: seq<NodeInfo>, k: nat, plan: Plan)
    requires k < |infos| && Faithful(family, infos, k, plan) && NodeClaim(family, infos[k]).Claimed?
    ensures var claim, own := NodeClaim(family, infos[k]), infos[k].serverPort;
            var rest := Remaining(family, infos, plan.held, own, claim);
            && Proper(rest)
            && forall p: Port :: Covers(rest, p) <==>
                 && Claims(family, claim.protocol, infos[k], p)
                 && p !in TargetPorts(family, claim.protocol, infos)
                 && FirstClaimer(family, claim.protocol, infos, k + 1, p) == Some(own)
  {
    var claim, own := NodeClaim(family, infos[k]), infos[k].serverPort;
    var ports := TargetPorts(family, claim.protocol, infos);
    var targets := Ascending(ports);
    NodeClaimIsExact(family, infos[k], claim.protocol);
    assert own in ports;
    TrimTargetsIsExact(claim.ranges, own, targets);
    TrimAllocatedIsExact(TrimTargets(claim.ranges, own, targets), own, claim.protocol, plan.held);
    hide CompilePorts, Covers, NodeClaim, Claims;
    forall p: Port
      ensures Taken(plan.held, own, claim.protocol, p) <==>
              && p !in ports
              && FirstClaimer(family, claim.protocol, infos, k, p).Some?
              && FirstClaimer(family, claim.protocol, infos, k, p) != Some(own)
    {
      TakenMeansClaimed(family, infos, k, plan, claim.protocol, own, p);
    }
  }

  lemma TakenMeansClaimed(
      family: Family, infos: seq<NodeInfo>, k: nat, plan: Plan, protocol: string, own: Port, p: Port)
    requires k < |infos| && Faithful(family, infos, k, plan)
    ensures Taken(plan.held, own, protocol, p) <==>
              && p !in TargetPorts(family, protocol, infos)
              && FirstClaimer(family, protocol, infos, k, p).Some?
              && FirstClaimer(family, protocol, infos, k, p) != Some(own)
  {
    if Taken(plan.held, own, protocol, p) {
      var a :| a in plan.held && Blocks(a, own, protocol) && a.range.Has(p);
      assert AllocatedTo(plan.held, protocol, p, a.target);
    }
    if FirstClaimer(family, protocol, infos, k, p).Some? {
      var t := FirstClaimer(family, protocol, infos, k, p).value;
      assert AllocatedTo(plan.held, protocol, p, t) <==> p !in TargetPorts(family, protocol, infos);
    }
  }

  lemma AllocationsAreExact(held: seq<Allocation>, id: nat, own: Port, protocol: string, ranges: seq<PortRange>)
    requires ProperAllocations(held) && Proper(ranges)
    ensures ProperAllocations(held + Allocations(id, own, protocol, ranges))
    ensures forall q, p: Port, t: Port :: AllocatedTo(held + Allocations(id, own, protocol, ranges), q, p, t) <==>
              AllocatedTo(held, q, p, t) || (q == protocol && t == own && Covers(ranges, p))
  {
    var added := Allocations(id, own, protocol, ranges);
    var after := held + added;
    forall a | a in after ensures a.range.Valid() {
      if a in added {
        assert a.range in ranges;
      }
    }
    forall q, p: Port, t: Port
      ensures AllocatedTo(after, q, p, t) <==>
              AllocatedTo(held, q, p, t) || (q == protocol && t == own && Covers(ranges, p))
    {
      if AllocatedTo(after, q, p, t) {
        var a :| a in after && a.protocol == q && a.target == t && a.range.Has(p);
        if a in added {
          assert a.range in ranges;
        }
      }
      if AllocatedTo(held, q, p, t) {
        var a :| a in held && a.protocol == q && a.target == t && a.range.Has(p);
        assert a in after;
      }
      if Covers(ranges, p) {
        var r :| r in ranges && r.Has(p);
        var i :| 0 <= i < |ranges| && ranges[i] == r;
        assert added[i] in after;
      }
    }
  }

  /** A node without a usable claim asks for no port that is free of listeners. */
  lemma NoClaimNoChange(family: Family, infos: seq<NodeInfo>, k: nat, q: string, p: Port)
    requires k < |infos| && p !in TargetPorts(family, q, infos)
    requires var c := NodeClaim(family, infos[k]); !(c.Claimed? && c.protocol == q)
    ensures FirstClaimer(family, q, infos, k + 1, p) == FirstClaimer(family, q, infos, k, p)
  {
    NodeClaimIsExact(family, infos[k], q);
    if Serves(family, q, infos[k]) {
      assert infos[k].serverPort in TargetPorts(family, q, infos);
    }
  }

  /** Each node keeps the law: allocations and rules send every port to its first claimer. */
  lemma AddNodeKeepsFaithful(family: Family, infos: seq<NodeInfo>, k: nat, plan: Plan)
    requires k < |infos| && Faithful(family, infos, k, plan)
    ensures Faithful(family, infos, k + 1, AddNode(family, infos, plan, infos[k]))
  {
    var info := infos[k];
    var claim := NodeClaim(family, info);
    if !claim.Claimed? {
      forall q, p: Port | p !in TargetPorts(family, q, infos)
        ensures FirstClaimer(family, q, infos, k + 1, p) == FirstClaimer(family, q, infos, k, p)
      {
        NoClaimNoChange(family, infos, k, q, p);
      }
    } else {
      AddClaimKeepsFaithful(family, infos, k, plan);
    }
  }

  /** With what remains of the claim allocated, every port is allocated to its first claimer so far. */
  lemma ClaimIsAllocated(family: Family, infos: seq<NodeInfo>, k: nat, plan: Plan, rest: seq<PortRange>)
    requires k < |infos| && Faithful(family, infos, k, plan) && NodeClaim(family, infos[k]).Claimed?
    requires rest == Remaining(family, infos, plan.held, infos[k].serverPort, NodeClaim(family, infos[k]))
    ensures var held := plan.held
                        + Allocations(infos[k].id, infos[k].serverPort, NodeClaim(family, infos[k]).protocol, rest);
            && ProperAllocations(held)
            && (forall q, p: Port, t: Port :: AllocatedTo(held, q, p, t) <==>
                  p !in TargetPorts(family, q, infos) && FirstClaimer(family, q, infos, k + 1, p) == Some(t))
            && (forall q, p: Port, t: Port :: AllocatedTo(held, q, p, t) <==>
                  || AllocatedTo(plan.held, q, p, t)
                  || (q == NodeClaim(family, infos[k]).protocol && t == infos[k].serverPort && Covers(rest, p)))
  {
    var own, protocol := infos[k].serverPort, NodeClaim(family, infos[k]).protocol;
    RemainingIsExact(family, infos, k, plan);
    AllocationsAreExact(plan.held, infos[k].id, own, protocol, rest);
    var held := plan.held + Allocations(infos[k].id, own, protocol, rest);
    forall q, p: Port, t: Port
      ensures AllocatedTo(held, q, p, t) <==>
              p !in TargetPorts(family, q, infos) && FirstClaimer(family, q, infos, k + 1, p) == Some(t)
    {
      assert AllocatedTo(held, q, p, t) <==>
             AllocatedTo(plan.held, q, p, t) || (q == protocol && t == own && Covers(rest, p));
      hide AllocatedTo, Covers, Remaining, NodeClaim;
      if q != protocol && p !in TargetPorts(family, q, infos) {
        NoClaimNoChange(family, infos, k, q, p);
      }
    }
  }

  lemma AddNodeClaimed(family: Family, infos: seq<NodeInfo>, plan: Plan, info: NodeInfo)
    requires NodeClaim(family, info).Claimed?
    ensures var claim, own := NodeClaim(family, info), info.serverPort;
            var rest := Remaining(family, infos, plan.held, own, claim);
            var middle := plan.(held := plan.held + Allocations(info.id, own, claim.protocol, rest));
            if rest == []
            then
              middle == plan &&
              AddNode(family, infos, plan, info)
              == plan.(errors := plan.errors + [FullyCovered(info.id, family.ExternalPort(info))])
            else AddNode(family, infos, plan, info) == AddMatchers(family, claim.protocol, own, middle, Pack(rest))
  {
    hide NodeClaim, Remaining, AddMatchers, Family.ExternalPort;
  }

  lemma NoGainAtAll(family: Family, plan: Plan, errors: seq<PlanError>, protocol: string, own: Port)
    requires Sound(family, plan)
    ensures Sound(family, plan.(errors := errors))
    ensures GainsRules(plan, plan.(errors := errors), protocol, own, [])
  {
    hide RuledTo;
    assert forall p: Port :: !Covers([], p);
  }

  lemma AddClaimKeepsFaithful(family: Family, infos: seq<NodeInfo>, k: nat, plan: Plan)
    requires k < |infos| && Faithful(family, infos, k, plan) && NodeClaim(family, infos[k]).Claimed?
    ensures Faithful(family, infos, k + 1, AddNode(family, infos, plan, infos[k]))
  {
    var info, claim := infos[k], NodeClaim(family, infos[k]);
    var own, protocol := info.serverPort, claim.protocol;
    var rest := Remaining(family, infos, plan.held, own, claim);
    var middle := plan.(held := plan.held + Allocations(info.id, own, protocol, rest));
    var after := AddNode(family, infos, plan, info);
    AddNodeClaimed(family, infos, plan, info);
    ClaimIsAllocated(family, infos, k, plan, rest);
    ClaimIsServed(family, infos, k, plan);
    hide Remaining, NodeClaim, AddMatchers, AddNode, Allocations, GainsRules, FirstClaimer, AllocatedTo, RuledTo;
    hide Proper, ProperAllocations, TargetPorts, Family.ExternalPort, SeenMatchesRules, AllWellBuilt;
    assert Sound(family, plan);
    if rest == [] {
      NoGainAtAll(family, plan, after.errors, protocol, own);
    } else {
      SoundAnyway(family, plan, middle.held);
      RulesForClaim(family, protocol, own, middle, rest);
    }
    hide Faithful, Sound;
    GainsKeepFaithful(family, infos, k, plan, middle, after, protocol, own, rest);
  }

  lemma SoundAnyway(family: Family, plan: Plan, held: seq<Allocation>)
    requires Sound(family, plan)
    ensures Sound(family, plan.(held := held))
  {
    hide KeyOf, AllWellBuilt;
  }

  lemma ClaimIsServed(family: Family, infos: seq<NodeInfo>, k: nat, plan: Plan)
    requires k < |infos| && Faithful(family, infos, k, plan) && NodeClaim(family, infos[k]).Claimed?
    ensures var claim, own := NodeClaim(family, infos[k]), infos[k].serverPort;
            && own > 0 && (claim.protocol == "udp" || (family.MieruFamily? && claim.protocol == "tcp"))
            && Proper(Remaining(family, infos, plan.held, own, claim))
  {
    RemainingIsExact(family, infos, k, plan);
    NodeClaimIsExact(family, infos[k], NodeClaim(family, infos[k]).protocol);
    hide NodeClaim, Remaining, Claims, Proper, Faithful;
  }

  lemma GainsKeepFaithful(family: Family, infos: seq<NodeInfo>, k: nat, plan: Plan, middle: Plan, after: Plan,
                          protocol: string, own: Port, rest: seq<PortRange>)
    requires k < |infos| && Faithful(family, infos, k, plan)
    requires middle.rules == plan.rules && after.held == middle.held
    requires ProperAllocations(middle.held) && Sound(family, after)
    requires forall q, p: Port, t: Port :: AllocatedTo(middle.held, q, p, t) <==>
               p !in TargetPorts(family, q, infos) && FirstClaimer(family, q, infos, k + 1, p) == Some(t)
    requires forall q, p: Port, t: Port :: AllocatedTo(middle.held, q, p, t) <==>
               AllocatedTo(plan.held, q, p, t) || (q == protocol && t == own && Covers(rest, p))
    requires GainsRules(middle, after, protocol, own, rest)
    ensures Faithful(family, infos, k + 1, after)
  {
  }

  lemma RulesForClaim(family: Family, protocol: string, own: Port, plan: Plan, rest: seq<PortRange>)
    requires Sound(family, plan) && Proper(rest) && own > 0
    requires protocol == "udp" || (family.MieruFamily? && protocol == "tcp")
    ensures Sound(family, AddMatchers(family, protocol, own, plan, Pack(rest)))
    ensures Gains(plan, AddMatchers(family, protocol, own, plan, Pack(rest)), protocol, own, rest)
  {
    PackKeepsEveryRange(rest);
    PackArgsPlain(rest);
    AddMatchersIsExact(family, protocol, own, plan, Pack(rest));
  }

  lemma {:induction false} PlanUpToIsFaithful(family: Family, infos: seq<NodeInfo>, k: nat)
    requires k <= |infos|
    ensures Faithful(family, infos, k, PlanUpTo(family, infos, k))
  {
    if k > 0 {
      PlanUpToIsFaithful(family, infos, k - 1);
      hide Faithful;
      AddNodeKeepsFaithful(family, infos, k - 1, PlanUpTo(family, infos, k - 1));
    }
  }

  /**
   * Allocation is exact. The rules that match a port all share one target, that of the first node in input
   * order whose port text names it; a port some node of the family listens on is matched by no rule.
   */
  lemma PlanIsExact(family: Family, infos: seq<NodeInfo>)
    ensures AllWellBuilt(family, PlanFor(family, infos).rules)
    ensures forall q, p: Port, t: Port ::
              RuledTo(PlanFor(family, infos).rules, q, p, t) <==> PlannedTarget(family, infos, q, p) == Some(t)
  {
    PlanUpToIsFaithful(family, infos, |infos|);
  }

  /**
   * A claiming node is reported as fully covered exactly when every port it asks for, its own aside, is
   * listened on by some node of the family or goes to an earlier node with another server port.
   */
  lemma FullyCoveredIsExact(family: Family, infos: seq<NodeInfo>, k: nat)
    requires k < |infos| && NodeClaim(family, infos[k]).Claimed?
    ensures var info := infos[k];
            var protocol := NodeClaim(family, info).protocol;
            PlanUpTo(family, infos, k + 1).errors ==
              PlanUpTo(family, infos, k).errors
              + (if forall p: Port :: Claims(family, protocol, info, p) && p != info.serverPort ==>
                      || p in TargetPorts(family, protocol, infos)
                      || (FirstClaimer(family, protocol, infos, k, p).Some?
                          && FirstClaimer(family, protocol, infos, k, p) != Some(info.serverPort))
                 then [FullyCovered(info.id, family.ExternalPort(info))] else [])
  {
    hide NodeClaim, Claims, FirstClaimer, Remaining, AddNode, Faithful;
    var info := infos[k];
    var plan, claim := PlanUpTo(family, infos, k), NodeClaim(family, info);
    PlanUpToIsFaithful(family, infos, k);
    NothingRemains(family, infos, k, plan, Remaining(family, infos, plan.held, info.serverPort, claim));
    AddNodeErrors(family, infos, plan, info);
  }

  lemma {:induction false} AddMatchersKeepErrors(
      family: Family, protocol: string, target: Port, plan: Plan, matchers: seq<Matcher>)
    ensures AddMatchers(family, protocol, target, plan, matchers).errors == plan.errors
  {
    hide Family.RuleKey;
    if matchers != [] {
      AddMatchersKeepErrors(family, protocol, target, plan, matchers[..|matchers| - 1]);
    }
  }

  lemma AddNodeErrors(family: Family, infos: seq<NodeInfo>, plan: Plan, info: NodeInfo)
    requires NodeClaim(family, info).Claimed?
    ensures var rest := Remaining(family, infos, plan.held, info.serverPort, NodeClaim(family, info));
            AddNode(family, infos, plan, info).errors ==
            plan.errors + if rest == [] then [FullyCovered(info.id, family.ExternalPort(info))] else []
  {
    hide NodeClaim, Remaining, AddMatchers;
    var claim := NodeClaim(family, info);
    var rest := Remaining(family, infos, plan.held, info.serverPort, claim);
    AddMatchersKeepErrors(family, claim.protocol, info.serverPort,
                          plan.(held := plan.held + Allocations(info.id, info.serverPort, claim.protocol, rest)),
                          PortText.Pack(rest));
  }

  lemma RemainsSomewhere(ranges: seq<PortRange>)
    requires Proper(ranges)
    ensures ranges == [] <==> forall p: Port :: !Covers(ranges, p)
  {
    if ranges != [] {
      assert ranges[0] in ranges && ranges[0].Has(ranges[0].start);
      assert Covers(ranges, ranges[0].start);
    }
  }

  lemma OwnPortIsTarget(family: Family, infos: seq<NodeInfo>, k: nat)
    requires k < |infos| && NodeClaim(family, infos[k]).Claimed?
    ensures infos[k].serverPort in TargetPorts(family, NodeClaim(family, infos[k]).protocol, infos)
  {
    NodeClaimIsExact(family, infos[k], NodeClaim(family, infos[k]).protocol);
    hide NodeClaim, Claims;
  }

  lemma NothingRemains(family: Family, infos: seq<NodeInfo>, k: nat, plan: Plan, rest: seq<PortRange>)
    requires k < |infos| && Faithful(family, infos, k, plan) && NodeClaim(family, infos[k]).Claimed?
    requires rest == Remaining(family, infos, plan.held, infos[k].serverPort, NodeClaim(family, infos[k]))
    ensures var protocol := NodeClaim(family, infos[k]).protocol;
            rest == [] <==>
            forall p: Port :: Claims(family, protocol, infos[k], p) && p != infos[k].serverPort ==>
              || p in TargetPorts(family, protocol, infos)
              || (FirstClaimer(family, protocol, infos, k, p).Some?
                  && FirstClaimer(family, protocol, infos, k, p) != Some(infos[k].serverPort))
  {
    hide Claims, Remaining, NodeClaim, Faithful, Covers, TargetPorts, Proper;
    RemainingIsExact(family, infos, k, plan);
    RemainsSomewhere(rest);
    OwnPortIsTarget(family, infos, k);
  }
}
