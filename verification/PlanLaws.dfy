// What a plan is, said from the fields of the nodes: which text a node asks with, which packets it listens for,
// who gets a port, what is complained about, and the rules as they are written.
module PlanLaws {
  import opened Results
  import opened Text
  import opened PortText
  import opened PortLaws
  import opened PortPlanner
  import opened RuleSpecs

  // ----- What a node asks for -----

  /** The text, in any mix of capitals and small letters, is this word of capitals. */
  predicate SpellsWord(text: string, capitals: string) {
    && |text| == |capitals|
    && forall i :: 0 <= i < |text| ==> text[i] == capitals[i] || text[i] as int == capitals[i] as int + 32
  }

  predicate Capitals(word: string) {
    forall i :: 0 <= i < |word| ==> 'A' <= word[i] <= 'Z'
  }

  /** A Mieru node speaks tcp unless its transport says udp; anything else is no transport. */
  predicate Speaks(transport: string, protocol: string) {
    || (protocol == "tcp" && (AllWhitespace(transport) || SpellsWord(Trim(transport), "TCP")))
    || (protocol == "udp" && SpellsWord(Trim(transport), "UDP"))
  }

  /** The node listens for packets of the protocol on its server port. */
  predicate ListensFor(family: Family, protocol: string, info: NodeInfo) {
    && info.serverPort > 0
    && match family
       case HysteriaFamily => info.protocol == Hysteria2 && protocol == "udp"
       case MieruFamily => info.protocol == PortPlanner.Mieru && Speaks(info.transport, protocol)
  }

  /** HY2 asks with `port`, or with `ports` where `port` is blank; Mieru the other way round. */
  function AskingText(family: Family, info: NodeInfo): string {
    match family
    case HysteriaFamily => if AllWhitespace(info.port) then info.ports else info.port
    case MieruFamily => if AllWhitespace(info.ports) then info.port else info.ports
  }

  predicate Names(text: string, p: Port) {
    NamedPorts(text).Ok? && Covers(NamedPorts(text).value, p)
  }

  predicate AsksFor(family: Family, protocol: string, info: NodeInfo, p: Port) {
    ListensFor(family, protocol, info) && Names(AskingText(family, info), p)
  }

  lemma UpperSpells(text: string, word: string)
    requires Capitals(word)
    ensures ToUpperAscii(text) == word <==> SpellsWord(text, word)
  {
    if ToUpperAscii(text) == word {
      forall i | 0 <= i < |text|
        ensures text[i] == word[i] || text[i] as int == word[i] as int + 32
      {
        assert ToUpperAscii(text)[i] == word[i];
      }
    }
    if SpellsWord(text, word) {
      forall i | 0 <= i < |text| ensures ToUpperAscii(text)[i] == word[i] {
        assert 'A' <= word[i] <= 'Z';
      }
    }
  }

  lemma TransportSpeaks(raw: string, protocol: string)
    ensures MieruTransport(raw) == Ok(protocol) <==> Speaks(raw, protocol)
    ensures MieruTransport(raw).Err? ==> MieruTransport(raw).error == ToUpperAscii(Trim(raw))
  {
    BlankIsWhitespace(raw);
    assert Capitals("TCP") && Capitals("UDP");
    hide Trim, SpellsWord, Capitals;
    UpperSpells(Trim(raw), "TCP");
    UpperSpells(Trim(raw), "UDP");
  }

  lemma ServesIsListening(family: Family, protocol: string, info: NodeInfo)
    ensures Serves(family, protocol, info) <==> ListensFor(family, protocol, info)
  {
    TransportSpeaks(info.transport, protocol);
    hide MieruTransport, Speaks;
  }

  lemma ExternalPortIsAsking(family: Family, info: NodeInfo)
    ensures family.ExternalPort(info) == Trim(AskingText(family, info))
    ensures family.ExternalPort(info) == "" <==> AllWhitespace(AskingText(family, info))
  {
    BlankIsWhitespace(info.port);
    BlankIsWhitespace(info.ports);
  }

  lemma TrimmedNames(text: string)
    ensures NamedPorts(Trim(text)) == NamedPorts(text)
  {
    TrimTwice(text);
  }

  /** A node claims the ports its asking text names, while it listens. */
  lemma ClaimsAreAsked(family: Family, protocol: string, info: NodeInfo, p: Port)
    ensures Claims(family, protocol, info, p) <==> AsksFor(family, protocol, info, p)
  {
    ServesIsListening(family, protocol, info);
    ExternalPortIsAsking(family, info);
    TrimmedNames(AskingText(family, info));
    hide Serves, ListensFor, Family.ExternalPort, NamedPorts, AskingText, Covers;
  }

  // ----- Who gets a port -----

  /** Some node of the family listens on the port itself. */
  predicate ListenedOn(family: Family, protocol: string, infos: seq<NodeInfo>, p: Port) {
    exists k :: 0 <= k < |infos| && ListensFor(family, protocol, infos[k]) && infos[k].serverPort == p
  }

  /** The node at k is the first that asks for the port. */
  predicate AsksFirst(family: Family, protocol: string, infos: seq<NodeInfo>, k: nat, p: Port)
    requires k < |infos|
  {
    && AsksFor(family, protocol, infos[k], p)
    && forall j :: 0 <= j < k ==> !AsksFor(family, protocol, infos[j], p)
  }

  lemma TargetsAreListened(family: Family, protocol: string, infos: seq<NodeInfo>, p: Port)
    ensures p in TargetPorts(family, protocol, infos) <==> ListenedOn(family, protocol, infos, p)
  {
    hide Serves, ListensFor;
    forall info ensures Serves(family, protocol, info) <==> ListensFor(family, protocol, info) {
      ServesIsListening(family, protocol, info);
    }
    if p in TargetPorts(family, protocol, infos) {
      var info :| info in infos && Serves(family, protocol, info) && info.serverPort == p;
      var k :| 0 <= k < |infos| && infos[k] == info;
    }
    if ListenedOn(family, protocol, infos, p) {
      var k :| 0 <= k < |infos| && ListensFor(family, protocol, infos[k]) && infos[k].serverPort == p;
      assert infos[k] in infos;
    }
  }

  lemma {:induction false} FirstClaimerAsksFirst(
      family: Family, protocol: string, infos: seq<NodeInfo>, n: nat, p: Port, t: Port)
    requires n <= |infos|
    ensures FirstClaimer(family, protocol, infos, n, p) == Some(t) <==>
            exists k :: 0 <= k < n && AsksFirst(family, protocol, infos, k, p) && infos[k].serverPort == t
    ensures FirstClaimer(family, protocol, infos, n, p) == None <==>
            forall k :: 0 <= k < n ==> !AsksFor(family, protocol, infos[k], p)
  {
    hide Claims, AsksFor;
    if n > 0 {
      FirstClaimerAsksFirst(family, protocol, infos, n - 1, p, t);
      ClaimsAreAsked(family, protocol, infos[n - 1], p);
      if FirstClaimer(family, protocol, infos, n - 1, p) == None {
        assert AsksFor(family, protocol, infos[n - 1], p) ==> AsksFirst(family, protocol, infos, n - 1, p);
      } else {
        var s := FirstClaimer(family, protocol, infos, n - 1, p).value;
        FirstClaimerAsksFirst(family, protocol, infos, n - 1, p, s);
        var k :| 0 <= k < n - 1 && AsksFirst(family, protocol, infos, k, p) && infos[k].serverPort == s;
        assert AsksFor(family, protocol, infos[k], p);
      }
    }
  }

  /** A port goes to the first node that asks for it, unless some node of the family listens on it. */
  lemma PlannedTargetIsFirstAsked(family: Family, infos: seq<NodeInfo>, protocol: string, p: Port, t: Port)
    ensures PlannedTarget(family, infos, protocol, p) == Some(t) <==>
            && !ListenedOn(family, protocol, infos, p)
            && exists k :: 0 <= k < |infos| && AsksFirst(family, protocol, infos, k, p) && infos[k].serverPort == t
  {
    hide ListenedOn, AsksFirst, AsksFor;
    TargetsAreListened(family, protocol, infos, p);
    FirstClaimerAsksFirst(family, protocol, infos, |infos|, p, t);
  }

  /** So the rules of a plan send a port exactly where the nodes' own fields say. */
  lemma PlanFollowsFields(family: Family, infos: seq<NodeInfo>, protocol: string, p: Port, t: Port)
    ensures RuledTo(PlanFor(family, infos).rules, protocol, p, t) <==>
            && !ListenedOn(family, protocol, infos, p)
            && exists k :: 0 <= k < |infos| && AsksFirst(family, protocol, infos, k, p) && infos[k].serverPort == t
  {
    hide ListenedOn, AsksFirst, RuledTo, PlanFor, PlannedTarget;
    PlanIsExact(family, infos);
    PlannedTargetIsFirstAsked(family, infos, protocol, p, t);
  }

  // ----- What is complained about -----

  predicate OfFamily(family: Family, info: NodeInfo) {
    info.protocol == match family case HysteriaFamily => Hysteria2 case MieruFamily => PortPlanner.Mieru
  }

  /** A node of the family that asks for something on a server port of its own. */
  predicate Asking(family: Family, info: NodeInfo) {
    OfFamily(family, info) && info.serverPort > 0 && !AllWhitespace(AskingText(family, info))
  }

  predicate BadTransport(family: Family, info: NodeInfo) {
    family.MieruFamily? && !Speaks(info.transport, "tcp") && !Speaks(info.transport, "udp")
  }

  /** What is wrong with a node by itself, if anything. */
  predicate Wrong(family: Family, info: NodeInfo, error: PlanError) {
    match error
    case InvalidServerPort(id) => id == info.id && OfFamily(family, info) && info.serverPort == 0
    case InvalidTransport(id, text) =>
      && id == info.id && Asking(family, info) && BadTransport(family, info)
      && text == ToUpperAscii(Trim(info.transport))
    case BadPortText(id, text, e) =>
      && id == info.id && Asking(family, info) && !BadTransport(family, info)
      && text == Trim(AskingText(family, info)) && NamedPorts(AskingText(family, info)) == Err(e)
    case FullyCovered(_, _) => false
  }

  lemma TransportIsBad(family: Family, info: NodeInfo)
    ensures family.Transport(info).Err? <==> BadTransport(family, info)
    ensures family.Transport(info).Err? ==> family.Transport(info).error == ToUpperAscii(Trim(info.transport))
  {
    TransportSpeaks(info.transport, "tcp");
    TransportSpeaks(info.transport, "udp");
    hide Speaks, MieruTransport, Trim, ToUpperAscii;
  }

  /** A node is rejected for exactly what is wrong with it. */
  lemma RejectedIsWrong(family: Family, info: NodeInfo, error: PlanError)
    ensures NodeClaim(family, info) == Rejected(error) <==> Wrong(family, info, error)
  {
    hide ToUpperAscii, Trim, AllWhitespace, AskingText, Family.ExternalPort, Family.Transport, BadTransport;
    hide CompilePorts, NamedPorts;
    var text := AskingText(family, info);
    ExternalPortIsAsking(family, info);
    TrimmedNames(text);
    TransportIsBad(family, info);
    CompileIsFaithful(Trim(text), info.serverPort);
  }

  /**
   * Planning one more node complains at most once: of what is wrong with the node by itself, or that all it asks
   * for is taken, which it can only be when nothing is wrong with it.
   */
  lemma ComplaintsAreExact(family: Family, infos: seq<NodeInfo>, k: nat)
    requires k < |infos|
    ensures var before, after := PlanUpTo(family, infos, k).errors, PlanUpTo(family, infos, k + 1).errors;
            var claim := NodeClaim(family, infos[k]);
            && (forall error :: Wrong(family, infos[k], error) ==> after == before + [error])
            && ((forall error :: !Wrong(family, infos[k], error)) ==>
                  after == before || after == before + [FullyCovered(infos[k].id, Trim(AskingText(family, infos[k])))])
  {
    hide NodeClaim, Wrong, Remaining, Pack, Allocations;
    var info, plan := infos[k], PlanUpTo(family, infos, k);
    forall error ensures NodeClaim(family, info) == Rejected(error) <==> Wrong(family, info, error) {
      RejectedIsWrong(family, info, error);
    }
    ExternalPortIsAsking(family, info);
    hide AskingText, Family.ExternalPort, Trim;
    if NodeClaim(family, info).Claimed? {
      AddNodeErrors(family, infos, plan, info);
    } else if NodeClaim(family, info).Rejected? {
      assert Wrong(family, info, NodeClaim(family, info).error);
    }
  }

  /** A node with nothing wrong that asks for no port beside its own leaves the plan as it was, without a complaint. */
  lemma OwnPortAsksNothing(family: Family, infos: seq<NodeInfo>, k: nat)
    requires k < |infos| && forall error :: !Wrong(family, infos[k], error)
    requires forall protocol, p :: AsksFor(family, protocol, infos[k], p) ==> p == infos[k].serverPort
    ensures PlanUpTo(family, infos, k + 1) == PlanUpTo(family, infos, k)
  {
    var info, claim := infos[k], NodeClaim(family, infos[k]);
    if claim.Rejected? {
      RejectedIsWrong(family, info, claim.error);
    } else if claim.Claimed? {
      NodeClaimIsExact(family, info, claim.protocol);
      assert claim.ranges != [] && claim.ranges[0] in claim.ranges;
      var p := claim.ranges[0].start;
      hide NodeClaim, Wrong, Claims, AsksFor;
      assert claim.ranges[0].Has(p);
      ClaimsAreAsked(family, claim.protocol, info, p);
      assert false;
    }
  }

  /**
   * A listening node that names some port beside its own is reported as covered exactly when each of them is
   * listened on, or was first asked for by an earlier node with another server port.
   */
  lemma CoveredIsReported(family: Family, infos: seq<NodeInfo>, k: nat, protocol: string, q: Port)
    requires k < |infos| && q != infos[k].serverPort && AsksFor(family, protocol, infos[k], q)
    ensures var info, own := infos[k], infos[k].serverPort;
            var covered := forall p: Port :: Names(AskingText(family, info), p) && p != own ==>
              || ListenedOn(family, protocol, infos, p)
              || exists j :: 0 <= j < k && AsksFirst(family, protocol, infos, j, p) && infos[j].serverPort != own;
            PlanUpTo(family, infos, k + 1).errors == PlanUpTo(family, infos, k).errors
              + if covered then [FullyCovered(info.id, Trim(AskingText(family, info)))] else []
  {
    hide NodeClaim, Names, AskingText, Trim, Family.ExternalPort, ListensFor, ListenedOn, AsksFirst, FirstClaimer;
    hide PlanUpTo;
    var info, own := infos[k], infos[k].serverPort;
    NodeClaimIsExact(family, info, protocol);
    ClaimsAreAsked(family, protocol, info, q);
    ExternalPortIsAsking(family, info);
    FullyCoveredIsExact(family, infos, k);
    forall p: Port
      ensures Claims(family, protocol, info, p) <==> Names(AskingText(family, info), p)
      ensures p in TargetPorts(family, protocol, infos) <==> ListenedOn(family, protocol, infos, p)
      ensures (FirstClaimer(family, protocol, infos, k, p).Some?
               && FirstClaimer(family, protocol, infos, k, p) != Some(own))
          <==> exists j :: 0 <= j < k && AsksFirst(family, protocol, infos, j, p) && infos[j].serverPort != own
    {
      ClaimsAreAsked(family, protocol, info, p);
      TargetsAreListened(family, protocol, infos, p);
      OtherAskedFirst(family, protocol, infos, k, p, own);
    }
  }

  lemma OtherAskedFirst(family: Family, protocol: string, infos: seq<NodeInfo>, k: nat, p: Port, own: Port)
    requires k < |infos|
    ensures (FirstClaimer(family, protocol, infos, k, p).Some?
             && FirstClaimer(family, protocol, infos, k, p) != Some(own))
        <==> exists j :: 0 <= j < k && AsksFirst(family, protocol, infos, j, p) && infos[j].serverPort != own
  {
    hide FirstClaimer, AsksFirst;
    if j :| 0 <= j < k && AsksFirst(family, protocol, infos, j, p) && infos[j].serverPort != own {
      FirstClaimerAsksFirst(family, protocol, infos, k, p, infos[j].serverPort);
    }
    if FirstClaimer(family, protocol, infos, k, p).Some? {
      FirstClaimerAsksFirst(family, protocol, infos, k, p, FirstClaimer(family, protocol, infos, k, p).value);
    }
  }

  // ----- The list of rules -----

  predicate DistinctRules(family: Family, rules: seq<Rule>) {
    forall i, j :: 0 <= i < j < |rules| ==> KeyOf(family, rules[i]) != KeyOf(family, rules[j])
  }

  /** No two rules have the same key, and the keys of all rules have been seen. */
  predicate Kept(family: Family, plan: Plan) {
    DistinctRules(family, plan.rules) && forall r :: r in plan.rules ==> KeyOf(family, r) in plan.seen
  }

  lemma AddMatcherKeeps(family: Family, protocol: string, target: Port, plan: Plan, m: Matcher)
    requires Kept(family, plan)
    ensures Kept(family, AddMatcher(family, protocol, target, plan, m))
    ensures plan.rules <= AddMatcher(family, protocol, target, plan, m).rules
  {
    hide Family.RuleKey;
    var after := AddMatcher(family, protocol, target, plan, m);
    if after != plan {
      forall i | 0 <= i < |plan.rules| ensures KeyOf(family, plan.rules[i]) in plan.seen {
        assert plan.rules[i] in plan.rules;
      }
    }
  }

  lemma {:induction false} AddMatchersKeep(
      family: Family, protocol: string, target: Port, plan: Plan, matchers: seq<Matcher>)
    requires Kept(family, plan)
    ensures Kept(family, AddMatchers(family, protocol, target, plan, matchers))
    ensures plan.rules <= AddMatchers(family, protocol, target, plan, matchers).rules
  {
    hide Kept, AddMatcher;
    if matchers != [] {
      var init, m := matchers[..|matchers| - 1], matchers[|matchers| - 1];
      AddMatchersKeep(family, protocol, target, plan, init);
      AddMatcherKeeps(family, protocol, target, AddMatchers(family, protocol, target, plan, init), m);
    }
  }

  lemma AddNodeKeeps(family: Family, infos: seq<NodeInfo>, plan: Plan, info: NodeInfo)
    requires Kept(family, plan)
    ensures Kept(family, AddNode(family, infos, plan, info)) && plan.rules <= AddNode(family, infos, plan, info).rules
  {
    hide NodeClaim, Remaining, Pack, Allocations, AddMatchers, KeyOf;
    var claim := NodeClaim(family, info);
    if claim.Claimed? {
      var rest := Remaining(family, infos, plan.held, info.serverPort, claim);
      var held := plan.held + Allocations(info.id, info.serverPort, claim.protocol, rest);
      AddMatchersKeep(family, claim.protocol, info.serverPort, plan.(held := held), Pack(rest));
    }
  }

  lemma NothingKept(family: Family)
    ensures Kept(family, EMPTY_PLAN)
  {
  }

  /** Planning one more node adds rules behind those there are and repeats none. */
  lemma {:induction false} RulesGrow(family: Family, infos: seq<NodeInfo>, k: nat)
    requires k <= |infos|
    ensures Kept(family, PlanUpTo(family, infos, k))
    ensures k > 0 ==> PlanUpTo(family, infos, k - 1).rules <= PlanUpTo(family, infos, k).rules
  {
    hide Kept, AddNode;
    if k > 0 {
      RulesGrow(family, infos, k - 1);
      AddNodeKeeps(family, infos, PlanUpTo(family, infos, k - 1), infos[k - 1]);
    } else {
      NothingKept(family);
    }
  }

  /** The rules of a plan are distinct, and stand in the order of their nodes. */
  lemma RulesAreDistinct(family: Family, infos: seq<NodeInfo>)
    ensures DistinctRules(family, PlanFor(family, infos).rules)
  {
    RulesGrow(family, infos, |infos|);
  }

  // ----- The rules as they are written -----

  lemma {:induction false} OwnPortStays(ranges: seq<PortRange>, own: Port, ports: seq<Port>)
    requires forall i :: 0 <= i < |ports| ==> ports[i] == own
    ensures TrimTargets(ranges, own, ports) == ranges
  {
    if ports != [] {
      OwnPortStays(ranges, own, ports[..|ports| - 1]);
    }
  }

  /** A node on its own gets all it asks for. */
  lemma AloneKeepsAll(family: Family, info: NodeInfo, ranges: seq<PortRange>, protocol: string)
    requires NodeClaim(family, info) == Claimed(protocol, ranges)
    ensures Remaining(family, [info], [], info.serverPort, Claimed(protocol, ranges)) == ranges
  {
    var targets := Ascending(TargetPorts(family, protocol, [info]));
    forall i | 0 <= i < |targets| ensures targets[i] == info.serverPort {
      assert targets[i] in targets;
    }
    OwnPortStays(ranges, info.serverPort, targets);
  }

  lemma OneMatcherOneRule(family: Family, info: NodeInfo, protocol: string, ranges: seq<PortRange>, m: Matcher)
    requires NodeClaim(family, info) == Claimed(protocol, ranges) && ranges != [] && Pack(ranges) == [m]
    ensures PlanFor(family, [info]).rules == [Rule(m, info.serverPort, protocol, family.Comment())]
    ensures PlanFor(family, [info]).errors == []
  {
    AloneKeepsAll(family, info, ranges, protocol);
    hide NodeClaim, Remaining, Pack, Allocations, Family.RuleKey;
    var infos := [info];
    var start := EMPTY_PLAN.(held := [] + Allocations(info.id, info.serverPort, protocol, ranges));
    var matchers := [m];
    assert matchers[..0] == [] && matchers[0] == m;
    assert AddMatchers(family, protocol, info.serverPort, start, matchers[..0]) == start;
    assert PlanUpTo(family, infos, 0) == EMPTY_PLAN;
    assert PlanUpTo(family, infos, 1) == AddNode(family, infos, EMPTY_PLAN, info);
    assert [] + [Rule(m, info.serverPort, protocol, family.Comment())]
        == [Rule(m, info.serverPort, protocol, family.Comment())];
  }

  lemma OneRangeClaim(family: Family, info: NodeInfo, protocol: string, start: Port, end: Port)
    requires ListensFor(family, protocol, info) && 0 < start < end && !(start <= info.serverPort <= end)
    requires NamedPorts(AskingText(family, info)) == Ok([PortRange(start, end)])
    ensures NodeClaim(family, info) == Claimed(protocol, [PortRange(start, end)])
    ensures Pack([PortRange(start, end)]) == [RangeMatcher(start, end)]
  {
    var text, range := AskingText(family, info), PortRange(start, end);
    ServesIsListening(family, protocol, info);
    ExternalPortIsAsking(family, info);
    TrimmedNames(text);
    if AllWhitespace(text) {
      BlankIsRefused(text);
    }
    CompileIsFaithful(Trim(text), info.serverPort);
    CompileSubtracts(Trim(text), info.serverPort);
    OneRangePacks(range);
    SubtractNothing(range, PortRange(info.serverPort, info.serverPort));
    hide CompilePorts, NamedPorts, Trim, AskingText, Family.ExternalPort, AllWhitespace, Subtract, Pack, ListensFor;
    hide Family.Transport;
  }

  lemma SubtractNothing(range: PortRange, blocked: PortRange)
    requires !range.Overlaps(blocked)
    ensures Subtract([range], blocked) == [range]
  {
    var ranges := [range];
    assert ranges[..0] == [] && Subtract(ranges[..0], blocked) == [];
    assert [] + [range] == [range];
  }

  lemma OneRangePacks(range: PortRange)
    requires range.start < range.end
    ensures Pack([range]) == [RangeMatcher(range.start, range.end)]
  {
    PackingSnoc([], range);
    assert [] + [range] == [range];
    var m := RangeMatcher(range.start, range.end);
    hide RangeMatcher;
    assert Flush([]) == [];
    assert Packing([]) == Buffers([], [], []);
    assert ([] + []) + [m] == [m] && [m] + [] == [m];
  }

  lemma RangeRuleText(start: Port, end: Port, target: Port, protocol: string, comment: string)
    ensures RawForward(Rule(RangeMatcher(start, end), target, protocol, comment)) ==
            ["-A", "PREROUTING", "-p", protocol, "--dport", Decimal(start) + ":" + Decimal(end),
             "-m", "comment", "--comment", comment, "-j", "REDIRECT", "--to-ports", Decimal(target)]
  {
    hide Decimal;
  }

  lemma OneForward(family: Family, info: NodeInfo, rule: Rule)
    requires PlanFor(family, [info]).rules == [rule]
    ensures Forwards(family, [info]) == [RawForward(rule)]
  {
    hide RawForward, PlanFor;
  }

  lemma OneHysteriaAllow(info: NodeInfo)
    requires info.protocol == Hysteria2 && info.serverPort > 0
    ensures Allows(HysteriaFamily, [info]) == [RawAllow(AllowRule("udp", info.serverPort, HYSTERIA_COMMENT))]
  {
    OneListener(info);
    hide RawAllow, Ascending, TargetPorts;
  }

  lemma OneNeeded(rule: Rule)
    ensures MieruAllows([rule]) == [AllowOf(rule)]
  {
    hide AllowKey, AllowOf;
    var rules := [rule];
    assert rules[..0] == [] && MieruAllows(rules[..0]) == [];
  }

  lemma OneMieruAllow(info: NodeInfo, rule: Rule)
    requires PlanFor(MieruFamily, [info]).rules == [rule]
    ensures Allows(MieruFamily, [info]) == [RawAllow(AllowOf(rule))]
  {
    hide RawAllow, PlanFor, AllowKey, AllowOf, MieruAllows;
    OneNeeded(rule);
  }

  /** What a node alone gets when it asks for a range beside its own port. */
  lemma OneRangePlan(family: Family, info: NodeInfo, protocol: string, range: Item)
    requires range.From? && 0 < range.start < range.end && !(range.start <= info.serverPort <= range.end)
    requires ListensFor(family, protocol, info)
    requires var first, second := if family.HysteriaFamily? then info.port else info.ports,
                                  if family.HysteriaFamily? then info.ports else info.port;
             first == range.Text() || (AllWhitespace(first) && second == range.Text())
    ensures PlanFor(family, [info]).rules ==
            [Rule(RangeMatcher(range.start, range.end), info.serverPort, protocol, family.Comment())]
    ensures PlanFor(family, [info]).errors == []
  {
    hide ListensFor, Item.Text, AllWhitespace, PlanFor, NodeClaim, RangeMatcher, Pack, AskingText, Family.Comment;
    ItemIsAsked(family, info, range);
    OneRangeClaim(family, info, protocol, range.start, range.end);
    OneMatcherOneRule(family, info, protocol, [range.Range()], RangeMatcher(range.start, range.end));
  }

  /**
   * The text of a rule, word for word: what an HY2 node alone makes the agent write when it asks for a range, with
   * a dash or a colon, in `port` or in `ports`.
   */
  lemma HysteriaRulesAsWritten(info: NodeInfo, range: Item)
    requires info.protocol == Hysteria2 && range.From? && 0 < range.start < range.end
    requires info.serverPort > 0 && !(range.start <= info.serverPort <= range.end)
    requires info.port == range.Text() || (AllWhitespace(info.port) && info.ports == range.Text())
    ensures Forwards(HysteriaFamily, [info]) ==
            [["-A", "PREROUTING", "-p", "udp", "--dport", Decimal(range.start) + ":" + Decimal(range.end),
              "-m", "comment", "--comment", "V2NODE-HY2", "-j", "REDIRECT", "--to-ports", Decimal(info.serverPort)]]
    ensures Allows(HysteriaFamily, [info]) ==
            [["-A", "INPUT", "-p", "udp", "--dport", Decimal(info.serverPort),
              "-m", "comment", "--comment", "V2NODE-HY2", "-j", "ACCEPT"]]
    ensures PlanFor(HysteriaFamily, [info]).errors == []
  {
    hide RawForward, Forwards, Allows, PlanFor, Decimal, AllWhitespace, Item.Text, RangeMatcher;
    OneRangePlan(HysteriaFamily, info, "udp", range);
    var rule := Rule(RangeMatcher(range.start, range.end), info.serverPort, "udp", HYSTERIA_COMMENT);
    OneForward(HysteriaFamily, info, rule);
    RangeRuleText(range.start, range.end, info.serverPort, "udp", HYSTERIA_COMMENT);
    OneHysteriaAllow(info);
  }

  /** The same for a Mieru node, whose packets are tcp unless it says udp. */
  lemma MieruRulesAsWritten(info: NodeInfo, range: Item, protocol: string)
    requires info.protocol == PortPlanner.Mieru && range.From? && 0 < range.start < range.end
    requires info.serverPort > 0 && !(range.start <= info.serverPort <= range.end)
    requires info.ports == range.Text() || (AllWhitespace(info.ports) && info.port == range.Text())
    requires Speaks(info.transport, protocol)
    ensures Forwards(MieruFamily, [info]) ==
            [["-A", "PREROUTING", "-p", protocol, "--dport", Decimal(range.start) + ":" + Decimal(range.end),
              "-m", "comment", "--comment", "V2NODE-MIERU", "-j", "REDIRECT", "--to-ports", Decimal(info.serverPort)]]
    ensures Allows(MieruFamily, [info]) ==
            [["-A", "INPUT", "-p", protocol, "--dport", Decimal(info.serverPort),
              "-m", "comment", "--comment", "V2NODE-MIERU", "-j", "ACCEPT"]]
    ensures PlanFor(MieruFamily, [info]).errors == []
  {
    hide RawForward, Forwards, Allows, PlanFor, Decimal, AllWhitespace, Item.Text, RangeMatcher, Speaks;
    var rule := Rule(RangeMatcher(range.start, range.end), info.serverPort, protocol, MIERU_COMMENT);
    OneRangePlan(MieruFamily, info, protocol, range);
    OneForward(MieruFamily, info, rule);
    RangeRuleText(range.start, range.end, info.serverPort, protocol, MIERU_COMMENT);
    OneMieruAllow(info, rule);
  }

  lemma {:induction false} AscendingOne(lo: nat, p: Port)
    requires lo <= 0x1_0000
    ensures AscendingFrom(lo, {p}) == if lo <= p then [p] else []
    decreases 0x1_0000 - lo
  {
    if lo < 0x1_0000 {
      AscendingOne(lo + 1, p);
    }
  }

  lemma OneListener(info: NodeInfo)
    requires info.protocol == Hysteria2 && info.serverPort > 0
    ensures Ascending(TargetPorts(HysteriaFamily, "udp", [info])) == [info.serverPort]
  {
    assert info in [info] && Serves(HysteriaFamily, "udp", info);
    assert TargetPorts(HysteriaFamily, "udp", [info]) == {info.serverPort};
    AscendingOne(0, info.serverPort);
  }

  lemma ItemIsAsked(family: Family, info: NodeInfo, item: Item)
    requires item.Valid()
    requires var first, second := if family.HysteriaFamily? then info.port else info.ports,
                                  if family.HysteriaFamily? then info.ports else info.port;
             first == item.Text() || (AllWhitespace(first) && second == item.Text())
    ensures NamedPorts(AskingText(family, info)) == Ok([item.Range()])
  {
    hide Item.Text, Item.Range, Item.Valid, IsWhitespace, NamedPorts;
    var text := item.Text();
    ItemSpells(item);
    hide SpellsRange;
    PortCharsAreBare(text);
    assert !AllWhitespace(text) by {
      assert !IsWhitespace(text[0]);
    }
    assert AllValid([item]) && Texts([item]) == [text] && Ranges([item]) == [item.Range()];
    SelfStrewn(text);
    ItemsAreRead([item], "", text, "");
    assert "" + text + "" == text;
  }

  lemma {:induction false} SelfStrewn(text: string)
    ensures Strewn(text, text, ' ')
  {
    if text != "" {
      SelfStrewn(text[1..]);
    }
  }

  // ----- Which ports are opened -----

  /** HY2 opens every server port of its nodes, with or without a range, once each and in ascending order. */
  lemma HysteriaAllowsAreExact(infos: seq<NodeInfo>, a: AllowRule)
    ensures a in AllowRules(HysteriaFamily, infos) <==>
            && a.protocol == "udp" && a.comment == "V2NODE-HY2" && a.port > 0
            && exists k :: 0 <= k < |infos| && infos[k].protocol == Hysteria2 && infos[k].serverPort == a.port
    ensures forall i, j :: 0 <= i < j < |AllowRules(HysteriaFamily, infos)| ==>
              AllowRules(HysteriaFamily, infos)[i].port < AllowRules(HysteriaFamily, infos)[j].port
  {
    TargetsAreListened(HysteriaFamily, "udp", infos, a.port);
    var targets := TargetPorts(HysteriaFamily, "udp", infos);
    var ports := AscendingFrom(0, targets);
    var allows := AllowRules(HysteriaFamily, infos);
    hide AscendingFrom, TargetPorts;
    if a in allows {
      var i :| 0 <= i < |allows| && allows[i] == a;
      assert ports[i] in ports;
    }
    if a.port in targets && a.protocol == "udp" && a.comment == HYSTERIA_COMMENT {
      assert a.port in ports;
      var i :| 0 <= i < |ports| && ports[i] == a.port;
      assert allows[i] == a;
    }
  }

  lemma NamesSomething(m: Matcher)
    requires Tight(m)
    ensures exists p: Port :: Covers(Spans(m), p)
  {
    hide PortsNamedBy;
    var spans := Spans(m);
    assert spans != [];
    SpansAreProper(m);
    assert spans[0] in spans && spans[0].Has(spans[0].start);
    assert Covers(spans, spans[0].start);
  }

  lemma SpansAreProper(m: Matcher)
    ensures Proper(Spans(m))
  {
  }

  /** Mieru opens exactly the targets it forwards to, for the protocol it forwards. */
  lemma MieruAllowsAreExact(infos: seq<NodeInfo>, a: AllowRule)
    ensures a in AllowRules(MieruFamily, infos) <==>
            && a.comment == "V2NODE-MIERU"
            && exists p: Port :: PlannedTarget(MieruFamily, infos, a.protocol, p) == Some(a.port)
  {
    var rules := PlanFor(MieruFamily, infos).rules;
    hide PlanFor, PlannedTarget, Tight, PlainArgs, Covers, Spans;
    PlanIsExact(MieruFamily, infos);
    MieruAllowsIsExact(MieruFamily, rules);
    if a in AllowRules(MieruFamily, infos) {
      var r :| r in rules && AllowOf(r) == a;
      NamesSomething(r.matcher);
      var p: Port :| Covers(Spans(r.matcher), p);
      assert RuledTo(rules, a.protocol, p, a.port);
    }
    if p: Port :| PlannedTarget(MieruFamily, infos, a.protocol, p) == Some(a.port) {
      assert RuledTo(rules, a.protocol, p, a.port);
      var r :| r in rules && r.protocol == a.protocol && r.target == a.port && Covers(Spans(r.matcher), p);
      assert a.comment == MIERU_COMMENT ==> AllowOf(r) == a;
    }
  }
}
