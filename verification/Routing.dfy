// End to end: what a clean firewall does with a packet, compared with what the plan wants.
module Routing {
  import opened Sequences
  import opened Results
  import opened Text
  import opened PortText
  import opened PortPlanner
  import opened SpecText
  import opened ManagedRules
  import opened Firewall
  import opened RuleSpecs
  import opened Repair
  import opened Inspection
  import opened Control

  // ----- What a rule does to a packet -----

  /** Ports as the kernel reads them: numbers with these signs between them, and no others. */
  predicate KernelReads(value: string, signs: set<char>, p: Port) {
    && (forall i :: 0 <= i < |value| ==> IsDigit(value[i]) || value[i] in signs)
    && PortsNamedBy(value).Ok? && Covers(PortsNamedBy(value).value, p)
  }

  /** One option with its value, as the kernel tests it against a packet's protocol and destination port. */
  predicate OptionAccepts(option: string, value: string, protocol: string, p: Port) {
    && (option == "-p" ==> value == protocol)
    && (option == "--dport" ==> KernelReads(value, {':'}, p))
    && (option == "--dports" ==> KernelReads(value, {':', ','}, p))
  }

  /** All options of a normalised rule accept the packet. Every option the agent writes takes one value. */
  predicate Accepts(options: Fields, protocol: string, p: Port) {
    |options| >= 2 ==> OptionAccepts(options[0], options[1], protocol, p) && Accepts(options[2..], protocol, p)
  }

  /** The value of an option, where options come with one value each. */
  function ValueOf(options: Fields, option: string): Option<string> {
    if |options| < 2 then None
    else if options[0] == option then Some(options[1])
    else ValueOf(options[2..], option)
  }

  predicate RuleAccepts(rule: Fields, protocol: string, p: Port) {
    Accepts(Body(Normalize(rule)), protocol, p)
  }

  /** What a rule does with a packet it accepts. */
  function Verdict(rule: Fields): Option<string> {
    ValueOf(Body(Normalize(rule)), "-j")
  }

  /** Where a rule sends the packet, if it redirects at all. */
  function RedirectPort(rule: Fields): Option<Port> {
    if Verdict(rule) != Some("REDIRECT") then None
    else
      match ValueOf(Body(Normalize(rule)), "--to-ports")
      case None => None
      case Some(text) =>
        match ParsePortNumber(text)
        case Ok(port) => Some(port)
        case Err(_) => None
  }

  /** First-match traversal: the first accepting rule decides where the packet goes, if anywhere. */
  function FirstMatch(rules: seq<Fields>, protocol: string, p: Port): Option<Port> {
    if rules == [] then None
    else if RuleAccepts(rules[0], protocol, p) then RedirectPort(rules[0])
    else FirstMatch(rules[1..], protocol, p)
  }

  /** First-match traversal of a filter chain. */
  function FirstVerdict(rules: seq<Fields>, protocol: string, p: Port): Option<string> {
    if rules == [] then None
    else if RuleAccepts(rules[0], protocol, p) then Verdict(rules[0])
    else FirstVerdict(rules[1..], protocol, p)
  }

  predicate Opens(rule: Fields, protocol: string, p: Port) {
    RuleAccepts(rule, protocol, p) && Verdict(rule) == Some("ACCEPT")
  }

  // ----- The agent's own rules -----

  lemma AcceptsCons(option: string, value: string, rest: Fields, protocol: string, p: Port)
    ensures Accepts([option, value] + rest, protocol, p)
        <==> OptionAccepts(option, value, protocol, p) && Accepts(rest, protocol, p)
  {
    assert ([option, value] + rest)[2..] == rest;
  }

  lemma ValueOfCons(option: string, value: string, rest: Fields, wanted: string)
    ensures ValueOf([option, value] + rest, wanted) == if option == wanted then Some(value) else ValueOf(rest, wanted)
  {
    assert ([option, value] + rest)[2..] == rest;
  }

  lemma LastOption(option: string, value: string, protocol: string, p: Port)
    requires option != "-p" && option != "--dport" && option != "--dports"
    ensures Accepts([option, value], protocol, p) && ValueOf([option, value], option) == Some(value)
  {
    assert [option, value][2..] == [];
  }

  /** The options every forwarding rule ends with say nothing about ports. */
  lemma TailAccepts(comment: string, target: string, protocol: string, p: Port)
    ensures var tail := ["-m", "comment", "--comment", comment, "-j", "REDIRECT", "--to-ports", target];
            && Accepts(tail, protocol, p)
            && ValueOf(tail, "-j") == Some("REDIRECT")
            && ValueOf(tail, "--to-ports") == Some(target)
  {
    var t4: Fields := ["--to-ports", target];
    var t3 := ["-j", "REDIRECT"] + t4;
    var t2 := ["--comment", comment] + t3;
    var tail := ["-m", "comment"] + t2;
    hide Accepts, ValueOf, KernelReads;
    LastOption("--to-ports", target, protocol, p);
    AcceptsCons("-j", "REDIRECT", t4, protocol, p);
    AcceptsCons("--comment", comment, t3, protocol, p);
    AcceptsCons("-m", "comment", t2, protocol, p);
    ValueOfCons("-j", "REDIRECT", t4, "--to-ports");
    ValueOfCons("--comment", comment, t3, "--to-ports");
    ValueOfCons("-m", "comment", t2, "--to-ports");
    ValueOfCons("-j", "REDIRECT", t4, "-j");
    ValueOfCons("--comment", comment, t3, "-j");
    ValueOfCons("-m", "comment", t2, "-j");
    assert tail == ["-m", "comment", "--comment", comment, "-j", "REDIRECT", "--to-ports", target];
  }

  lemma DportAccepts(proto: string, ports: string, comment: string, target: string, protocol: string, p: Port)
    ensures var options := Body(DportForm(proto, ports, comment, target));
            && (Accepts(options, protocol, p) <==> proto == protocol && KernelReads(ports, {':'}, p))
            && ValueOf(options, "-j") == Some("REDIRECT")
            && ValueOf(options, "--to-ports") == Some(target)
  {
    var tail := ["-m", "comment", "--comment", comment, "-j", "REDIRECT", "--to-ports", target];
    var rest := ["--dport", ports] + tail;
    hide KernelReads, Accepts, ValueOf;
    TailAccepts(comment, target, protocol, p);
    AcceptsCons("--dport", ports, tail, protocol, p);
    AcceptsCons("-p", proto, rest, protocol, p);
    ValueOfCons("--dport", ports, tail, "--to-ports");
    ValueOfCons("-p", proto, rest, "--to-ports");
    ValueOfCons("--dport", ports, tail, "-j");
    ValueOfCons("-p", proto, rest, "-j");
    assert Body(DportForm(proto, ports, comment, target)) == ["-p", proto] + rest;
  }

  lemma MultiportAccepts(proto: string, ports: string, comment: string, target: string, protocol: string, p: Port)
    ensures var options := Body(MultiportForm(proto, ports, comment, target));
            && (Accepts(options, protocol, p) <==> proto == protocol && KernelReads(ports, {':', ','}, p))
            && ValueOf(options, "-j") == Some("REDIRECT")
            && ValueOf(options, "--to-ports") == Some(target)
  {
    var tail := ["-m", "comment", "--comment", comment, "-j", "REDIRECT", "--to-ports", target];
    var inner := ["--dports", ports] + tail;
    var rest := ["-m", "multiport"] + inner;
    hide KernelReads, Accepts, ValueOf;
    TailAccepts(comment, target, protocol, p);
    AcceptsCons("--dports", ports, tail, protocol, p);
    AcceptsCons("-m", "multiport", inner, protocol, p);
    AcceptsCons("-p", proto, rest, protocol, p);
    ValueOfCons("--dports", ports, tail, "--to-ports");
    ValueOfCons("-m", "multiport", inner, "--to-ports");
    ValueOfCons("-p", proto, rest, "--to-ports");
    ValueOfCons("--dports", ports, tail, "-j");
    ValueOfCons("-m", "multiport", inner, "-j");
    ValueOfCons("-p", proto, rest, "-j");
    assert Body(MultiportForm(proto, ports, comment, target)) == ["-p", proto] + rest;
  }

  /** The kernel reads a matcher's text as the ports it was built from. */
  lemma KernelReadsMatcher(m: Matcher, p: Port)
    requires Readable(m)
    ensures IsDportMatcher(m) ==> (KernelReads(PortArgument(m), {':'}, p) <==> Covers(Spans(m), p))
    ensures IsMultiportMatcher(m) ==> (KernelReads(PortArgument(m), {':', ','}, p) <==> Covers(Spans(m), p))
  {
    hide PortsNamedBy, Covers;
  }

  /** A written forwarding rule accepts exactly its matcher's ports and redirects to its target. */
  lemma ForwardMeaning(family: Family, r: Rule, protocol: string, p: Port)
    requires WellBuilt(family, r)
    ensures RuleAccepts(RawForward(r), protocol, p) <==> r.protocol == protocol && Covers(Spans(r.matcher), p)
    ensures Verdict(RawForward(r)) == Some("REDIRECT")
    ensures RedirectPort(RawForward(r)) == Some(r.target)
  {
    var ports, target := PortArgument(r.matcher), Decimal(r.target);
    hide KernelReads, Covers, Accepts, ValueOf, DportForm, MultiportForm, RawForward, Listable, IsManaged, Decimal,
         ParsePortNumber, Spans, Readable;
    ForwardForm(family, r);
    ForwardIsWritten(family, r);
    ReadNumber(r.target);
    KernelReadsMatcher(r.matcher, p);
    MatcherIsEither(r.matcher);
    DportAccepts(r.protocol, ports, r.comment, target, protocol, p);
    MultiportAccepts(r.protocol, ports, r.comment, target, protocol, p);
  }

  lemma MatcherIsEither(m: Matcher)
    requires Readable(m)
    ensures IsDportMatcher(m) || IsMultiportMatcher(m)
  {
  }

  lemma AllowAccepts(proto: string, port: string, comment: string, protocol: string, p: Port)
    ensures var options := Body(AllowForm(proto, port, comment));
            && (Accepts(options, protocol, p) <==> proto == protocol && KernelReads(port, {':'}, p))
            && ValueOf(options, "-j") == Some("ACCEPT")
  {
    var t4: Fields := ["-j", "ACCEPT"];
    var t3 := ["--comment", comment] + t4;
    var t2 := ["-m", "comment"] + t3;
    var t1 := ["--dport", port] + t2;
    hide KernelReads, Accepts, ValueOf;
    LastOption("-j", "ACCEPT", protocol, p);
    AcceptsCons("--comment", comment, t4, protocol, p);
    AcceptsCons("-m", "comment", t3, protocol, p);
    AcceptsCons("--dport", port, t2, protocol, p);
    AcceptsCons("-p", proto, t1, protocol, p);
    ValueOfCons("--comment", comment, t4, "-j");
    ValueOfCons("-m", "comment", t3, "-j");
    ValueOfCons("--dport", port, t2, "-j");
    ValueOfCons("-p", proto, t1, "-j");
    assert Body(AllowForm(proto, port, comment)) == ["-p", proto] + t1;
  }

  lemma CoversItself(port: Port, p: Port)
    ensures Covers([PortRange(port, port)], p) <==> p == port
  {
    var range := PortRange(port, port);
    assert range in [range];
  }

  /** A written allow rule opens exactly its own port for its own protocol. */
  lemma AllowOpens(family: Family, a: AllowRule, protocol: string, p: Port)
    requires KnownAllow(family, a) && a.port > 0
    ensures Opens(RawAllow(a), protocol, p) <==> protocol == a.protocol && p == a.port
    ensures Verdict(RawAllow(a)) == Some("ACCEPT")
  {
    hide KernelReads, Listable, IsManaged, Decimal, Accepts, ValueOf, Readable, Spans, Covers, AllPlain;
    AllowIsWritten(family, a);
    SinglePortReadsBack(a.port);
    KernelReadsMatcher(SinglePortMatcher(a.port), p);
    CoversItself(a.port, p);
    AllowAccepts(a.protocol, Decimal(a.port), a.comment, protocol, p);
    assert RawAllow(a) == AllowForm(a.protocol, Decimal(a.port), a.comment);
  }

  // ----- First match over rules in sync with the plan -----

  lemma {:induction false} FirstMatchAgrees(rules: seq<Fields>, protocol: string, p: Port, target: Option<Port>)
    requires forall f :: f in rules && RuleAccepts(f, protocol, p) ==> RedirectPort(f) == target
    ensures (exists f :: f in rules && RuleAccepts(f, protocol, p)) ==> FirstMatch(rules, protocol, p) == target
    ensures !(exists f :: f in rules && RuleAccepts(f, protocol, p)) ==> FirstMatch(rules, protocol, p) == None
  {
    hide RuleAccepts, RedirectPort;
    if rules != [] {
      assert rules[0] in rules && rules == [rules[0]] + rules[1..];
      FirstMatchAgrees(rules[1..], protocol, p, target);
    }
  }

  /** Rules that do not accept the packet do not matter, wherever they stand. */
  lemma {:induction false} ForeignRulesPass(family: Family, rules: seq<Fields>, protocol: string, p: Port)
    requires forall f :: f in rules && !IsManaged(Prerouting, family, f) ==> !RuleAccepts(f, protocol, p)
    ensures FirstMatch(rules, protocol, p) == FirstMatch(Select(Prerouting, family, true, rules), protocol, p)
  {
    hide RuleAccepts, RedirectPort, IsManaged;
    if rules != [] {
      var r, tail := rules[0], rules[1..];
      assert r in rules && rules == [r] + tail;
      ForeignRulesPass(family, tail, protocol, p);
      SelectCons(Prerouting, family, true, r, tail);
      assert ([r] + Select(Prerouting, family, true, tail))[1..] == Select(Prerouting, family, true, tail);
    }
  }

  /** A listed rule in normal form of a planned rule acts like it. */
  lemma SameFormSameMeaning(f: Fields, raw: Fields, protocol: string, p: Port)
    requires Normalize(f) == Normalize(raw)
    ensures RuleAccepts(f, protocol, p) <==> RuleAccepts(raw, protocol, p)
    ensures RedirectPort(f) == RedirectPort(raw)
    ensures Opens(f, protocol, p) <==> Opens(raw, protocol, p)
    ensures Verdict(f) == Verdict(raw)
  {
  }

  /** Any accepting rule in the form of a planned rule redirects to the planned target. */
  lemma FormRedirects(family: Family, infos: seq<NodeInfo>, f: Fields, protocol: string, p: Port)
    requires HasForm(Forwards(family, infos), Normalize(f)) && RuleAccepts(f, protocol, p)
    ensures PlannedTarget(family, infos, protocol, p).Some?
    ensures RedirectPort(f) == PlannedTarget(family, infos, protocol, p)
  {
    var rules := PlanFor(family, infos).rules;
    var raw :| raw in Forwards(family, infos) && Normalize(raw) == Normalize(f);
    var i :| 0 <= i < |rules| && RawForwards(rules)[i] == raw;
    var r := rules[i];
    PlanIsExact(family, infos);
    assert r in rules;
    SameFormSameMeaning(f, raw, protocol, p);
    hide RuleAccepts, RedirectPort, Covers, PlanFor, WellBuilt;
    ForwardMeaning(family, r, protocol, p);
    assert RuledTo(rules, protocol, p, r.target);
  }

  /** A planned port is in the matcher of a built rule for its target. */
  lemma PlannedRule(family: Family, infos: seq<NodeInfo>, protocol: string, p: Port) returns (r: Rule)
    requires PlannedTarget(family, infos, protocol, p).Some?
    ensures r in PlanFor(family, infos).rules && WellBuilt(family, r)
    ensures r.protocol == protocol && Covers(Spans(r.matcher), p)
  {
    hide Covers, Spans, WellBuilt, PlanFor, PlannedTarget;
    var rules, t := PlanFor(family, infos).rules, PlannedTarget(family, infos, protocol, p).value;
    PlanIsExact(family, infos);
    assert RuledTo(rules, protocol, p, t);
    r :| r in rules && r.protocol == protocol && r.target == t && Covers(Spans(r.matcher), p);
  }

  lemma RuleIsForwarded(family: Family, infos: seq<NodeInfo>, r: Rule)
    requires r in PlanFor(family, infos).rules
    ensures RawForward(r) in Forwards(family, infos)
  {
    hide PlanFor, RawForward;
    var rules := PlanFor(family, infos).rules;
    var i :| 0 <= i < |rules| && rules[i] == r;
    assert RawForwards(rules)[i] == RawForward(r);
  }

  /** Every planned port is accepted by some rule in the form of a planned one. */
  lemma PlannedIsAccepted(family: Family, infos: seq<NodeInfo>, managed: seq<Fields>, protocol: string, p: Port)
    requires FormsWithin(Forwards(family, infos), managed)
    requires PlannedTarget(family, infos, protocol, p).Some?
    ensures exists f :: f in managed && RuleAccepts(f, protocol, p)
  {
    hide RuleAccepts, RedirectPort, Covers, Spans, PlanFor, WellBuilt, RawForward, PlannedTarget, Normalize, Forwards;
    var r := PlannedRule(family, infos, protocol, p);
    RuleIsForwarded(family, infos, r);
    assert HasForm(managed, Normalize(RawForward(r)));
    var f :| f in managed && Normalize(f) == Normalize(RawForward(r));
    ForwardMeaning(family, r, protocol, p);
    SameFormSameMeaning(f, RawForward(r), protocol, p);
  }

  /** On a clean firewall the family's rules accept exactly the planned ports, and send them to their targets. */
  lemma CleanRulesAccept(family: Family, infos: seq<NodeInfo>, s: State, protocol: string, p: Port)
    requires s.WellFormed() && AsPrinted(family, s) && Clean(family, infos, s)
    ensures var managed := Select(Prerouting, family, true, s.prerouting);
            var target := PlannedTarget(family, infos, protocol, p);
            && (target.Some? <==> exists f :: f in managed && RuleAccepts(f, protocol, p))
            && forall f :: f in managed && RuleAccepts(f, protocol, p) ==> RedirectPort(f) == target
  {
    PrintedInspectionIsExact(family, infos, s);
    var managed := Select(Prerouting, family, true, s.prerouting);
    var target := PlannedTarget(family, infos, protocol, p);
    hide RuleAccepts, RedirectPort, Forwards, Allows, IsManaged, Listable, AllWritten, StatusOf, PlannedTarget;
    forall f | f in managed && RuleAccepts(f, protocol, p) ensures target.Some? && RedirectPort(f) == target {
      FormRedirects(family, infos, f, protocol, p);
    }
    if target.Some? {
      PlannedIsAccepted(family, infos, managed, protocol, p);
    }
  }

  /**
   * End to end. Whenever the inspection of a family reports nothing, first-match traversal of its rules sends
   * every port of every protocol exactly where the plan wants it, in whatever order and however often the rules
   * stand; and rules of others that do not accept the packet change nothing.
   */
  lemma CleanFirewallRoutesAsPlanned(family: Family, infos: seq<NodeInfo>, s: State, protocol: string, p: Port)
    requires s.WellFormed() && AsPrinted(family, s) && Clean(family, infos, s)
    ensures FirstMatch(Select(Prerouting, family, true, s.prerouting), protocol, p)
         == PlannedTarget(family, infos, protocol, p)
    ensures (forall f :: f in s.prerouting && !IsManaged(Prerouting, family, f) ==> !RuleAccepts(f, protocol, p)) ==>
              FirstMatch(s.prerouting, protocol, p) == PlannedTarget(family, infos, protocol, p)
  {
    var managed := Select(Prerouting, family, true, s.prerouting);
    var target := PlannedTarget(family, infos, protocol, p);
    hide RuleAccepts, RedirectPort, IsManaged, Clean, PlannedTarget;
    CleanRulesAccept(family, infos, s, protocol, p);
    FirstMatchAgrees(managed, protocol, p, target);
    if forall f :: f in s.prerouting && !IsManaged(Prerouting, family, f) ==> !RuleAccepts(f, protocol, p) {
      ForeignRulesPass(family, s.prerouting, protocol, p);
    }
  }

  lemma {:induction false} FrontDecides(
      front: seq<Fields>, rest: seq<Fields>, protocol: string, p: Port, verdict: Option<string>)
    requires forall f :: f in front && RuleAccepts(f, protocol, p) ==> Verdict(f) == verdict
    requires exists f :: f in front && RuleAccepts(f, protocol, p)
    ensures FirstVerdict(front + rest, protocol, p) == verdict
  {
    hide RuleAccepts, Verdict;
    var head, tail := front[0], front[1..];
    assert front == [head] + tail && (front + rest)[0] == head && (front + rest)[1..] == tail + rest;
    if !RuleAccepts(head, protocol, p) {
      FrontDecides(tail, rest, protocol, p, verdict);
    }
  }

  /** A rule in the form of an allow rule of the plan accepts whatever it matches. */
  lemma AllowFormAccepts(family: Family, infos: seq<NodeInfo>, f: Fields)
    requires HasForm(Allows(family, infos), Normalize(f))
    ensures Verdict(f) == Some("ACCEPT")
  {
    var allows := AllowRules(family, infos);
    AllowRulesAreKnown(family, infos);
    hide Verdict, AllowRules, KnownAllow, Normalize;
    var raw :| raw in Allows(family, infos) && Normalize(raw) == Normalize(f);
    var i :| 0 <= i < |allows| && Allows(family, infos)[i] == raw;
    var a := allows[i];
    assert a in allows && raw == RawAllow(a);
    AllowPortsArePositive(family, infos, a);
    AllowOpens(family, a, "udp", 1);
    SameFormSameMeaning(f, raw, "udp", 1);
  }

  /** Some rule opens every planned target, where every allow rule has its form. */
  lemma TargetIsOpened(family: Family, infos: seq<NodeInfo>, managed: seq<Fields>, protocol: string, p: Port)
    requires FormsWithin(Allows(family, infos), managed) && PlannedTarget(family, infos, protocol, p).Some?
    ensures exists f :: f in managed && Opens(f, protocol, PlannedTarget(family, infos, protocol, p).value)
  {
    var t := PlannedTarget(family, infos, protocol, p).value;
    var a, allows := AllowRule(protocol, t, family.Comment()), AllowRules(family, infos);
    TargetsAreAllowed(family, infos, protocol, p);
    TargetIsPositive(family, infos, protocol, p);
    AllowRulesAreKnown(family, infos);
    hide AllowRules, PlannedTarget, Opens, Normalize;
    AllowOpens(family, a, protocol, t);
    var i :| 0 <= i < |allows| && allows[i] == a;
    assert RawAllows(allows)[i] == RawAllow(a) && RawAllow(a) in Allows(family, infos);
    assert HasForm(managed, Normalize(RawAllow(a)));
    var f :| f in managed && Normalize(f) == Normalize(RawAllow(a));
    SameFormSameMeaning(f, RawAllow(a), protocol, t);
  }

  /** Rules that do not match the packet do not matter, wherever they stand. */
  lemma {:induction false} ForeignVerdictsPass(family: Family, rules: seq<Fields>, protocol: string, p: Port)
    requires forall f :: f in rules && !IsManaged(Input, family, f) ==> !RuleAccepts(f, protocol, p)
    ensures FirstVerdict(rules, protocol, p) == FirstVerdict(Select(Input, family, true, rules), protocol, p)
  {
    hide RuleAccepts, Verdict, IsManaged;
    if rules != [] {
      var r, tail := rules[0], rules[1..];
      assert r in rules && rules == [r] + tail;
      ForeignVerdictsPass(family, tail, protocol, p);
      SelectCons(Input, family, true, r, tail);
      assert ([r] + Select(Input, family, true, tail))[1..] == Select(Input, family, true, tail);
    }
  }

  /**
   * On a clean firewall first match over the family's rules in INPUT accepts every planned target, and so does the
   * whole chain when no other rule matches the packet.
   */
  lemma CleanFirewallOpensTargets(family: Family, infos: seq<NodeInfo>, s: State, protocol: string, p: Port)
    requires s.WellFormed() && AsPrinted(family, s) && Clean(family, infos, s)
    requires PlannedTarget(family, infos, protocol, p).Some?
    ensures var t := PlannedTarget(family, infos, protocol, p).value;
            && (exists f :: f in s.input && IsManaged(Input, family, f) && Opens(f, protocol, t))
            && FirstVerdict(Select(Input, family, true, s.input), protocol, t) == Some("ACCEPT")
            && ((forall f :: f in s.input && !IsManaged(Input, family, f) ==> !RuleAccepts(f, protocol, t)) ==>
                  FirstVerdict(s.input, protocol, t) == Some("ACCEPT"))
  {
    var t, managed := PlannedTarget(family, infos, protocol, p).value, Select(Input, family, true, s.input);
    hide RuleAccepts, Verdict, IsManaged, Clean, PlannedTarget, Allows, AsPrinted, State.WellFormed, Normalize;
    PrintedInspectionIsExact(family, infos, s);
    TargetIsOpened(family, infos, managed, protocol, p);
    forall f | f in managed ensures Verdict(f) == Some("ACCEPT") {
      AllowFormAccepts(family, infos, f);
    }
    AddNothing(managed);
    FrontDecides(managed, [], protocol, t, Some("ACCEPT"));
    if forall f :: f in s.input && !IsManaged(Input, family, f) ==> !RuleAccepts(f, protocol, t) {
      ForeignVerdictsPass(family, s.input, protocol, t);
    }
  }

  /** The kernel's form of an allow rule the plan writes accepts whatever it matches. */
  lemma WrittenAllowAccepts(echo: Echo, family: Family, infos: seq<NodeInfo>, e: Fields)
    requires FaithfulEcho(echo) && e in Echoes(echo, Allows(family, infos))
    ensures Verdict(e) == Some("ACCEPT")
  {
    var raws := Allows(family, infos);
    PlanIsWritten(family, infos);
    hide Verdict, Allows, Written, Normalize, FaithfulEcho;
    var i :| 0 <= i < |raws| && Echoes(echo, raws)[i] == e;
    assert raws[i] in raws;
    EchoKeepsForm(echo, Input, family, raws[i]);
    AllowFormAccepts(family, infos, e);
  }

  lemma AllowPortsArePositive(family: Family, infos: seq<NodeInfo>, a: AllowRule)
    requires a in AllowRules(family, infos)
    ensures a.port > 0
  {
    if family.HysteriaFamily? {
      var ports := Ascending(TargetPorts(family, "udp", infos));
      var i :| 0 <= i < |ports| && AllowRules(family, infos)[i] == a;
      assert ports[i] in TargetPorts(family, "udp", infos);
    } else {
      PlanIsExact(family, infos);
      MieruAllowsIsExact(family, PlanFor(family, infos).rules);
    }
  }

  /** A repair puts its allow rules in front, so INPUT lets every planned target through, whatever stands behind. */
  lemma RepairedOpensTargets(
      echo: Echo, family: Family, infos: seq<NodeInfo>, s: State, protocol: string, p: Port)
    requires FaithfulEcho(echo) && PlannedTarget(family, infos, protocol, p).Some?
    ensures FirstVerdict(Repaired(echo, family, s, Forwards(family, infos), Allows(family, infos)).input,
                         protocol, PlannedTarget(family, infos, protocol, p).value) == Some("ACCEPT")
  {
    var t, front := PlannedTarget(family, infos, protocol, p).value, Reverse(Echoes(echo, Allows(family, infos)));
    hide RuleAccepts, Verdict, Allows, PlannedTarget, FaithfulEcho, Select;
    FrontOpens(echo, family, infos, protocol, p);
    FrontDecides(front, Select(Input, family, false, s.input), protocol, t, Some("ACCEPT"));
  }

  lemma FrontOpens(echo: Echo, family: Family, infos: seq<NodeInfo>, protocol: string, p: Port)
    requires FaithfulEcho(echo) && PlannedTarget(family, infos, protocol, p).Some?
    ensures var front := Reverse(Echoes(echo, Allows(family, infos)));
            && (forall f :: f in front ==> Verdict(f) == Some("ACCEPT"))
            && exists f :: f in front && RuleAccepts(f, protocol, PlannedTarget(family, infos, protocol, p).value)
  {
    var t := PlannedTarget(family, infos, protocol, p).value;
    var a, front := AllowRule(protocol, t, family.Comment()), Reverse(Echoes(echo, Allows(family, infos)));
    ReverseIsSame(Echoes(echo, Allows(family, infos)));
    TargetsAreAllowed(family, infos, protocol, p);
    hide RuleAccepts, Verdict, AllowRules, PlannedTarget, FaithfulEcho;
    forall f | f in front ensures Verdict(f) == Some("ACCEPT") {
      WrittenAllowAccepts(echo, family, infos, f);
    }
    var f := AllowIsAmongEchoes(echo, family, infos, a);
    AllowRuleOpens(echo, family, infos, a, f);
  }

  /** A repair of Mieru leaves the rules an HY2 repair put in front where they are, behind its own. */
  lemma FrontStays(echo: Echo, infos: seq<NodeInfo>, rest: seq<Fields>)
    requires FaithfulEcho(echo)
    ensures var front := Reverse(Echoes(echo, Allows(HysteriaFamily, infos)));
            Select(Input, MieruFamily, false, front + rest) == front + Select(Input, MieruFamily, false, rest)
  {
    var allows := Allows(HysteriaFamily, infos);
    var front := Reverse(Echoes(echo, allows));
    PlanIsWritten(HysteriaFamily, infos);
    hide Allows, Written, FaithfulEcho, Listable, IsManaged, Select, AllPlain;
    EchoesAreMarked(echo, Input, HysteriaFamily, allows);
    ReverseIsSame(Echoes(echo, allows));
    SelectConcat(Input, MieruFamily, false, front, rest);
    SelectAll(Input, MieruFamily, false, front);
  }

  /** Two blocks of accepting rules in front, the second of which matches the packet. */
  lemma SecondDecides(a: seq<Fields>, b: seq<Fields>, rest: seq<Fields>, protocol: string, p: Port)
    requires forall f :: f in a || f in b ==> Verdict(f) == Some("ACCEPT")
    requires exists f :: f in b && RuleAccepts(f, protocol, p)
    ensures FirstVerdict(a + (b + rest), protocol, p) == Some("ACCEPT")
  {
    hide Verdict, RuleAccepts, FirstVerdict;
    ConcatMembers(a, b);
    ConcatTail(a, b, rest);
    FrontDecides(a + b, rest, protocol, p, Some("ACCEPT"));
  }

  /** What Mieru's repair puts in front of an HY2 repair's rules accepts as well, so HY2's targets stay open. */
  lemma BothRepairsOpen(echo: Echo, infos: seq<NodeInfo>, s: State, protocol: string, p: Port)
    requires FaithfulEcho(echo) && PlannedTarget(HysteriaFamily, infos, protocol, p).Some?
    ensures var hysteria := Repaired(echo, HysteriaFamily, s, Forwards(HysteriaFamily, infos),
                                     Allows(HysteriaFamily, infos));
            var both := Repaired(echo, MieruFamily, hysteria, Forwards(MieruFamily, infos),
                                 Allows(MieruFamily, infos));
            FirstVerdict(both.input, protocol, PlannedTarget(HysteriaFamily, infos, protocol, p).value)
              == Some("ACCEPT")
  {
    var t := PlannedTarget(HysteriaFamily, infos, protocol, p).value;
    var a := Reverse(Echoes(echo, Allows(MieruFamily, infos)));
    var b := Reverse(Echoes(echo, Allows(HysteriaFamily, infos)));
    var rest := Select(Input, HysteriaFamily, false, s.input);
    hide RuleAccepts, Verdict, Allows, Forwards, PlannedTarget, FaithfulEcho, Select, FirstVerdict;
    FrontOpens(echo, HysteriaFamily, infos, protocol, p);
    FrontStays(echo, infos, rest);
    ReverseIsSame(Echoes(echo, Allows(MieruFamily, infos)));
    forall f | f in a ensures Verdict(f) == Some("ACCEPT") {
      WrittenAllowAccepts(echo, MieruFamily, infos, f);
    }
    SecondDecides(a, b, Select(Input, MieruFamily, false, rest), protocol, t);
  }

  /**
   * After a control round first match over the whole INPUT chain accepts every planned target of a family whose
   * report asked for a repair at its turn, whatever other rules stand there.
   */
  lemma RoundOpensTargets(echo: Echo, infos: seq<NodeInfo>, s: State, family: Family, protocol: string, p: Port)
    requires FaithfulEcho(echo) && PlannedTarget(family, infos, protocol, p).Some?
    requires !Clean(family, infos, AtItsTurn(family, echo, infos, s))
    ensures FirstVerdict(AfterRound(echo, infos, s).input, protocol,
                         PlannedTarget(family, infos, protocol, p).value) == Some("ACCEPT")
  {
    hide RuleAccepts, Verdict, PlannedTarget, FaithfulEcho, FirstVerdict, Repaired, PlanStatus;
    RepairedOpensTargets(echo, family, infos, AtItsTurn(family, echo, infos, s), protocol, p);
    if family.HysteriaFamily? {
      BothRepairsOpen(echo, infos, s, protocol, p);
    }
  }

  lemma AllowIsAmongEchoes(echo: Echo, family: Family, infos: seq<NodeInfo>, a: AllowRule) returns (e: Fields)
    requires a in AllowRules(family, infos)
    ensures e == echo(RawAllow(a)) && e in Echoes(echo, Allows(family, infos))
  {
    var allows := AllowRules(family, infos);
    var i :| 0 <= i < |allows| && allows[i] == a;
    e := Echoes(echo, Allows(family, infos))[i];
  }

  lemma AllowRuleOpens(echo: Echo, family: Family, infos: seq<NodeInfo>, a: AllowRule, e: Fields)
    requires FaithfulEcho(echo) && a in AllowRules(family, infos) && e == echo(RawAllow(a))
    ensures RuleAccepts(e, a.protocol, a.port)
  {
    hide AllowRules, FaithfulEcho, Written, Normalize, KnownAllow;
    AllowRulesAreKnown(family, infos);
    AllowPortsArePositive(family, infos, a);
    AllowIsWritten(family, a);
    EchoKeepsForm(echo, Input, family, RawAllow(a));
    AllowOpens(family, a, a.protocol, a.port);
    SameFormSameMeaning(e, RawAllow(a), a.protocol, a.port);
  }

  lemma TargetIsPositive(family: Family, infos: seq<NodeInfo>, protocol: string, p: Port)
    requires PlannedTarget(family, infos, protocol, p).Some?
    ensures PlannedTarget(family, infos, protocol, p).value > 0
  {
    FirstClaimerServes(family, protocol, infos, |infos|, p);
  }

  /** A control round that leaves a family's rules plain to read makes them route every port as planned. */
  lemma PlainRoundRoutesAsPlanned(
      echo: Echo, infos: seq<NodeInfo>, s: State, family: Family, protocol: string, p: Port)
    requires FaithfulEcho(echo) && s.WellFormed()
    requires WillReadPlainly(family, infos, AtItsTurn(family, echo, infos, s))
    ensures FirstMatch(Select(Prerouting, family, true, AfterRound(echo, infos, s).prerouting), protocol, p)
         == PlannedTarget(family, infos, protocol, p)
  {
    hide AfterRound, PlannedTarget, FirstMatch, FaithfulEcho, Clean, ReadsPlainly, AsPrinted, WillReadPlainly;
    RoundSettles(echo, infos, s);
    RoundReadsPlainly(echo, family, infos, s);
    assert family == HysteriaFamily || family == MieruFamily;
    PlainIsPrinted(family, AfterRound(echo, infos, s));
    CleanFirewallRoutesAsPlanned(family, infos, AfterRound(echo, infos, s), protocol, p);
  }

  /** From any firewall that iptables prints, one control round makes each family's rules route as planned. */
  lemma RoundRoutesAsPlanned(echo: Echo, infos: seq<NodeInfo>, s: State, family: Family, protocol: string, p: Port)
    requires FaithfulEcho(echo) && s.WellFormed() && AsPrinted(family, s)
    ensures FirstMatch(Select(Prerouting, family, true, AfterRound(echo, infos, s).prerouting), protocol, p)
         == PlannedTarget(family, infos, protocol, p)
  {
    hide AfterRound, PlannedTarget, FirstMatch, FaithfulEcho, AsPrinted, WillReadPlainly, State.WellFormed;
    PrintedWillReadPlainly(echo, family, infos, s);
    PlainRoundRoutesAsPlanned(echo, infos, s, family, protocol, p);
  }

  // ----- Across families -----

  lemma {:induction false} FirstMatchIsOneOf(
      rules: seq<Fields>, protocol: string, p: Port, a: Option<Port>, b: Option<Port>)
    requires forall f :: f in rules && RuleAccepts(f, protocol, p) ==>
               (a.Some? && RedirectPort(f) == a) || (b.Some? && RedirectPort(f) == b)
    ensures if exists f :: f in rules && RuleAccepts(f, protocol, p)
            then FirstMatch(rules, protocol, p).Some? && FirstMatch(rules, protocol, p) in {a, b}
            else FirstMatch(rules, protocol, p) == None
  {
    hide RuleAccepts, RedirectPort;
    if rules != [] {
      assert rules[0] in rules && rules == [rules[0]] + rules[1..];
      FirstMatchIsOneOf(rules[1..], protocol, p, a, b);
    }
  }

  /** The plan is served when a port it wants forwarded is forwarded to its target. */
  predicate ServedBy(plan: Option<Port>, actual: Option<Port>) {
    plan.Some? ==> actual == plan
  }

  /**
   * With both families clean and no other rule in the way, the whole PREROUTING chain sends each port where one of
   * the two plans wants it; it serves both plans exactly when they do not want the port sent to different targets.
   */
  lemma BothFamiliesServedExactly(infos: seq<NodeInfo>, s: State, protocol: string, p: Port)
    requires s.WellFormed() && AsPrinted(HysteriaFamily, s) && AsPrinted(MieruFamily, s)
    requires Clean(HysteriaFamily, infos, s) && Clean(MieruFamily, infos, s)
    requires forall f :: f in s.prerouting && RuleAccepts(f, protocol, p) ==>
               IsManaged(Prerouting, HysteriaFamily, f) || IsManaged(Prerouting, MieruFamily, f)
    ensures var h := PlannedTarget(HysteriaFamily, infos, protocol, p);
            var m := PlannedTarget(MieruFamily, infos, protocol, p);
            var actual := FirstMatch(s.prerouting, protocol, p);
            && actual in {h, m}
            && (ServedBy(h, actual) && ServedBy(m, actual) <==> h.None? || m.None? || h == m)
  {
    var h := PlannedTarget(HysteriaFamily, infos, protocol, p);
    var m := PlannedTarget(MieruFamily, infos, protocol, p);
    CleanRulesAccept(HysteriaFamily, infos, s, protocol, p);
    CleanRulesAccept(MieruFamily, infos, s, protocol, p);
    hide RuleAccepts, RedirectPort, IsManaged, PlannedTarget, Select, Clean, FirstMatch;
    FirstMatchIsOneOf(s.prerouting, protocol, p, h, m);
  }

  lemma {:induction false} WithoutNothing(s: string)
    requires IsPlain(s)
    ensures Without(Trim(s), ' ') == s && Trim(s) == s
  {
    TrimNothing(s);
    WithoutAbsent(s, ' ');
  }

  /** The plan of a single node that asks for one port. */
  lemma OnePortNode(family: Family, protocol: string, infos: seq<NodeInfo>, k: nat, p: Port)
    requires k < |infos| && p > 0 && Serves(family, protocol, infos[k])
    requires infos[k].port == infos[k].ports == Decimal(p)
    requires forall i :: 0 <= i < |infos| && i != k ==> infos[i].protocol != family.NodeProtocol()
    requires infos[k].serverPort != p
    ensures PlannedTarget(family, infos, protocol, p) == Some(infos[k].serverPort)
  {
    DecimalIsPlain(p);
    WithoutNothing(Decimal(p));
    SinglePortReadsBack(p);
    assert NamedPorts(Decimal(p)) == Ok([PortRange(p, p)]);
    assert PortRange(p, p) in [PortRange(p, p)];
    assert Claims(family, protocol, infos[k], p);
    NoClaimerBefore(family, protocol, infos, k, k, p);
    OnlyClaimer(family, protocol, infos, k, |infos|, p);
  }

  lemma {:induction false} OnlyClaimer(
      family: Family, protocol: string, infos: seq<NodeInfo>, k: nat, n: nat, p: Port)
    requires k < n <= |infos| && Claims(family, protocol, infos[k], p)
    requires FirstClaimer(family, protocol, infos, k, p).None?
    ensures FirstClaimer(family, protocol, infos, n, p) == Some(infos[k].serverPort)
  {
    hide Claims;
    if n > k + 1 {
      OnlyClaimer(family, protocol, infos, k, n - 1, p);
    }
  }

  lemma {:induction false} NoClaimerBefore(
      family: Family, protocol: string, infos: seq<NodeInfo>, k: nat, n: nat, p: Port)
    requires n <= k < |infos|
    requires forall i :: 0 <= i < |infos| && i != k ==> infos[i].protocol != family.NodeProtocol()
    ensures FirstClaimer(family, protocol, infos, n, p).None?
  {
    if n > 0 {
      NoClaimerBefore(family, protocol, infos, k, n - 1, p);
    }
  }

  /**
   * The no-conflict guarantee stops at the family: an HY2 node and a Mieru node on udp that ask for the same
   * port are both planned for it, with different targets.
   */
  lemma FamiliesMayCollide(p: Port, a: Port, b: Port)
    requires p > 0 && a > 0 && b > 0 && p != a && p != b && a != b
    ensures var text := Decimal(p);
            var infos := [NodeInfo(1, Hysteria2, a, text, text, ""), NodeInfo(2, Mieru, b, text, text, "UDP")];
            && PlannedTarget(HysteriaFamily, infos, "udp", p) == Some(a)
            && PlannedTarget(MieruFamily, infos, "udp", p) == Some(b)
  {
    var text := Decimal(p);
    var infos := [NodeInfo(1, Hysteria2, a, text, text, ""), NodeInfo(2, Mieru, b, text, text, "UDP")];
    TrimNothing("UDP");
    assert ToUpperAscii("UDP") == "UDP";
    OnePortNode(HysteriaFamily, "udp", infos, 0, p);
    OnePortNode(MieruFamily, "udp", infos, 1, p);
  }
}
