// The firewall rules a plan stands for: their text, and that each carries its own family's mark only.
module RuleSpecs {
  import opened Sequences
  import opened Text
  import opened PortText
  import opened PortPlanner
  import opened SpecText
  import opened ManagedRules

  // ----- The rules a plan stands for -----

  /** The ports the INPUT chain must accept: HY2 opens every server port, Mieru every planned target. */
  function AllowRules(family: Family, infos: seq<NodeInfo>): seq<AllowRule> {
    if family.HysteriaFamily? then HysteriaAllows(Ascending(TargetPorts(family, "udp", infos)))
    else MieruAllows(PlanFor(family, infos).rules)
  }

  function HysteriaAllows(ports: seq<Port>): (r: seq<AllowRule>)
    ensures |r| == |ports|
    ensures forall i :: 0 <= i < |ports| ==> r[i] == AllowRule("udp", ports[i], HYSTERIA_COMMENT)
  {
    seq(|ports|, i requires 0 <= i < |ports| => AllowRule("udp", ports[i], HYSTERIA_COMMENT))
  }

  function AllowOf(r: Rule): AllowRule {
    AllowRule(r.protocol, r.target, r.comment)
  }

  function AllowKey(r: Rule): string {
    r.protocol + "|" + Decimal(r.target) + "|" + r.comment
  }

  /** One allow rule per protocol and target, at the first rule that needs it. */
  function MieruAllows(rules: seq<Rule>): seq<AllowRule> {
    if rules == [] then []
    else
      var init, r := rules[..|rules| - 1], rules[|rules| - 1];
      if exists s :: s in init && AllowKey(s) == AllowKey(r) then MieruAllows(init)
      else MieruAllows(init) + [AllowOf(r)]
  }

  function RawForward(r: Rule): Fields {
    ["-A", "PREROUTING", "-p", r.protocol] + r.matcher.args
    + ["-m", "comment", "--comment", r.comment, "-j", "REDIRECT", "--to-ports", Decimal(r.target)]
  }

  function RawAllow(r: AllowRule): Fields {
    ["-A", "INPUT", "-p", r.protocol, "--dport", Decimal(r.port), "-m", "comment", "--comment", r.comment,
     "-j", "ACCEPT"]
  }

  /** The rules of both chains as the agent writes them, before normalisation. */
  function RawForwards(rules: seq<Rule>): (r: seq<Fields>)
    ensures |r| == |rules| && forall i :: 0 <= i < |rules| ==> r[i] == RawForward(rules[i])
  {
    seq(|rules|, i requires 0 <= i < |rules| => RawForward(rules[i]))
  }

  function RawAllows(allows: seq<AllowRule>): (r: seq<Fields>)
    ensures |r| == |allows| && forall i :: 0 <= i < |allows| ==> r[i] == RawAllow(allows[i])
  {
    seq(|allows|, i requires 0 <= i < |allows| => RawAllow(allows[i]))
  }

  // ----- Their shape -----

  predicate KnownAllow(family: Family, a: AllowRule) {
    (a.protocol == "udp" || a.protocol == "tcp") && a.comment == family.Comment()
  }

  /** A rule the agent writes: plain, shaped, already normal, carrying this family's mark and no other. */
  predicate Written(chain: Chain, family: Family, raw: Fields) {
    && Listable(chain, raw)
    && AllPlain(raw)
    && Normalize(raw) == raw
    && IsManaged(chain, HysteriaFamily, raw) == family.HysteriaFamily?
    && IsManaged(chain, MieruFamily, raw) == family.MieruFamily?
    && !HasPair(Body(raw), "-j", HYSTERIA_CHAIN)
  }

  predicate AllWritten(chain: Chain, family: Family, raws: seq<Fields>) {
    forall raw :: raw in raws ==> Written(chain, family, raw)
  }

  lemma PlainIsListable(s: string)
    requires IsPlain(s)
    ensures ListableField(s)
  {
  }

  /** A word that starts with a digit, such as a port argument. */
  predicate DigitWord(s: string) {
    IsPlain(s) && IsDigit(s[0])
  }

  predicate KnownWords(protocol: string, comment: string) {
    && (protocol == "udp" || protocol == "tcp")
    && (comment == HYSTERIA_COMMENT || comment == MIERU_COMMENT)
  }

  function DportForm(protocol: string, ports: string, comment: string, target: string): Fields {
    ["-A", "PREROUTING", "-p", protocol, "--dport", ports,
     "-m", "comment", "--comment", comment, "-j", "REDIRECT", "--to-ports", target]
  }

  function MultiportForm(protocol: string, ports: string, comment: string, target: string): Fields {
    ["-A", "PREROUTING", "-p", protocol, "-m", "multiport", "--dports", ports,
     "-m", "comment", "--comment", comment, "-j", "REDIRECT", "--to-ports", target]
  }

  function AllowForm(protocol: string, port: string, comment: string): Fields {
    ["-A", "INPUT", "-p", protocol, "--dport", port, "-m", "comment", "--comment", comment, "-j", "ACCEPT"]
  }

  // The three option words that inspection and normalisation look at; every other word is Neutral.
  datatype Role = MatchFlag | CommentFlag | JumpFlag | Neutral

  function RoleOf(word: string): Role {
    if word == "-m" then MatchFlag
    else if word == "--comment" then CommentFlag
    else if word == "-j" then JumpFlag
    else Neutral
  }

  predicate NeutralWord(word: string) {
    IsPlain(word) && RoleOf(word).Neutral?
  }

  lemma OptionWords()
    ensures IsPlain("-m") && IsPlain("--comment") && IsPlain("-j")
    ensures RoleOf("-m").MatchFlag? && RoleOf("--comment").CommentFlag? && RoleOf("-j").JumpFlag?
    ensures NeutralWord("-A") && NeutralWord("-p") && NeutralWord("--dport") && NeutralWord("--dports")
  {
  }

  lemma ChainNames()
    ensures NeutralWord("PREROUTING") && NeutralWord("INPUT")
  {
  }

  lemma MatchNames()
    ensures NeutralWord("multiport") && NeutralWord("comment")
  {
  }

  lemma JumpNames()
    ensures NeutralWord("REDIRECT") && NeutralWord("ACCEPT") && NeutralWord("--to-ports")
  {
  }

  lemma ValueConstants()
    ensures NeutralWord("PREROUTING") && NeutralWord("INPUT") && NeutralWord("multiport") && NeutralWord("comment")
    ensures NeutralWord("REDIRECT") && NeutralWord("ACCEPT") && NeutralWord("--to-ports")
  {
    hide NeutralWord;
    ChainNames();
    MatchNames();
    JumpNames();
  }

  lemma ValueWords(protocol: string, comment: string, number: string)
    requires KnownWords(protocol, comment) && DigitWord(number)
    ensures NeutralWord(protocol) && NeutralWord(comment) && NeutralWord(number)
  {
  }

  /** Where the option words of a written rule stand; everything else follows from this. */
  predicate OptionsAt(raw: Fields, matches: set<int>, comment: int, jump: int) {
    && AllPlain(raw)
    && (forall i :: 0 <= i < |raw| ==>
          && (RoleOf(raw[i]).MatchFlag? ==> i in matches)
          && (RoleOf(raw[i]).CommentFlag? ==> i == comment)
          && (RoleOf(raw[i]).JumpFlag? ==> i == jump))
  }

  lemma DportOptions(protocol: string, ports: string, comment: string, target: string)
    requires KnownWords(protocol, comment) && DigitWord(ports) && DigitWord(target)
    ensures OptionsAt(DportForm(protocol, ports, comment, target), {6}, 8, 10)
  {
    OptionWords();
    ValueConstants();
    ValueWords(protocol, comment, ports);
    ValueWords(protocol, comment, target);
    hide RoleOf, IsPlain, DigitWord, KnownWords;
  }

  lemma MultiportOptions(protocol: string, ports: string, comment: string, target: string)
    requires KnownWords(protocol, comment) && DigitWord(ports) && DigitWord(target)
    ensures OptionsAt(MultiportForm(protocol, ports, comment, target), {4, 8}, 10, 12)
  {
    OptionWords();
    ValueConstants();
    ValueWords(protocol, comment, ports);
    ValueWords(protocol, comment, target);
    hide RoleOf, IsPlain, DigitWord, KnownWords;
  }

  lemma AllowOptions(protocol: string, port: string, comment: string)
    requires KnownWords(protocol, comment) && DigitWord(port)
    ensures OptionsAt(AllowForm(protocol, port, comment), {6}, 8, 10)
  {
    OptionWords();
    ValueConstants();
    ValueWords(protocol, comment, port);
    hide RoleOf, IsPlain, DigitWord, KnownWords;
  }

  predicate PlainMatches(raw: Fields, matches: set<int>) {
    forall i :: i in matches ==> 0 <= i < |raw| - 1 && raw[i + 1] != "-m" && !IsTransport(raw[i + 1])
  }

  lemma OptionsShape(chain: Chain, raw: Fields, matches: set<int>, comment: int, jump: int)
    requires |raw| >= 4 && raw[0] == "-A" && raw[1] == chain.Name()
    requires OptionsAt(raw, matches, comment, jump) && PlainMatches(raw, matches)
    requires 2 <= comment < |raw| - 1 && raw[comment + 1] != "-m"
    requires 2 <= jump < |raw| - 1 && raw[jump + 1] != "-m"
    ensures Listable(chain, raw) && Normalize(raw) == raw
  {
    PlainIsQuoteFree(raw);
    OptionsShaped(raw, matches, comment, jump);
    assert AllPlain(raw);
    forall i | 0 <= i < |raw| ensures ListableField(raw[i]) {
      PlainIsListable(raw[i]);
    }
    hide OptionsAt, PlainMatches, Shaped, ListableField, IsImplicitMatch, IsManaged, AllPlain;
    NormalizeIsDrop(raw);
    DropNothing(raw);
  }

  lemma OptionWordAt(raw: Fields, matches: set<int>, comment: int, jump: int, i: nat)
    requires OptionsAt(raw, matches, comment, jump) && i < |raw|
    ensures raw[i] == "-m" ==> i in matches
    ensures raw[i] == "--comment" ==> i == comment
    ensures raw[i] == "-j" ==> i == jump
  {
    hide AllPlain;
  }

  lemma OptionsShaped(raw: Fields, matches: set<int>, comment: int, jump: int)
    requires OptionsAt(raw, matches, comment, jump) && PlainMatches(raw, matches)
    requires 2 <= comment < |raw| - 1 && raw[comment + 1] != "-m"
    requires 2 <= jump < |raw| - 1 && raw[jump + 1] != "-m"
    ensures Shaped(raw)
    ensures forall i :: 0 <= i < |raw| ==> !IsImplicitMatch(raw, i)
  {
    hide OptionsAt, IsTransport;
    forall i | 0 <= i < |raw| && (raw[i] == "-m" || raw[i] == "-j" || raw[i] == "--comment")
      ensures i + 1 < |raw| && raw[i + 1] != "-m"
    {
      OptionWordAt(raw, matches, comment, jump, i);
    }
    forall i | 0 <= i < |raw| ensures !IsImplicitMatch(raw, i) {
      OptionWordAt(raw, matches, comment, jump, i);
    }
  }

  /** Pairs behind an option word sit where the option word does. */
  lemma PairAtOption(raw: Fields, matches: set<int>, comment: int, jump: int, a: string, b: string)
    requires |raw| >= 2 && OptionsAt(raw, matches, comment, jump)
    requires 2 <= comment < |raw| - 1 && raw[comment] == "--comment"
    requires 2 <= jump < |raw| - 1 && raw[jump] == "-j"
    ensures a == "--comment" ==> (HasPair(Body(raw), a, b) <==> raw[comment + 1] == b)
    ensures a == "-j" ==> (HasPair(Body(raw), a, b) <==> raw[jump + 1] == b)
  {
    hide OptionsAt, HasPair, Body;
    PairsAt(raw, a, b);
    forall i | 0 <= i < |raw| ensures (raw[i] == "--comment" ==> i == comment) && (raw[i] == "-j" ==> i == jump) {
      OptionWordAt(raw, matches, comment, jump, i);
    }
  }

  /**
   * A plain rule whose only comment is the family's, whose jump is not to the user chain, and whose matches
   * are neither udp nor tcp, is one the agent can write.
   */
  lemma OptionsMakeWritten(chain: Chain, family: Family, raw: Fields, matches: set<int>, comment: int, jump: int)
    requires |raw| >= 4 && raw[0] == "-A" && raw[1] == chain.Name()
    requires OptionsAt(raw, matches, comment, jump) && PlainMatches(raw, matches)
    requires 2 <= comment < |raw| - 1 && raw[comment] == "--comment" && raw[comment + 1] == family.Comment()
    requires 2 <= jump < |raw| - 1 && raw[jump] == "-j" && raw[jump + 1] != "-m" && raw[jump + 1] != HYSTERIA_CHAIN
    requires chain.Input? ==> raw[jump + 1] == "ACCEPT"
    ensures Written(chain, family, raw)
  {
    OptionsShape(chain, raw, matches, comment, jump);
    PairAtOption(raw, matches, comment, jump, "-j", HYSTERIA_CHAIN);
    PairAtOption(raw, matches, comment, jump, "-j", "ACCEPT");
    PairAtOption(raw, matches, comment, jump, "--comment", HYSTERIA_COMMENT);
    PairAtOption(raw, matches, comment, jump, "--comment", MIERU_COMMENT);
    ManagedMeansPairs(chain, HysteriaFamily, raw);
    ManagedMeansPairs(chain, MieruFamily, raw);
    hide Listable, IsManaged, HasPair, PlainMatches;
  }

  lemma DportIsWritten(family: Family, protocol: string, ports: string, target: string)
    requires KnownWords(protocol, family.Comment()) && DigitWord(ports) && DigitWord(target)
    ensures Written(Prerouting, family, DportForm(protocol, ports, family.Comment(), target))
  {
    DportOptions(protocol, ports, family.Comment(), target);
    hide Written, OptionsAt, IsPlain;
    OptionsMakeWritten(Prerouting, family, DportForm(protocol, ports, family.Comment(), target), {6}, 8, 10);
  }

  lemma MultiportIsWritten(family: Family, protocol: string, ports: string, target: string)
    requires KnownWords(protocol, family.Comment()) && DigitWord(ports) && DigitWord(target)
    ensures Written(Prerouting, family, MultiportForm(protocol, ports, family.Comment(), target))
  {
    MultiportOptions(protocol, ports, family.Comment(), target);
    hide Written, OptionsAt, IsPlain;
    OptionsMakeWritten(Prerouting, family, MultiportForm(protocol, ports, family.Comment(), target), {4, 8}, 10, 12);
  }

  /** A built rule is written in one of the two matcher forms. */
  lemma ForwardForm(family: Family, r: Rule)
    requires WellBuilt(family, r)
    ensures KnownWords(r.protocol, r.comment) && r.comment == family.Comment()
    ensures DigitWord(PortArgument(r.matcher)) && DigitWord(Decimal(r.target))
    ensures IsDportMatcher(r.matcher) ==>
              RawForward(r) == DportForm(r.protocol, PortArgument(r.matcher), r.comment, Decimal(r.target))
    ensures !IsDportMatcher(r.matcher) ==>
              RawForward(r) == MultiportForm(r.protocol, PortArgument(r.matcher), r.comment, Decimal(r.target))
  {
    hide PortsNamedBy, Spans, IsPlain, IsDigit, Decimal, RawForward, DportForm, MultiportForm;
    DecimalIsPlain(r.target);
    var args, ports := r.matcher.args, PortArgument(r.matcher);
    if IsDportMatcher(r.matcher) {
      assert args == ["--dport", ports];
      DportText(r, ports);
    } else {
      assert args == args[..3] + [ports];
      assert args == ["-m", "multiport", "--dports", ports];
      MultiportText(r, ports);
    }
  }

  lemma DportText(r: Rule, ports: string)
    requires r.matcher.args == ["--dport", ports]
    ensures RawForward(r) == DportForm(r.protocol, ports, r.comment, Decimal(r.target))
  {
    hide Decimal;
  }

  lemma MultiportText(r: Rule, ports: string)
    requires r.matcher.args == ["-m", "multiport", "--dports", ports]
    ensures RawForward(r) == MultiportForm(r.protocol, ports, r.comment, Decimal(r.target))
  {
    hide Decimal;
  }

  lemma ForwardIsWritten(family: Family, r: Rule)
    requires WellBuilt(family, r)
    ensures Written(Prerouting, family, RawForward(r))
  {
    ForwardForm(family, r);
    hide Written, RawForward, WellBuilt, Family.Comment;
    if IsDportMatcher(r.matcher) {
      DportIsWritten(family, r.protocol, PortArgument(r.matcher), Decimal(r.target));
    } else {
      MultiportIsWritten(family, r.protocol, PortArgument(r.matcher), Decimal(r.target));
    }
  }

  lemma AllowIsWritten(family: Family, a: AllowRule)
    requires KnownAllow(family, a)
    ensures Written(Input, family, RawAllow(a))
  {
    DecimalIsPlain(a.port);
    AllowOptions(a.protocol, Decimal(a.port), a.comment);
    OptionsMakeWritten(Input, family, RawAllow(a), {6}, 8, 10);
  }

  // ----- The plan as written rules -----

  function Forwards(family: Family, infos: seq<NodeInfo>): seq<Fields> {
    RawForwards(PlanFor(family, infos).rules)
  }

  function Allows(family: Family, infos: seq<NodeInfo>): seq<Fields> {
    RawAllows(AllowRules(family, infos))
  }

  /** Two built rules with the same allow key need the same allow rule. */
  lemma AllowKeyIsInjective(family: Family, r: Rule, s: Rule)
    requires WellBuilt(family, r) && WellBuilt(family, s) && AllowKey(r) == AllowKey(s)
    ensures AllowOf(r) == AllowOf(s)
  {
    assert '|' !in r.protocol && '|' !in s.protocol;
    DecimalHasNo(r.target, '|');
    DecimalHasNo(s.target, '|');
    hide WellBuilt, Decimal;
    CutTwice(r.protocol, Decimal(r.target), r.comment, s.protocol, Decimal(s.target), s.comment, '|');
    DecimalInjective(r.target, s.target);
  }

  predicate Needed(rules: seq<Rule>, a: AllowRule) {
    exists r :: r in rules && AllowOf(r) == a
  }

  lemma AllowsSnoc(rules: seq<Rule>, r: Rule)
    ensures MieruAllows(rules + [r]) ==
            if exists s :: s in rules && AllowKey(s) == AllowKey(r) then MieruAllows(rules)
            else MieruAllows(rules) + [AllowOf(r)]
  {
    hide AllowKey, AllowOf;
    assert (rules + [r])[..|rules|] == rules;
  }

  lemma SameKeyIsNeeded(family: Family, rules: seq<Rule>, r: Rule)
    requires AllWellBuilt(family, rules) && WellBuilt(family, r)
    requires exists s :: s in rules && AllowKey(s) == AllowKey(r)
    ensures Needed(rules, AllowOf(r))
  {
    hide AllowKey, AllowOf, WellBuilt;
    var s :| s in rules && AllowKey(s) == AllowKey(r);
    AllowKeyIsInjective(family, r, s);
  }

  lemma BuiltInit(family: Family, rules: seq<Rule>)
    requires AllWellBuilt(family, rules) && rules != []
    ensures AllWellBuilt(family, rules[..|rules| - 1]) && WellBuilt(family, rules[|rules| - 1])
  {
    hide WellBuilt;
  }

  /** Deduplication keeps an allow rule for every protocol and target that some forwarding rule uses. */
  lemma {:induction false} MieruAllowsIsExact(family: Family, rules: seq<Rule>)
    requires AllWellBuilt(family, rules)
    ensures forall a :: a in MieruAllows(rules) <==> Needed(rules, a)
  {
    if rules != [] {
      hide AllWellBuilt, WellBuilt, AllowKey, AllowOf, Needed, MieruAllows;
      var init, r := rules[..|rules| - 1], rules[|rules| - 1];
      InitLast(rules);
      BuiltInit(family, rules);
      MieruAllowsIsExact(family, init);
      AllowsSnoc(init, r);
      if exists s :: s in init && AllowKey(s) == AllowKey(r) {
        SameKeyIsNeeded(family, init, r);
      } else {
        SnocMembers(MieruAllows(init), AllowOf(r));
      }
      forall a ensures Needed(rules, a) <==> Needed(init, a) || a == AllowOf(r) {
        NeededOneMore(init, r, a);
      }
    } else {
      NothingNeeded();
    }
  }

  lemma NothingNeeded()
    ensures forall a :: a !in MieruAllows([]) && !Needed([], a)
  {
  }

  lemma SameAllowSameKey(r: Rule, s: Rule)
    requires AllowOf(r) == AllowOf(s)
    ensures AllowKey(r) == AllowKey(s)
  {
  }

  predicate DistinctAllows(allows: seq<AllowRule>) {
    forall i, j :: 0 <= i < j < |allows| ==> allows[i] != allows[j]
  }

  lemma DistinctAllowsSnoc(allows: seq<AllowRule>, a: AllowRule)
    requires DistinctAllows(allows) && a !in allows
    ensures DistinctAllows(allows + [a])
  {
    var all := allows + [a];
    forall i, j | 0 <= i < j < |all| ensures all[i] != all[j] {
      assert all[i] == allows[i] && allows[i] in allows;
    }
  }

  /** No allow rule is written twice. */
  lemma {:induction false} MieruAllowsAreDistinct(family: Family, rules: seq<Rule>)
    requires AllWellBuilt(family, rules)
    ensures DistinctAllows(MieruAllows(rules))
  {
    if rules != [] {
      hide AllWellBuilt, WellBuilt, AllowKey, AllowOf, MieruAllows, DistinctAllows;
      var init, r := rules[..|rules| - 1], rules[|rules| - 1];
      InitLast(rules);
      BuiltInit(family, rules);
      MieruAllowsAreDistinct(family, init);
      MieruAllowsIsExact(family, init);
      AllowsSnoc(init, r);
      if !exists s :: s in init && AllowKey(s) == AllowKey(r) {
        forall s | s in init ensures AllowOf(s) != AllowOf(r) {
          if AllowOf(s) == AllowOf(r) {
            SameAllowSameKey(s, r);
          }
        }
        assert !Needed(init, AllowOf(r));
        DistinctAllowsSnoc(MieruAllows(init), AllowOf(r));
      }
    }
  }

  /** The rule at k is the first that needs the allow rule. */
  predicate FirstNeeds(rules: seq<Rule>, k: nat, a: AllowRule) {
    && k < |rules| && AllowOf(rules[k]) == a
    && forall j :: 0 <= j < k ==> AllowOf(rules[j]) != a
  }

  /** Allow rules stand in the order of the rules that need them first. */
  lemma {:induction false} MieruAllowsFollowRules(
      family: Family, rules: seq<Rule>, i: nat, j: nat, k: nat, l: nat)
    requires AllWellBuilt(family, rules) && i < j < |MieruAllows(rules)|
    requires FirstNeeds(rules, k, MieruAllows(rules)[i]) && FirstNeeds(rules, l, MieruAllows(rules)[j])
    ensures k < l
  {
    hide AllWellBuilt, WellBuilt, AllowKey, AllowOf, MieruAllows, Needed, FirstNeeds;
    SomeRule(rules, k, MieruAllows(rules)[i]);
    var init, r := rules[..|rules| - 1], rules[|rules| - 1];
    InitLast(rules);
    BuiltInit(family, rules);
    MieruAllowsIsExact(family, init);
    AllowsSnoc(init, r);
    var allows := MieruAllows(init);
    NeededInFront(init, r, k, MieruAllows(rules)[i]);
    if j < |allows| {
      NeededInFront(init, r, l, MieruAllows(rules)[j]);
      MieruAllowsFollowRules(family, init, i, j, k, l);
    } else {
      NeededBehind(init, r, l);
    }
  }

  lemma SomeRule(rules: seq<Rule>, k: nat, a: AllowRule)
    requires FirstNeeds(rules, k, a)
    ensures rules != []
  {
  }

  lemma NeededInFront(init: seq<Rule>, r: Rule, k: nat, a: AllowRule)
    requires Needed(init, a) && FirstNeeds(init + [r], k, a)
    ensures k < |init| && FirstNeeds(init, k, a)
  {
    hide AllowOf;
    var s :| s in init && AllowOf(s) == a;
    var j :| 0 <= j < |init| && init[j] == s;
    assert (init + [r])[j] == s;
    forall i | 0 <= i < |init| ensures (init + [r])[i] == init[i] {
    }
  }

  lemma NeededBehind(init: seq<Rule>, r: Rule, l: nat)
    requires FirstNeeds(init + [r], l, AllowOf(r))
    requires !exists s :: s in init && AllowKey(s) == AllowKey(r)
    ensures l == |init|
  {
    if l < |init| {
      assert init[l] in init && AllowOf(init[l]) == AllowOf(r);
      SameAllowSameKey(init[l], r);
    }
  }

  lemma NeededOneMore(rules: seq<Rule>, r: Rule, a: AllowRule)
    ensures Needed(rules + [r], a) <==> Needed(rules, a) || a == AllowOf(r)
  {
    assert forall s :: s in rules + [r] <==> s in rules || s == r;
  }

  lemma AllowRulesAreKnown(family: Family, infos: seq<NodeInfo>)
    ensures forall a :: a in AllowRules(family, infos) ==> KnownAllow(family, a)
  {
    if family.MieruFamily? {
      PlanIsExact(family, infos);
      MieruAllowsIsExact(family, PlanFor(family, infos).rules);
    }
  }

  /** Everything the agent writes for a plan is plain, normal, and marked as its own family's only. */
  lemma PlanIsWritten(family: Family, infos: seq<NodeInfo>)
    ensures AllWritten(Prerouting, family, Forwards(family, infos))
    ensures AllWritten(Input, family, Allows(family, infos))
  {
    PlanIsExact(family, infos);
    AllowRulesAreKnown(family, infos);
    hide WellBuilt, Written, KnownAllow, PlanFor, AllowRules, RawForward, RawAllow, RuledTo;
    forall raw | raw in Forwards(family, infos) ensures Written(Prerouting, family, raw) {
      var rules := PlanFor(family, infos).rules;
      var i :| 0 <= i < |rules| && RawForwards(rules)[i] == raw;
      assert rules[i] in rules;
      ForwardIsWritten(family, rules[i]);
    }
    forall raw | raw in Allows(family, infos) ensures Written(Input, family, raw) {
      var allows := AllowRules(family, infos);
      var i :| 0 <= i < |allows| && RawAllows(allows)[i] == raw;
      assert allows[i] in allows;
      AllowIsWritten(family, allows[i]);
    }
  }

  // ----- Their option words -----

  /** The only option with text is the comment, and it comes once. */
  predicate OwnOptions(raw: Fields) {
    && (forall i :: 0 <= i < |raw| && TakesText(raw[i]) ==> raw[i] == "--comment")
    && Count(raw, "--comment") <= 1
  }

  predicate AllOwnOptions(raws: seq<Fields>) {
    forall raw :: raw in raws ==> OwnOptions(raw)
  }

  lemma OptionsTakeNoText()
    ensures !TakesText("-A") && !TakesText("-p") && !TakesText("-m") && !TakesText("-j")
    ensures !TakesText("--dport") && !TakesText("--dports") && !TakesText("--to-ports")
  {
    hide IsPlain;
  }

  lemma NamesTakeNoText()
    ensures !TakesText("PREROUTING") && !TakesText("INPUT") && !TakesText("multiport") && !TakesText("comment")
    ensures !TakesText("REDIRECT") && !TakesText("ACCEPT")
  {
    hide IsPlain;
  }

  lemma ValuesTakeNoText(protocol: string, comment: string, number: string)
    requires KnownWords(protocol, comment) && DigitWord(number)
    ensures !TakesText(protocol) && !TakesText(comment) && !TakesText(number)
  {
  }

  lemma OneComment(raw: Fields, matches: set<int>, comment: int, jump: int)
    requires OptionsAt(raw, matches, comment, jump)
    ensures Count(raw, "--comment") <= 1
  {
    CountsTwice(raw, "--comment");
    hide OptionsAt;
    forall i | 0 <= i < |raw| && raw[i] == "--comment" ensures i == comment {
      OptionWordAt(raw, matches, comment, jump, i);
    }
  }

  lemma DportIsOwn(protocol: string, ports: string, comment: string, target: string)
    requires KnownWords(protocol, comment) && DigitWord(ports) && DigitWord(target)
    ensures OwnOptions(DportForm(protocol, ports, comment, target))
  {
    hide DigitWord, KnownWords, OptionsAt, Count, IsPlain;
    DportOptions(protocol, ports, comment, target);
    OneComment(DportForm(protocol, ports, comment, target), {6}, 8, 10);
    OptionsTakeNoText();
    NamesTakeNoText();
    ValuesTakeNoText(protocol, comment, ports);
    ValuesTakeNoText(protocol, comment, target);
    hide TakesText;
  }

  lemma MultiportIsOwn(protocol: string, ports: string, comment: string, target: string)
    requires KnownWords(protocol, comment) && DigitWord(ports) && DigitWord(target)
    ensures OwnOptions(MultiportForm(protocol, ports, comment, target))
  {
    hide DigitWord, KnownWords, OptionsAt, Count, IsPlain;
    MultiportOptions(protocol, ports, comment, target);
    OneComment(MultiportForm(protocol, ports, comment, target), {4, 8}, 10, 12);
    OptionsTakeNoText();
    NamesTakeNoText();
    ValuesTakeNoText(protocol, comment, ports);
    ValuesTakeNoText(protocol, comment, target);
    hide TakesText;
  }

  lemma AllowIsOwn(protocol: string, port: string, comment: string)
    requires KnownWords(protocol, comment) && DigitWord(port)
    ensures OwnOptions(AllowForm(protocol, port, comment))
  {
    hide DigitWord, KnownWords, OptionsAt, Count, IsPlain;
    AllowOptions(protocol, port, comment);
    OneComment(AllowForm(protocol, port, comment), {6}, 8, 10);
    OptionsTakeNoText();
    NamesTakeNoText();
    ValuesTakeNoText(protocol, comment, port);
    hide TakesText;
  }

  lemma RuleIsOwn(family: Family, r: Rule)
    requires WellBuilt(family, r)
    ensures OwnOptions(RawForward(r))
  {
    ForwardForm(family, r);
    hide OwnOptions, RawForward, WellBuilt, DportForm, MultiportForm, KnownWords, DigitWord;
    if IsDportMatcher(r.matcher) {
      DportIsOwn(r.protocol, PortArgument(r.matcher), r.comment, Decimal(r.target));
    } else {
      MultiportIsOwn(r.protocol, PortArgument(r.matcher), r.comment, Decimal(r.target));
    }
  }

  lemma AllowRuleIsOwn(family: Family, a: AllowRule)
    requires KnownAllow(family, a)
    ensures OwnOptions(RawAllow(a))
  {
    DecimalIsPlain(a.port);
    AllowIsOwn(a.protocol, Decimal(a.port), a.comment);
    hide OwnOptions, Decimal;
  }

  /** The rules of a plan use the agent's own options, with one comment each. */
  lemma PlanIsOwn(family: Family, infos: seq<NodeInfo>)
    ensures AllOwnOptions(Forwards(family, infos)) && AllOwnOptions(Allows(family, infos))
  {
    PlanIsExact(family, infos);
    AllowRulesAreKnown(family, infos);
    hide WellBuilt, OwnOptions, KnownAllow, PlanFor, AllowRules, RawForward, RawAllow, RuledTo;
    forall raw | raw in Forwards(family, infos) ensures OwnOptions(raw) {
      var rules := PlanFor(family, infos).rules;
      var i :| 0 <= i < |rules| && RawForwards(rules)[i] == raw;
      assert rules[i] in rules;
      RuleIsOwn(family, rules[i]);
    }
    forall raw | raw in Allows(family, infos) ensures OwnOptions(raw) {
      var allows := AllowRules(family, infos);
      var i :| 0 <= i < |allows| && RawAllows(allows)[i] == raw;
      assert allows[i] in allows;
      AllowRuleIsOwn(family, allows[i]);
    }
  }

  /** Every port a plan forwards to is opened in the INPUT chain. */
  lemma TargetsAreAllowed(family: Family, infos: seq<NodeInfo>, protocol: string, p: Port)
    requires PlannedTarget(family, infos, protocol, p).Some?
    ensures AllowRule(protocol, PlannedTarget(family, infos, protocol, p).value, family.Comment())
            in AllowRules(family, infos)
  {
    var t := PlannedTarget(family, infos, protocol, p).value;
    if family.HysteriaFamily? {
      FirstClaimerServes(family, protocol, infos, |infos|, p);
      var ports := Ascending(TargetPorts(family, "udp", infos));
      assert t in ports;
      var i :| 0 <= i < |ports| && ports[i] == t;
      assert HysteriaAllows(ports)[i] == AllowRule("udp", t, HYSTERIA_COMMENT);
    } else {
      PlanIsExact(family, infos);
      var rules := PlanFor(family, infos).rules;
      assert RuledTo(rules, protocol, p, t);
      var r :| r in rules && r.protocol == protocol && r.target == t && Covers(Spans(r.matcher), p);
      MieruAllowsIsExact(family, rules);
      assert AllowOf(r) in MieruAllows(rules);
    }
  }

  lemma {:induction false} FirstClaimerServes(
      family: Family, protocol: string, infos: seq<NodeInfo>, k: nat, p: Port)
    requires k <= |infos| && FirstClaimer(family, protocol, infos, k, p).Some?
    ensures FirstClaimer(family, protocol, infos, k, p).value in TargetPorts(family, protocol, infos)
    ensures family.HysteriaFamily? ==> protocol == "udp"
  {
    hide NamedPorts, Covers, Family.ExternalPort;
    if FirstClaimer(family, protocol, infos, k - 1, p).Some? {
      FirstClaimerServes(family, protocol, infos, k - 1, p);
    } else {
      assert infos[k - 1] in infos && Serves(family, protocol, infos[k - 1]);
    }
  }
}
