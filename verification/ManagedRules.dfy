// Which firewall rules the agent regards as its own, and why the kernel's rewriting does not change that.
module ManagedRules {
  import opened Sequences
  import opened Text
  import opened SpecText
  import opened PortPlanner

  // The user chain of an older HY2 scheme; the agent still removes it and every jump to it.
  const HYSTERIA_CHAIN := "V2NODE-HY2"

  datatype Chain = Prerouting | Input {
    function Name(): string {
      if Prerouting? then "PREROUTING" else "INPUT"
    }
  }

  predicate MarkedAt(fields: Fields, i: nat, comment: string)
    requires i + 1 < |fields|
  {
    fields[i] == "--comment" && TrimQuotes(fields[i + 1]) == comment
  }

  predicate IsForwardSpec(family: Family, fields: Fields) {
    && |fields| >= 4 && fields[0] == "-A" && fields[1] == "PREROUTING"
    && exists i :: 2 <= i < |fields| - 1 &&
         ((family.HysteriaFamily? && fields[i] == "-j" && fields[i + 1] == HYSTERIA_CHAIN)
          || MarkedAt(fields, i, family.Comment()))
  }

  predicate IsAllowSpec(family: Family, fields: Fields) {
    && |fields| >= 4 && fields[0] == "-A" && fields[1] == "INPUT"
    && (exists i :: 2 <= i < |fields| - 1 && MarkedAt(fields, i, family.Comment()))
    && (exists i :: 2 <= i < |fields| - 1 && fields[i] == "-j" && fields[i + 1] == "ACCEPT")
  }

  predicate IsManaged(chain: Chain, family: Family, fields: Fields) {
    if chain.Prerouting? then IsForwardSpec(family, fields) else IsAllowSpec(family, fields)
  }

  /** The rules whose managed status is `managed`, in order. */
  function Select(chain: Chain, family: Family, managed: bool, rules: seq<Fields>): (r: seq<Fields>)
    ensures forall f :: f in r <==> f in rules && IsManaged(chain, family, f) == managed
  {
    if rules == [] then []
    else
      (if IsManaged(chain, family, rules[0]) == managed then [rules[0]] else [])
      + Select(chain, family, managed, rules[1..])
  }

  function KeptFirst(chain: Chain, family: Family, managed: bool, rule: Fields): seq<Fields> {
    if IsManaged(chain, family, rule) == managed then [rule] else []
  }

  lemma SelectSplits(chain: Chain, family: Family, managed: bool, rules: seq<Fields>)
    requires rules != []
    ensures Select(chain, family, managed, rules)
         == KeptFirst(chain, family, managed, rules[0]) + Select(chain, family, managed, rules[1..])
  {
    hide IsManaged;
  }

  lemma SelectNone(chain: Chain, family: Family, managed: bool, a: seq<Fields>, b: seq<Fields>)
    requires a == []
    ensures a + b == b && Select(chain, family, managed, a) + Select(chain, family, managed, b)
                          == Select(chain, family, managed, b)
  {
    hide IsManaged;
  }

  lemma {:induction false} SelectConcat(chain: Chain, family: Family, managed: bool, a: seq<Fields>, b: seq<Fields>)
    ensures Select(chain, family, managed, a + b)
         == Select(chain, family, managed, a) + Select(chain, family, managed, b)
  {
    hide IsManaged, Select, KeptFirst;
    if a == [] {
      SelectNone(chain, family, managed, a, b);
    } else {
      SelectConcat(chain, family, managed, a[1..], b);
      ConcatFirst(a, b);
      SelectSplits(chain, family, managed, a);
      SelectSplits(chain, family, managed, a + b);
      ConcatTail(KeptFirst(chain, family, managed, a[0]), Select(chain, family, managed, a[1..]),
                 Select(chain, family, managed, b));
    }
  }

  lemma {:induction false} SelectAll(chain: Chain, family: Family, managed: bool, rules: seq<Fields>)
    requires forall f :: f in rules ==> IsManaged(chain, family, f) == managed
    ensures Select(chain, family, managed, rules) == rules
    ensures Select(chain, family, !managed, rules) == []
  {
    if rules != [] {
      SelectAll(chain, family, managed, rules[1..]);
      assert rules == [rules[0]] + rules[1..];
    }
  }

  // ----- What a chain can hold -----

  /** A field the firewall can list: not empty, with no whitespace but blanks and no quote but apostrophes inside. */
  predicate ListableField(s: string) {
    s != "" && Trimmed(s) && forall i :: 0 <= i < |s| ==> IsWhitespace(s[i]) ==> IsBlank(s[i])
  }

  /**
   * A rule as the kernel lists it: "-A", the chain, then options with their values, which may contain blanks.
   */
  predicate Listable(chain: Chain, fields: Fields) {
    && |fields| >= 2 && fields[0] == "-A" && fields[1] == chain.Name()
    && (forall i :: 0 <= i < |fields| ==> ListableField(fields[i]))
    && Shaped(fields)
  }

  /** An option whose value is free text. The agent's own options take names and numbers, "--comment" aside. */
  predicate TakesText(option: string) {
    && IsPlain(option) && option[0] == '-'
    && option !in {"-A", "-p", "-m", "-j", "--dport", "--dports", "--to-ports"}
  }

  /**
   * A rule as iptables prints it: options and names are bare words, and any other field is the text of an option.
   */
  predicate TextBehindOptions(fields: Fields) {
    forall i :: 0 <= i < |fields| && !IsPlain(fields[i]) ==> i > 0 && TakesText(fields[i - 1])
  }

  predicate AllListable(chain: Chain, rules: seq<Fields>) {
    forall f :: f in rules ==> Listable(chain, f)
  }

  /** A rule's options: everything behind "-A" and the chain. */
  function Body(fields: Fields): Fields {
    if |fields| < 2 then [] else fields[2..]
  }

  lemma ListableBody(chain: Chain, fields: Fields)
    requires Listable(chain, fields)
    ensures AllTrimmed(fields)
    ensures Shaped(Body(fields))
    ensures Normalize(fields) == fields[..2] + Drop(Body(fields))
  {
    forall i | 0 <= i < |fields| ensures Trimmed(fields[i]) {
      assert ListableField(fields[i]);
    }
    assert forall i :: 0 <= i < |Body(fields)| ==> Body(fields)[i] == fields[i + 2];
    NormalizeIsDrop(fields);
    assert fields[1..][1..] == fields[2..];
    assert Drop(fields) == [fields[0]] + Drop(fields[1..]);
    assert Drop(fields[1..]) == [fields[1]] + Drop(fields[2..]);
  }

  /** Carrying a comment mark is having the pair among the options. */
  lemma MarkedMeansPair(chain: Chain, fields: Fields, comment: string)
    requires Listable(chain, fields)
    ensures (exists i :: 2 <= i < |fields| - 1 && MarkedAt(fields, i, comment))
       <==> HasPair(Body(fields), "--comment", comment)
  {
    PairsAt(fields, "--comment", comment);
    forall i | 2 <= i < |fields| - 1
      ensures MarkedAt(fields, i, comment) <==> fields[i] == "--comment" && fields[i + 1] == comment
    {
      assert ListableField(fields[i + 1]);
      TrimQuotesIdentity(fields[i + 1]);
    }
    hide MarkedAt, HasPair, Shaped, ListableField;
  }

  lemma HasPairIsLong(fields: Fields, a: string, b: string)
    requires HasPair(Body(fields), a, b)
    ensures |fields| >= 4
  {
  }

  lemma ForwardMeansPairs(family: Family, fields: Fields)
    requires Listable(Prerouting, fields)
    ensures IsForwardSpec(family, fields) <==>
            (family.HysteriaFamily? && HasPair(Body(fields), "-j", HYSTERIA_CHAIN))
            || HasPair(Body(fields), "--comment", family.Comment())
  {
    MarkedMeansPair(Prerouting, fields, family.Comment());
    PairsAt(fields, "-j", HYSTERIA_CHAIN);
    if HasPair(Body(fields), "-j", HYSTERIA_CHAIN) {
      HasPairIsLong(fields, "-j", HYSTERIA_CHAIN);
    }
    if HasPair(Body(fields), "--comment", family.Comment()) {
      HasPairIsLong(fields, "--comment", family.Comment());
    }
    hide MarkedAt, HasPair, Shaped, ListableField, Family.Comment, Body;
  }

  lemma AllowMeansPairs(family: Family, fields: Fields)
    requires Listable(Input, fields)
    ensures IsAllowSpec(family, fields) <==>
            HasPair(Body(fields), "--comment", family.Comment()) && HasPair(Body(fields), "-j", "ACCEPT")
  {
    MarkedMeansPair(Input, fields, family.Comment());
    PairsAt(fields, "-j", "ACCEPT");
    if HasPair(Body(fields), "-j", "ACCEPT") {
      HasPairIsLong(fields, "-j", "ACCEPT");
    }
    hide MarkedAt, HasPair, Shaped, ListableField, Family.Comment, Body;
  }

  /** For listable rules being managed is having the right jump or comment pairs among the options. */
  lemma ManagedMeansPairs(chain: Chain, family: Family, fields: Fields)
    requires Listable(chain, fields)
    ensures chain.Prerouting? ==>
              (IsManaged(chain, family, fields) <==>
               (family.HysteriaFamily? && HasPair(Body(fields), "-j", HYSTERIA_CHAIN))
               || HasPair(Body(fields), "--comment", family.Comment()))
    ensures chain.Input? ==>
              (IsManaged(chain, family, fields) <==>
               HasPair(Body(fields), "--comment", family.Comment()) && HasPair(Body(fields), "-j", "ACCEPT"))
  {
    hide IsForwardSpec, IsAllowSpec, Listable, HasPair, Body, Family.Comment;
    if chain.Prerouting? {
      ForwardMeansPairs(family, fields);
    } else {
      AllowMeansPairs(family, fields);
    }
  }

  lemma PairsAt(fields: Fields, a: string, b: string)
    requires |fields| >= 2
    ensures HasPair(Body(fields), a, b) <==>
            exists i :: 2 <= i < |fields| - 1 && fields[i] == a && fields[i + 1] == b
  {
    var body := Body(fields);
    if HasPair(body, a, b) {
      var i :| 0 <= i < |body| - 1 && body[i] == a && body[i + 1] == b;
      assert fields[i + 2] == a && fields[i + 2 + 1] == b;
    }
    if i :| 2 <= i < |fields| - 1 && fields[i] == a && fields[i + 1] == b {
      assert body[i - 2] == a && body[i - 2 + 1] == b;
    }
  }

  /** Rules with the same normal form are both managed or both not. */
  lemma SameFormSameOwner(chain: Chain, family: Family, f: Fields, g: Fields)
    requires Listable(chain, f) && Listable(chain, g)
    requires Normalize(f) == Normalize(g)
    ensures IsManaged(chain, family, f) == IsManaged(chain, family, g)
  {
    ListableBody(chain, f);
    ListableBody(chain, g);
    assert Drop(Body(f)) == Normalize(f)[2..] == Normalize(g)[2..] == Drop(Body(g));
    PairsSurvive(Body(f), Body(g), "-j", HYSTERIA_CHAIN);
    PairsSurvive(Body(f), Body(g), "-j", "ACCEPT");
    PairsSurvive(Body(f), Body(g), "--comment", family.Comment());
    ManagedMeansPairs(chain, family, f);
    ManagedMeansPairs(chain, family, g);
  }

  lemma PairsSurvive(f: Fields, g: Fields, a: string, b: string)
    requires Shaped(f) && Shaped(g) && Drop(f) == Drop(g)
    requires a == "-j" || a == "--comment"
    ensures HasPair(f, a, b) <==> HasPair(g, a, b)
  {
    DropKeepsPairs(f, a, b);
    DropKeepsPairs(g, a, b);
  }

  // ----- Listings -----

  function ParseLines(lines: seq<string>): (r: seq<Fields>)
    ensures |r| == |lines| && forall i :: 0 <= i < |lines| ==> r[i] == ParseSpec(Trim(lines[i]))
  {
    seq(|lines|, i requires 0 <= i < |lines| => ParseSpec(Trim(lines[i])))
  }

  /** The appended rules among tokenised lines; policy and chain declarations are not rules. */
  function AppendedRules(parsed: seq<Fields>): seq<Fields> {
    if parsed == [] then []
    else (if parsed[0] != [] && parsed[0][0] == "-A" then [parsed[0]] else []) + AppendedRules(parsed[1..])
  }

  /** The text lines are a listing of these rules. */
  predicate Lists(lines: seq<string>, rules: seq<Fields>) {
    AppendedRules(ParseLines(lines)) == rules
  }

  /** Looking for managed rules among all lines finds the managed rules of the chain. */
  lemma {:induction false} SelectFromLines(chain: Chain, family: Family, parsed: seq<Fields>)
    ensures Select(chain, family, true, parsed) == Select(chain, family, true, AppendedRules(parsed))
  {
    if parsed != [] {
      SelectFromLines(chain, family, parsed[1..]);
      if IsManaged(chain, family, parsed[0]) {
        assert parsed[0] != [] && parsed[0][0] == "-A";
      }
      hide IsManaged;
      if parsed[0] != [] && parsed[0][0] == "-A" {
        var rules := AppendedRules(parsed);
        assert rules == [parsed[0]] + AppendedRules(parsed[1..]);
        assert rules[1..] == AppendedRules(parsed[1..]);
      } else {
        assert AppendedRules(parsed) == AppendedRules(parsed[1..]);
      }
    }
  }

  function PrintRules(quoting: Quoting, rules: seq<Fields>): (r: seq<string>)
    ensures |r| == |rules| && forall i :: 0 <= i < |rules| ==> r[i] == PrintSpec(quoting, rules[i])
  {
    seq(|rules|, i requires 0 <= i < |rules| => PrintSpec(quoting, rules[i]))
  }

  lemma TrimNothing(s: string)
    requires s != "" && !IsWhitespace(s[0]) && !IsWhitespace(s[|s| - 1])
    ensures Trim(s) == s
  {
  }

  lemma PrintedFieldEnds(text: string, field: string)
    requires ListableField(field) && Prints(text, field)
    ensures text != "" && !IsWhitespace(text[0]) && !IsWhitespace(text[|text| - 1])
  {
  }

  lemma {:induction false} JoinEnds(parts: seq<string>, sep: char)
    requires parts != [] && forall i :: 0 <= i < |parts| ==> parts[i] != ""
    ensures var j := Join(parts, sep);
            j != "" && j[0] == parts[0][0] && j[|j| - 1] == parts[|parts| - 1][|parts[|parts| - 1]| - 1]
  {
    if |parts| > 1 {
      JoinEnds(parts[1..], sep);
    }
  }

  lemma ParsePrintedRule(quoting: Quoting, fields: Fields)
    requires fields != [] && forall i :: 0 <= i < |fields| ==> ListableField(fields[i])
    ensures ParseSpec(Trim(PrintSpec(quoting, fields))) == fields
  {
    var printed := PrintFields(quoting, fields);
    forall i | 0 <= i < |fields| ensures '"' !in fields[i] && printed[i] != "" {
      assert ListableField(fields[i]);
      PrintedFieldEnds(printed[i], fields[i]);
    }
    PrintedFieldEnds(printed[0], fields[0]);
    PrintedFieldEnds(printed[|fields| - 1], fields[|fields| - 1]);
    JoinEnds(printed, ' ');
    TrimNothing(PrintSpec(quoting, fields));
    ParseUndoesPrint(printed, fields);
  }

  lemma PrintedPolicy(quoting: Quoting, chain: Chain)
    ensures var policy := ["-P", chain.Name(), "ACCEPT"];
            ParseSpec(Trim(PrintSpec(quoting, policy))) == policy && policy[0] != "-A"
  {
    var policy := ["-P", chain.Name(), "ACCEPT"];
    assert forall i :: 0 <= i < |policy| ==> ListableField(policy[i]);
    hide ListableField;
    ParsePrintedRule(quoting, policy);
  }

  lemma PrintedRulesParse(quoting: Quoting, chain: Chain, rules: seq<Fields>)
    requires AllListable(chain, rules)
    ensures ParseLines(PrintRules(quoting, rules)) == rules
  {
    hide ListableField, Shaped, ParseSpec, Trim, PrintSpec;
    forall i | 0 <= i < |rules| ensures ParseSpec(Trim(PrintRules(quoting, rules)[i])) == rules[i] {
      assert Listable(chain, rules[i]);
      ParsePrintedRule(quoting, rules[i]);
    }
  }

  lemma ParseLinesCons(line: string, lines: seq<string>)
    ensures ParseLines([line] + lines) == [ParseSpec(Trim(line))] + ParseLines(lines)
  {
    hide ParseSpec, Trim;
  }

  /** Printing every rule behind a policy line is a listing, whatever is quoted, blanks inside fields included. */
  lemma PrintedRulesList(quoting: Quoting, chain: Chain, rules: seq<Fields>)
    requires AllListable(chain, rules)
    ensures Lists([PrintSpec(quoting, ["-P", chain.Name(), "ACCEPT"])] + PrintRules(quoting, rules), rules)
  {
    var policy := ["-P", chain.Name(), "ACCEPT"];
    assert forall f :: f in rules ==> f != [] && f[0] == "-A";
    hide Listable, AllListable, ParseSpec, Trim, PrintSpec, ParseLines, PrintRules;
    PrintedPolicy(quoting, chain);
    PrintedRulesParse(quoting, chain, rules);
    ParseLinesCons(PrintSpec(quoting, policy), PrintRules(quoting, rules));
    AppendedRulesAll(rules);
    AppendedBehind(policy, rules);
  }

  lemma AppendedBehind(policy: Fields, rules: seq<Fields>)
    requires policy != [] && policy[0] != "-A"
    ensures AppendedRules([policy] + rules) == AppendedRules(rules)
  {
    assert ([policy] + rules)[1..] == rules;
    AddNothing(AppendedRules(rules));
  }

  lemma {:induction false} AppendedRulesAll(rules: seq<Fields>)
    requires forall f :: f in rules ==> f != [] && f[0] == "-A"
    ensures AppendedRules(rules) == rules
  {
    if rules != [] {
      assert rules[0] in rules;
      forall f | f in rules[1..] ensures f != [] && f[0] == "-A" {
        assert f in rules;
      }
      AppendedRulesAll(rules[1..]);
      assert rules == [rules[0]] + rules[1..];
    }
  }
}
