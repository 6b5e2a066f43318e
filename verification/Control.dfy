// The control loop's use of inspection and repair: one tool, both families, over and over.
module Control {
  import opened Sequences
  import opened Results
  import opened Text
  import opened SpecText
  import opened PortPlanner
  import opened ManagedRules
  import opened Firewall
  import opened RuleSpecs
  import opened Repair
  import opened Inspection

  function PlanStatus(family: Family, infos: seq<NodeInfo>, s: State): ToolStatus {
    StatusOf(family, s, Forwards(family, infos), Allows(family, infos))
  }

  function PlanCommands(family: Family, infos: seq<NodeInfo>, s: State): seq<Args> {
    CommandsFor(family, s, Forwards(family, infos), Allows(family, infos))
  }

  /** The commands one repair call runs: none when the inspection is clean. */
  function IssuedCommands(family: Family, infos: seq<NodeInfo>, s: State): seq<Args> {
    if PlanStatus(family, infos, s).NeedsRepair() then PlanCommands(family, infos, s) else []
  }

  /** The firewall after one repair call. */
  function AfterRepair(echo: Echo, family: Family, infos: seq<NodeInfo>, s: State): State {
    if PlanStatus(family, infos, s).NeedsRepair()
    then Repaired(echo, family, s, Forwards(family, infos), Allows(family, infos)) else s
  }

  predicate Clean(family: Family, infos: seq<NodeInfo>, s: State) {
    !PlanStatus(family, infos, s).NeedsRepair()
  }

  /** Listable rules carrying this family's mark and no other. */
  predicate Marked(chain: Chain, family: Family, rules: seq<Fields>) {
    forall e :: e in rules ==>
      && Listable(chain, e) && AllPlain(e)
      && IsManaged(chain, HysteriaFamily, e) == family.HysteriaFamily?
      && IsManaged(chain, MieruFamily, e) == family.MieruFamily?
  }

  predicate SameForms(a: seq<Fields>, b: seq<Fields>) {
    FormsWithin(a, b) && FormsWithin(b, a)
  }

  lemma EchoesAreMarked(echo: Echo, chain: Chain, family: Family, raws: seq<Fields>)
    requires FaithfulEcho(echo) && AllWritten(chain, family, raws)
    ensures Marked(chain, family, Echoes(echo, raws))
  {
    hide IsManaged, Listable, Normalize, FaithfulEcho, Written;
    var echoes := Echoes(echo, raws);
    forall e | e in echoes
      ensures Listable(chain, e) && AllPlain(e)
      ensures IsManaged(chain, HysteriaFamily, e) == family.HysteriaFamily?
      ensures IsManaged(chain, MieruFamily, e) == family.MieruFamily?
    {
      var i :| 0 <= i < |echoes| && echoes[i] == e;
      assert raws[i] in raws;
      EchoIsManaged(echo, chain, family, raws[i]);
    }
  }

  lemma EchoKeepsForm(echo: Echo, chain: Chain, family: Family, raw: Fields)
    requires FaithfulEcho(echo) && Written(chain, family, raw)
    ensures Normalize(echo(raw)) == Normalize(raw)
  {
  }

  lemma EchoesKeepForms(echo: Echo, chain: Chain, family: Family, raws: seq<Fields>)
    requires FaithfulEcho(echo) && AllWritten(chain, family, raws)
    ensures SameForms(raws, Echoes(echo, raws))
  {
    hide Normalize, FaithfulEcho, Written;
    var echoes := Echoes(echo, raws);
    forall e | e in echoes ensures HasForm(raws, Normalize(e)) {
      var i :| 0 <= i < |echoes| && echoes[i] == e;
      assert raws[i] in raws;
      EchoKeepsForm(echo, chain, family, raws[i]);
    }
    forall raw | raw in raws ensures HasForm(echoes, Normalize(raw)) {
      var i :| 0 <= i < |raws| && raws[i] == raw;
      EchoKeepsForm(echo, chain, family, raw);
      assert echoes[i] in echoes;
    }
  }

  lemma ReverseIsSame<T>(s: seq<T>)
    ensures forall x :: x in Reverse(s) <==> x in s
  {
    forall x | x in s ensures x in Reverse(s) {
      var i :| 0 <= i < |s| && s[i] == x;
      assert Reverse(s)[|s| - 1 - i] == x;
    }
  }

  lemma ReversedEchoesAreManaged(echo: Echo, chain: Chain, family: Family, raws: seq<Fields>)
    requires FaithfulEcho(echo) && AllWritten(chain, family, raws)
    ensures Marked(chain, family, Reverse(Echoes(echo, raws))) && SameForms(raws, Reverse(Echoes(echo, raws)))
  {
    var echoes := Echoes(echo, raws);
    EchoesAreMarked(echo, chain, family, raws);
    EchoesKeepForms(echo, chain, family, raws);
    ReverseIsSame(echoes);
    hide IsManaged, Listable;
    forall raw | raw in raws ensures HasForm(Reverse(echoes), Normalize(raw)) {
      var e :| e in echoes && Normalize(e) == Normalize(raw);
      assert e in Reverse(echoes);
    }
  }

  /** The other family's rules among those this family regards as foreign. */
  function Theirs(chain: Chain, family: Family, other: Family, rules: seq<Fields>): seq<Fields> {
    Select(chain, other, true, Select(chain, family, false, rules))
  }

  function OtherFamily(family: Family): Family {
    if family.HysteriaFamily? then MieruFamily else HysteriaFamily
  }

  /**
   * A chain after its repair: listable, in sync with the wanted rules, and no rule of the other family touched.
   * The other family's rules are exactly those it had before that did not also carry this family's mark, in
   * the same order.
   */
  predicate ChainRepaired(chain: Chain, family: Family, before: seq<Fields>, after: seq<Fields>, raws: seq<Fields>) {
    && AllListable(chain, after)
    && PlainlyMarked(chain, family, after)
    && InSync(chain, family, after, raws)
    && Select(chain, OtherFamily(family), true, after) == Theirs(chain, family, OtherFamily(family), before)
  }

  lemma WantedAmongForeign(chain: Chain, family: Family, rules: seq<Fields>, raws: seq<Fields>,
                           wanted: seq<Fields>, before: seq<Fields>, after: seq<Fields>)
    requires AllListable(chain, rules) && Marked(chain, family, wanted) && SameForms(raws, wanted)
    requires before + after == Select(chain, family, false, rules)
    ensures ChainRepaired(chain, family, rules, before + wanted + after, raws)
  {
    var other := OtherFamily(family);
    hide Listable, IsManaged, FormsWithin;
    forall f | f in before || f in after ensures f in rules && !IsManaged(chain, family, f) {
      assert f in before + after;
    }
    forall f | f in before + wanted + after ensures Listable(chain, f) {
      assert f in before || f in wanted || f in after;
    }
    OwnSelection(chain, family, before, wanted, after);
    OtherSelection(chain, family, other, before, wanted, after);
    hide Select, AllListable, Marked;
  }

  lemma OwnSelection(chain: Chain, family: Family, before: seq<Fields>, wanted: seq<Fields>, after: seq<Fields>)
    requires forall f :: f in before || f in after ==> !IsManaged(chain, family, f)
    requires Marked(chain, family, wanted)
    ensures Select(chain, family, true, before + wanted + after) == wanted
  {
    hide Listable, IsManaged, Select, AllPlain;
    SelectMiddle(chain, family, true, before, wanted, after);
    SelectAll(chain, family, false, before);
    SelectAll(chain, family, false, after);
    SelectAll(chain, family, true, wanted);
    AddNothing(wanted);
  }

  lemma OtherSelection(
      chain: Chain, family: Family, other: Family, before: seq<Fields>, wanted: seq<Fields>, after: seq<Fields>)
    requires Marked(chain, family, wanted) && other != family
    ensures Select(chain, other, true, before + wanted + after) == Select(chain, other, true, before + after)
  {
    hide Listable;
    SelectMiddle(chain, other, true, before, wanted, after);
    SelectConcat(chain, other, true, before, after);
    SelectAll(chain, other, false, wanted);
    hide Select, IsManaged;
    assert Select(chain, other, true, before) + [] == Select(chain, other, true, before);
  }

  lemma SelectMiddle(chain: Chain, family: Family, managed: bool, a: seq<Fields>, b: seq<Fields>, c: seq<Fields>)
    ensures Select(chain, family, managed, a + b + c)
         == Select(chain, family, managed, a) + Select(chain, family, managed, b) + Select(chain, family, managed, c)
  {
    SelectConcat(chain, family, managed, a + b, c);
    SelectConcat(chain, family, managed, a, b);
  }

  lemma PreroutingRepaired(echo: Echo, family: Family, rules: seq<Fields>, forwards: seq<Fields>)
    requires FaithfulEcho(echo) && AllListable(Prerouting, rules) && AllWritten(Prerouting, family, forwards)
    ensures ChainRepaired(Prerouting, family, rules,
                          Select(Prerouting, family, false, rules) + Echoes(echo, forwards), forwards)
  {
    hide Listable, IsManaged, FaithfulEcho, Written, Marked, SameForms, Select, AllListable, ChainRepaired, Echoes;
    EchoesAreMarked(echo, Prerouting, family, forwards);
    EchoesKeepForms(echo, Prerouting, family, forwards);
    var foreign, wanted := Select(Prerouting, family, false, rules), Echoes(echo, forwards);
    AddNothing(foreign);
    AddNothing(foreign + wanted);
    WantedAmongForeign(Prerouting, family, rules, forwards, wanted, foreign, []);
  }

  lemma InputRepaired(echo: Echo, family: Family, rules: seq<Fields>, allows: seq<Fields>)
    requires FaithfulEcho(echo) && AllListable(Input, rules) && AllWritten(Input, family, allows)
    ensures ChainRepaired(Input, family, rules,
                          Reverse(Echoes(echo, allows)) + Select(Input, family, false, rules), allows)
  {
    hide Listable, IsManaged, FaithfulEcho, Written, Marked, SameForms, Select, AllListable, ChainRepaired, Echoes;
    hide Reverse;
    ReversedEchoesAreManaged(echo, Input, family, allows);
    var foreign, wanted := Select(Input, family, false, rules), Reverse(Echoes(echo, allows));
    AddNothing(foreign);
    AddNothing(wanted);
    WantedAmongForeign(Input, family, rules, allows, wanted, [], foreign);
  }

  /** The repaired firewall is clean for the family, in both chains, and spares the other family. */
  lemma RepairedIsInSync(echo: Echo, family: Family, s: State, forwards: seq<Fields>, allows: seq<Fields>)
    requires FaithfulEcho(echo) && s.WellFormed()
    requires AllWritten(Prerouting, family, forwards) && AllWritten(Input, family, allows)
    ensures var t := Repaired(echo, family, s, forwards, allows);
            && ChainRepaired(Prerouting, family, s.prerouting, t.prerouting, forwards)
            && ChainRepaired(Input, family, s.input, t.input, allows)
            && t.WellFormed()
            && ReadsPlainly(family, t) && AllInSync(family, t, forwards, allows)
  {
    hide AllListable, FaithfulEcho, AllWritten, InSync, PlainlyMarked, Select, Echoes, Reverse, Theirs;
    PreroutingRepaired(echo, family, s.prerouting, forwards);
    InputRepaired(echo, family, s.input, allows);
  }

  /** One repair call leaves its family clean, whatever it started from. */
  lemma AfterRepairIsClean(echo: Echo, family: Family, infos: seq<NodeInfo>, s: State)
    requires FaithfulEcho(echo) && s.WellFormed()
    ensures Run(echo, s, IssuedCommands(family, infos, s)) == Some(AfterRepair(echo, family, infos, s))
    ensures AfterRepair(echo, family, infos, s).WellFormed()
    ensures Clean(family, infos, AfterRepair(echo, family, infos, s))
  {
    var forwards, allows := Forwards(family, infos), Allows(family, infos);
    PlanIsWritten(family, infos);
    if PlanStatus(family, infos, s).NeedsRepair() {
      RepairConverges(echo, family, s, forwards, allows);
      RepairedIsInSync(echo, family, s, forwards, allows);
      InspectionIsExact(family, Repaired(echo, family, s, forwards, allows), forwards, allows);
    }
  }

  // ----- Two families on one firewall -----

  lemma SelectCons(chain: Chain, family: Family, managed: bool, r: Fields, tail: seq<Fields>)
    ensures Select(chain, family, managed, [r] + tail) ==
            if IsManaged(chain, family, r) == managed then [r] + Select(chain, family, managed, tail)
            else Select(chain, family, managed, tail)
  {
    hide IsManaged;
    assert ([r] + tail)[1..] == tail;
  }

  /** If none of the other family's rules carries this family's mark, all of them are foreign to it. */
  lemma {:induction false} DisjointFamilies(chain: Chain, family: Family, other: Family, rules: seq<Fields>)
    requires forall f :: f in rules && IsManaged(chain, other, f) ==> !IsManaged(chain, family, f)
    ensures Theirs(chain, family, other, rules) == Select(chain, other, true, rules)
  {
    hide IsManaged;
    if rules != [] {
      var r, tail := rules[0], rules[1..];
      assert r in rules && rules == [r] + tail;
      DisjointFamilies(chain, family, other, tail);
      SelectCons(chain, family, false, r, tail);
      SelectCons(chain, other, true, r, tail);
      SelectCons(chain, other, true, r, Select(chain, family, false, tail));
      hide Select;
    }
  }

  /** Under a clean report every managed rule is keyed like some written one. */
  lemma CleanRuleKey(family: Family, s: State, forwards: seq<Fields>, allows: seq<Fields>, chain: Chain, f: Fields)
    returns (home: Chain, raw: Fields)
    requires !StatusOf(family, s, forwards, allows).NeedsRepair()
    requires AllWritten(Prerouting, family, forwards) && AllWritten(Input, family, allows)
    requires f in Select(chain, family, true, s.Rules(chain))
    ensures raw in (if home.Prerouting? then forwards else allows) && Written(home, family, raw)
    ensures Key(ParseSpec(Join(Normalize(f), ' '))) == Join(raw, '\0')
  {
    hide Written, Normalize, Join, ParseSpec, Key, Select, SpecTexts, ByKey;
    var pre, inp := Select(Prerouting, family, true, s.prerouting), Select(Input, family, true, s.input);
    var current, expected := SpecTexts(pre) + SpecTexts(inp), SpecTexts(forwards) + SpecTexts(allows);
    var text := Join(Normalize(f), ' ');
    AmongSpecTexts(pre, inp, f);
    ByKeyHolds(current, SpecKey(text));
    NothingExtra(ByKey(current), ByKey(expected), SpecKey(text));
    KeysComeFrom(forwards, allows);
    raw :| (raw in forwards || raw in allows) && SpecKey(Join(Normalize(raw), ' ')) == SpecKey(text);
    home := if raw in forwards then Prerouting else Input;
    WrittenKey(home, family, raw);
  }

  lemma AmongSpecTexts(pre: seq<Fields>, inp: seq<Fields>, f: Fields)
    requires f in pre || f in inp
    ensures Join(Normalize(f), ' ') in SpecTexts(pre) + SpecTexts(inp)
  {
    hide Normalize, Join;
    if f in pre {
      var i :| 0 <= i < |pre| && pre[i] == f;
      assert SpecTexts(pre)[i] in SpecTexts(pre);
    } else {
      var i :| 0 <= i < |inp| && inp[i] == f;
      assert SpecTexts(inp)[i] in SpecTexts(inp);
    }
  }

  lemma NothingExtra<K, V>(found: map<K, V>, wanted: map<K, V>, key: K)
    requires found - wanted.Keys == map[] && key in found
    ensures key in wanted
  {
    assert key !in found - wanted.Keys;
  }

  lemma WrittenKey(chain: Chain, family: Family, raw: Fields)
    requires Written(chain, family, raw)
    ensures SpecKey(Join(Normalize(raw), ' ')) == Join(raw, '\0')
  {
    hide IsManaged, Join, ParseSpec, HasPair;
    KeySurvivesText(raw);
  }

  /** Under a clean HY2 report no HY2 rule carries the Mieru mark as well: its key would give it away. */
  lemma {:induction false} CleanRulesAreOwn(s: State, forwards: seq<Fields>, allows: seq<Fields>,
                                            chain: Chain, f: Fields)
    requires !StatusOf(HysteriaFamily, s, forwards, allows).NeedsRepair()
    requires AllWritten(Prerouting, HysteriaFamily, forwards) && AllWritten(Input, HysteriaFamily, allows)
    requires f in Select(chain, HysteriaFamily, true, s.Rules(chain)) && Listable(chain, f)
    ensures !IsManaged(chain, MieruFamily, f)
  {
    hide StatusOf, AllWritten, Written, Select, Normalize, Join, ParseSpec, Key, HasPair, Listable, IsManaged;
    if IsManaged(chain, MieruFamily, f) {
      var home, raw := CleanRuleKey(HysteriaFamily, s, forwards, allows, chain, f);
      MarkInForm(chain, f);
      FormHasNoQuotes(chain, f);
      ValueConstantsArePlain();
      WrittenIsPlain(home, HysteriaFamily, raw);
      SameKeyKeepsPair(Normalize(f), raw, "--comment", MIERU_COMMENT);
      NoMarkInWritten(home, raw);
      assert false;
    }
  }

  lemma WrittenIsPlain(chain: Chain, family: Family, raw: Fields)
    requires Written(chain, family, raw)
    ensures AllPlain(raw) && raw != []
  {
  }

  lemma ValueConstantsArePlain()
    ensures IsPlain("--comment") && IsPlain(MIERU_COMMENT)
    ensures "--comment" != "-m" && MIERU_COMMENT != "-m" && !IsTransport("--comment") && !IsTransport(MIERU_COMMENT)
  {
  }

  lemma MarkInForm(chain: Chain, f: Fields)
    requires Listable(chain, f) && IsManaged(chain, MieruFamily, f)
    ensures HasPair(Normalize(f), "--comment", MIERU_COMMENT)
  {
    ManagedMeansPairs(chain, MieruFamily, f);
    ValueConstantsArePlain();
    hide Listable, IsManaged, HasPair, IsPlain, Normalize;
    PairInForm(chain, f, "--comment", MIERU_COMMENT);
  }

  /** Normalising keeps an option pair that is no part of an implicit match. */
  lemma PairInForm(chain: Chain, f: Fields, a: string, b: string)
    requires Listable(chain, f) && HasPair(Body(f), a, b)
    requires a != "-m" && b != "-m" && !IsTransport(a) && !IsTransport(b)
    ensures HasPair(Normalize(f), a, b)
  {
    ListableBody(chain, f);
    hide Listable, HasPair, Normalize;
    DropKeepsOtherPairs(Body(f), a, b);
    HasPairConcat(f[..2], Drop(Body(f)), a, b);
  }

  lemma FormHasNoQuotes(chain: Chain, f: Fields)
    requires Listable(chain, f)
    ensures forall i :: 0 <= i < |Normalize(f)| ==> '"' !in Normalize(f)[i]
  {
    ListableBody(chain, f);
    NormalizeIsDrop(f);
    hide Normalize, Drop;
    forall i | 0 <= i < |Drop(f)| ensures '"' !in Drop(f)[i] {
      DropTakesFrom(f, i);
    }
  }

  lemma {:induction false} DropTakesFrom(fields: Fields, i: nat)
    requires i < |Drop(fields)|
    ensures Drop(fields)[i] in fields
  {
    if IsImplicitMatch(fields, 0) {
      DropTakesFrom(fields[2..], i);
    } else if i > 0 {
      DropTakesFrom(fields[1..], i - 1);
    }
  }

  lemma NoMarkInWritten(chain: Chain, raw: Fields)
    requires Written(chain, HysteriaFamily, raw)
    ensures !HasPair(raw, "--comment", MIERU_COMMENT)
  {
    hide Normalize, AllPlain, IsManaged;
    ManagedMeansPairs(chain, HysteriaFamily, raw);
    ManagedMeansPairs(chain, MieruFamily, raw);
    hide Listable;
    HasPairStep(raw, "--comment", MIERU_COMMENT);
    HasPairStep(raw[1..], "--comment", MIERU_COMMENT);
    assert raw[1..][1..] == Body(raw);
    assert raw[0] == "-A" && raw[1] == chain.Name();
  }

  // ----- What a clean report says about texts -----

  /** A plain word stands in a written rule at least as often as in a rule keyed like it. */
  lemma WordInKey(chain: Chain, f: Fields, raw: Fields, word: string)
    requires Listable(chain, f) && AllPlain(raw) && raw != []
    requires Key(ParseSpec(Join(Normalize(f), ' '))) == Join(raw, '\0')
    requires IsPlain(word) && word != "-m" && !IsTransport(word)
    ensures Count(f, word) <= Count(raw, word)
  {
    ListableBody(chain, f);
    FormHasNoQuotes(chain, f);
    hide Listable, Normalize, Drop, Count, IsPlain;
    NormalizeIsDrop(f);
    CountDrop(f, word);
    SameKeyKeepsCount(Normalize(f), raw, word);
  }

  /** In a rule keyed like one of the agent's, the only option with text is one comment. */
  lemma TextsAreComments(chain: Chain, f: Fields, raw: Fields, i: nat)
    requires Listable(chain, f) && AllPlain(raw) && raw != [] && OwnOptions(raw)
    requires Key(ParseSpec(Join(Normalize(f), ' '))) == Join(raw, '\0')
    requires i < |f| && TakesText(f[i])
    ensures f[i] == "--comment" && Count(f, "--comment") <= 1
  {
    var word := f[i];
    hide Listable, Normalize, Count, IsPlain, Join, ParseSpec, Key;
    OptionIsNoMatch(word);
    ValueConstantsArePlain();
    WordInKey(chain, f, raw, word);
    WordInKey(chain, f, raw, "--comment");
    CountsOnce(f, word);
    CountsOnce(raw, word);
  }

  lemma OptionIsNoMatch(word: string)
    requires TakesText(word)
    ensures IsPlain(word) && word != "-m" && !IsTransport(word)
  {
  }

  lemma JumpIsPlain()
    ensures IsPlain("-j") && IsPlain(HYSTERIA_CHAIN)
    ensures "-j" != "-m" && HYSTERIA_CHAIN != "-m" && !IsTransport("-j") && !IsTransport(HYSTERIA_CHAIN)
  {
  }

  lemma NoJumpInWritten(chain: Chain, family: Family, raw: Fields)
    requires Written(chain, family, raw)
    ensures !HasPair(raw, "-j", HYSTERIA_CHAIN)
  {
    hide Normalize, AllPlain, IsManaged;
    HasPairStep(raw, "-j", HYSTERIA_CHAIN);
    HasPairStep(raw[1..], "-j", HYSTERIA_CHAIN);
    assert raw[1..][1..] == Body(raw);
    assert raw[0] == "-A" && raw[1] == chain.Name();
  }

  /** A managed rule keyed like a written one carries the mark itself, not the old jump. */
  lemma KeyedByMark(chain: Chain, family: Family, f: Fields, home: Chain, raw: Fields)
    requires Listable(chain, f) && IsManaged(chain, family, f) && Written(home, family, raw)
    requires Key(ParseSpec(Join(Normalize(f), ' '))) == Join(raw, '\0')
    ensures HasPair(Body(f), "--comment", family.Comment())
  {
    ManagedMeansPairs(chain, family, f);
    WrittenIsPlain(home, family, raw);
    FormHasNoQuotes(chain, f);
    hide Listable, IsManaged, HasPair, IsPlain, Normalize, Join, ParseSpec, Key, Written;
    if HasPair(Body(f), "-j", HYSTERIA_CHAIN) {
      JumpIsPlain();
      PairInForm(chain, f, "-j", HYSTERIA_CHAIN);
      SameKeyKeepsPair(Normalize(f), raw, "-j", HYSTERIA_CHAIN);
      NoJumpInWritten(home, family, raw);
    }
  }

  lemma CommentIsPlain(family: Family)
    ensures IsPlain(family.Comment())
  {
  }

  /** A second comment beside the mark gives a rule away. */
  lemma MarkIsOnlyComment(family: Family, f: Fields, i: nat)
    requires |f| >= 2 && HasPair(Body(f), "--comment", family.Comment())
    requires i + 1 < |f| && f[i] == "--comment" && f[i + 1] != family.Comment()
    ensures Count(f, "--comment") >= 2
  {
    hide Listable, HasPair, Count, Family.Comment, Body;
    PairsAt(f, "--comment", family.Comment());
    CountsTwice(f, "--comment");
    var j :| 2 <= j < |f| - 1 && f[j] == "--comment" && f[j + 1] == family.Comment();
    assert i != j;
  }

  /** A managed rule that iptables prints and that is keyed like one of the agent's is made of plain words. */
  lemma KeyedIsPlain(chain: Chain, family: Family, f: Fields, home: Chain, raw: Fields)
    requires Listable(chain, f) && IsManaged(chain, family, f) && TextBehindOptions(f)
    requires Written(home, family, raw) && OwnOptions(raw)
    requires Key(ParseSpec(Join(Normalize(f), ' '))) == Join(raw, '\0')
    ensures AllPlain(f)
  {
    hide Written, Normalize, Join, ParseSpec, Key, HasPair, Listable, IsManaged, IsPlain;
    hide OwnOptions, TakesText, Count, Family.Comment;
    WrittenIsPlain(home, family, raw);
    ListableBody(chain, f);
    forall i | 0 <= i < |f| ensures IsPlain(f[i]) {
      if !IsPlain(f[i]) {
        TextsAreComments(chain, f, raw, i - 1);
        KeyedByMark(chain, family, f, home, raw);
        CommentIsPlain(family);
        MarkIsOnlyComment(family, f, i - 1);
        assert false;
      }
    }
  }

  /** Under a clean report a managed rule that iptables prints is made of plain words. */
  lemma CleanRuleIsPlain(family: Family, s: State, forwards: seq<Fields>, allows: seq<Fields>, chain: Chain, f: Fields)
    requires !StatusOf(family, s, forwards, allows).NeedsRepair()
    requires AllWritten(Prerouting, family, forwards) && AllWritten(Input, family, allows)
    requires AllOwnOptions(forwards) && AllOwnOptions(allows)
    requires f in Select(chain, family, true, s.Rules(chain)) && Listable(chain, f) && TextBehindOptions(f)
    ensures AllPlain(f)
  {
    hide StatusOf, AllWritten, Written, Normalize, Join, ParseSpec, Key, Listable, IsManaged, AllPlain;
    hide OwnOptions, TextBehindOptions;
    var home, raw := CleanRuleKey(family, s, forwards, allows, chain, f);
    KeyedIsPlain(chain, family, f, home, raw);
  }

  /**
   * A clean report means that the family's rules are plain words exactly when they are as iptables prints rules:
   * the text a printed rule may hold would show in its key.
   */
  lemma CleanReadsPlainly(family: Family, infos: seq<NodeInfo>, s: State)
    requires s.WellFormed() && Clean(family, infos, s)
    ensures ReadsPlainly(family, s) <==> AsPrinted(family, s)
  {
    hide StatusOf, AllWritten, AllOwnOptions, IsManaged, Listable, TextBehindOptions, Select, Forwards, Allows;
    PlanIsWritten(family, infos);
    PlanIsOwn(family, infos);
    assert AllListable(Prerouting, s.prerouting) && AllListable(Input, s.input);
    if AsPrinted(family, s) {
      forall f | f in s.prerouting && IsManaged(Prerouting, family, f) ensures AllPlain(f) {
        CleanRuleIsPlain(family, s, Forwards(family, infos), Allows(family, infos), Prerouting, f);
      }
      forall f | f in s.input && IsManaged(Input, family, f) ensures AllPlain(f) {
        CleanRuleIsPlain(family, s, Forwards(family, infos), Allows(family, infos), Input, f);
      }
    }
    if ReadsPlainly(family, s) {
      PlainIsPrinted(family, s);
    }
  }

  lemma PlainIsPrinted(family: Family, s: State)
    requires ReadsPlainly(family, s)
    ensures AsPrinted(family, s)
  {
    hide IsManaged, IsPlain;
  }

  /**
   * So a clean report can be trusted on any firewall whose rules are as iptables prints rules: it is clean exactly
   * when everything is in sync. Rules printed otherwise are what a report can get wrong, and all it can.
   */
  lemma PrintedInspectionIsExact(family: Family, infos: seq<NodeInfo>, s: State)
    requires s.WellFormed()
    ensures var synced := AllInSync(family, s, Forwards(family, infos), Allows(family, infos));
            && (AsPrinted(family, s) ==> (Clean(family, infos, s) <==> synced))
            && ((Clean(family, infos, s) <==> synced) <==> !Clean(family, infos, s) || AsPrinted(family, s))
  {
    hide AllWritten, StatusOf, AllInSync, ReadsPlainly, AsPrinted, Forwards, Allows, State.WellFormed;
    PlanIsWritten(family, infos);
    InspectionIsExact(family, s, Forwards(family, infos), Allows(family, infos));
    if Clean(family, infos, s) {
      CleanReadsPlainly(family, infos, s);
    }
  }

  // ----- Interrupted calls -----

  /**
   * A repair call cut short after any command. The next call ends clean with the foreign rules in order; it leaves
   * what the whole call would have left exactly when it finds something to repair or the cut was there already.
   */
  lemma InterruptedCallRecovers(echo: Echo, family: Family, infos: seq<NodeInfo>, s: State, k: nat)
    requires FaithfulEcho(echo) && s.WellFormed() && k <= |IssuedCommands(family, infos, s)|
    ensures Run(echo, s, IssuedCommands(family, infos, s)[..k]).Some?
    ensures var cut := Run(echo, s, IssuedCommands(family, infos, s)[..k]).value;
            var next, whole := AfterRepair(echo, family, infos, cut), AfterRepair(echo, family, infos, s);
            && Run(echo, cut, IssuedCommands(family, infos, cut)) == Some(next)
            && Clean(family, infos, next) && Preserves(family, s, next)
            && (next == whole <==> !Clean(family, infos, cut) || cut == whole)
  {
    var forwards, allows := Forwards(family, infos), Allows(family, infos);
    PlanIsWritten(family, infos);
    hide StatusOf, CommandsFor, Repaired, Forwards, Allows, FaithfulEcho, AllWritten, Preserves, Run, State.WellFormed;
    if Clean(family, infos, s) {
      NothingRuns(echo, s, IssuedCommands(family, infos, s)[..k]);
      PreservesItself(family, s);
      AfterRepairIsClean(echo, family, infos, s);
    } else {
      CutCallRecovers(echo, family, infos, s, k);
    }
  }

  lemma NothingRuns(echo: Echo, s: State, commands: seq<Args>)
    requires commands == []
    ensures Run(echo, s, commands) == Some(s)
  {
  }

  lemma CutCallRecovers(echo: Echo, family: Family, infos: seq<NodeInfo>, s: State, k: nat)
    requires FaithfulEcho(echo) && s.WellFormed() && !Clean(family, infos, s)
    requires k <= |PlanCommands(family, infos, s)|
    ensures Run(echo, s, PlanCommands(family, infos, s)[..k]).Some?
    ensures var cut := Run(echo, s, PlanCommands(family, infos, s)[..k]).value;
            var next, whole := AfterRepair(echo, family, infos, cut), AfterRepair(echo, family, infos, s);
            && Run(echo, cut, IssuedCommands(family, infos, cut)) == Some(next)
            && Clean(family, infos, next) && Preserves(family, s, next)
            && (!Clean(family, infos, cut) ==> next == whole)
            && (Clean(family, infos, cut) ==> next == cut)
  {
    var forwards, allows := Forwards(family, infos), Allows(family, infos);
    PlanIsWritten(family, infos);
    InterruptedRepairRecovers(echo, family, s, forwards, allows, k);
    hide StatusOf, CommandsFor, Repaired, Forwards, Allows, FaithfulEcho, AllWritten, Preserves, Run, State.WellFormed;
    var cut := Run(echo, s, PlanCommands(family, infos, s)[..k]).value;
    PreservesOnward(family, s, cut, cut);
    AfterRepairIsClean(echo, family, infos, cut);
    AfterRepairIsClean(echo, family, infos, s);
    if !Clean(family, infos, cut) {
      RepairPreserves(echo, family, s, forwards, allows);
    }
  }

  /** A whole repair leaves the foreign rules alone. */
  lemma RepairPreserves(echo: Echo, family: Family, s: State, forwards: seq<Fields>, allows: seq<Fields>)
    requires FaithfulEcho(echo) && s.WellFormed()
    requires AllWritten(Prerouting, family, forwards) && AllWritten(Input, family, allows)
    ensures Preserves(family, s, Repaired(echo, family, s, forwards, allows))
  {
    hide CommandsFor, Repaired, FaithfulEcho, AllWritten, Preserves, Run, State.WellFormed;
    var commands := CommandsFor(family, s, forwards, allows);
    InterruptedRepairRecovers(echo, family, s, forwards, allows, |commands|);
    RepairConverges(echo, family, s, forwards, allows);
    assert commands[..|commands|] == commands;
  }

  /** The rules of a plan as the kernel lists them, standing beside foreign rules, are all a report asks for. */
  lemma WantedIsClean(echo: Echo, family: Family, infos: seq<NodeInfo>, foreign: seq<Fields>)
    requires FaithfulEcho(echo) && Foreign(Prerouting, family, foreign)
    ensures var wanted, allowed := Echoes(echo, Forwards(family, infos)), Reverse(Echoes(echo, Allows(family, infos)));
            var cut := State(wanted + foreign, allowed, None);
            cut.WellFormed() && Clean(family, infos, cut)
  {
    var forwards, allows := Forwards(family, infos), Allows(family, infos);
    var wanted, allowed := Echoes(echo, forwards), Reverse(Echoes(echo, allows));
    var cut := State(wanted + foreign, allowed, None);
    PlanIsWritten(family, infos);
    hide Forwards, Allows, Echoes, Reverse, FaithfulEcho, AllWritten, Listable, IsManaged, Select, StatusOf;
    hide Marked, SameForms, InSync, PlainlyMarked;
    EchoesAreMarked(echo, Prerouting, family, forwards);
    EchoesKeepForms(echo, Prerouting, family, forwards);
    ReversedEchoesAreManaged(echo, Input, family, allows);
    SelectAll(Prerouting, family, false, foreign);
    SelectNothingForeign(family);
    AddNothing(foreign);
    AddNothing(allowed);
    WantedAmongForeign(Prerouting, family, foreign, forwards, wanted, [], foreign);
    WantedAmongForeign(Input, family, [], allows, allowed, [], []);
    AddNothing(wanted);
    InspectionIsExact(family, cut, forwards, allows);
  }

  lemma SelectNothingForeign(family: Family)
    ensures Select(Input, family, false, []) == []
  {
  }

  /** A managed rule that no plan rule has the form of makes the report ask for a repair. */
  lemma StaleAsksForRepair(family: Family, infos: seq<NodeInfo>, s: State, stale: Fields)
    requires s.WellFormed() && stale in s.prerouting && IsManaged(Prerouting, family, stale)
    requires !HasForm(Forwards(family, infos), Normalize(stale)) && AsPrinted(family, s)
    ensures !Clean(family, infos, s)
  {
    hide Forwards, Allows, IsManaged, Listable, Normalize, Clean, TextBehindOptions;
    PrintedInspectionIsExact(family, infos, s);
    assert stale in Select(Prerouting, family, true, s.prerouting);
  }

  /** The plan's rules as the kernel lists them. */
  function Listed(echo: Echo, family: Family, infos: seq<NodeInfo>): seq<Fields> {
    Echoes(echo, Forwards(family, infos))
  }

  /** The firewall of these PREROUTING rules, with the plan's own rules in INPUT. */
  function WithAllows(echo: Echo, family: Family, infos: seq<NodeInfo>, prerouting: seq<Fields>): State {
    State(prerouting, Reverse(Echoes(echo, Allows(family, infos))), None)
  }

  /** A repair starts by deleting the first managed rule. */
  lemma FirstCommandDeletes(echo: Echo, family: Family, s: State, forwards: seq<Fields>, allows: seq<Fields>,
                            stale: Fields, tail: seq<Fields>)
    requires s.prerouting == [stale] + tail
    requires Listable(Prerouting, stale) && IsManaged(Prerouting, family, stale)
    ensures CommandsFor(family, s, forwards, allows) != []
    ensures Run(echo, s, CommandsFor(family, s, forwards, allows)[..1]) == Some(s.(prerouting := tail))
  {
    hide Step, DeleteArgs, Select, IsManaged, Listable, Normalize, Run;
    assert s.prerouting[1..] == tail;
    SelectHead(Prerouting, family, s.prerouting);
    StepDelete(echo, s, Prerouting, stale);
    DeleteFirstCons(stale, tail, stale);
    var commands := CommandsFor(family, s, forwards, allows);
    assert commands[..1] == [DeleteArgs(Prerouting, stale)];
    RunOne(echo, s, DeleteArgs(Prerouting, stale));
  }

  lemma RunOne(echo: Echo, s: State, command: Args)
    ensures Run(echo, s, [command]) == Step(echo, s, command)
  {
    hide Step;
    var commands := [command];
    assert commands[1..] == [];
    match Step(echo, s, command)
    case None =>
    case Some(t) => assert Run(echo, t, commands[1..]) == Some(t);
  }

  /** Repairing the plan's own rules between stale and foreign ones moves them behind the foreign ones. */
  lemma RepairMovesWanted(echo: Echo, family: Family, infos: seq<NodeInfo>, stale: Fields, foreign: seq<Fields>)
    requires FaithfulEcho(echo) && Foreign(Prerouting, family, foreign) && IsManaged(Prerouting, family, stale)
    ensures var s := WithAllows(echo, family, infos, [stale] + (Listed(echo, family, infos) + foreign));
            Repaired(echo, family, s, Forwards(family, infos), Allows(family, infos))
              == WithAllows(echo, family, infos, foreign + Listed(echo, family, infos))
  {
    var forwards, allows := Forwards(family, infos), Allows(family, infos);
    var wanted, allowed := Echoes(echo, forwards), Reverse(Echoes(echo, allows));
    PlanIsWritten(family, infos);
    hide Forwards, Allows, Echoes, Reverse, FaithfulEcho, AllWritten, Listable, IsManaged, Select, AllPlain;
    EchoesAreMarked(echo, Prerouting, family, forwards);
    ReversedEchoesAreManaged(echo, Input, family, allows);
    SelectAll(Prerouting, family, true, [stale]);
    SelectAll(Prerouting, family, true, wanted);
    SelectAll(Prerouting, family, false, foreign);
    SelectAll(Input, family, true, allowed);
    SelectConcat(Prerouting, family, false, wanted, foreign);
    SelectConcat(Prerouting, family, false, [stale], wanted + foreign);
    AddNothing(foreign);
    AddNothing(allowed);
  }

  lemma StaleIsWellFormed(echo: Echo, family: Family, infos: seq<NodeInfo>, stale: Fields, foreign: seq<Fields>)
    requires FaithfulEcho(echo) && Foreign(Prerouting, family, foreign)
    requires Listable(Prerouting, stale) && TextBehindOptions(stale)
    ensures var s := WithAllows(echo, family, infos, [stale] + (Listed(echo, family, infos) + foreign));
            s.WellFormed() && AsPrinted(family, s)
  {
    var forwards, allows := Forwards(family, infos), Allows(family, infos);
    var wanted, allowed := Echoes(echo, forwards), Reverse(Echoes(echo, allows));
    PlanIsWritten(family, infos);
    hide Forwards, Allows, Echoes, Reverse, FaithfulEcho, AllWritten, Listable, IsManaged, IsPlain;
    EchoesAreMarked(echo, Prerouting, family, forwards);
    ReversedEchoesAreManaged(echo, Input, family, allows);
    forall f | f in [stale] + (wanted + foreign)
      ensures Listable(Prerouting, f) && (IsManaged(Prerouting, family, f) ==> TextBehindOptions(f))
    {
      assert f == stale || f in wanted || f in foreign;
    }
  }

  /**
   * Why the next call may settle for less: a call cut after deleting a stale rule in front of wanted ones. What is
   * left is clean, so the next call stays with it, while the whole call would have moved the wanted rules behind
   * the foreign ones.
   */
  lemma CutCallStays(echo: Echo, family: Family, infos: seq<NodeInfo>, stale: Fields, foreign: seq<Fields>)
    requires FaithfulEcho(echo) && Forwards(family, infos) != []
    requires foreign != [] && Foreign(Prerouting, family, foreign)
    requires Listable(Prerouting, stale) && TextBehindOptions(stale)
    requires IsManaged(Prerouting, family, stale) && !HasForm(Forwards(family, infos), Normalize(stale))
    ensures var wanted := Listed(echo, family, infos);
            var s := WithAllows(echo, family, infos, [stale] + (wanted + foreign));
            var cut := WithAllows(echo, family, infos, wanted + foreign);
            && s.WellFormed() && AsPrinted(family, s) && !Clean(family, infos, s)
            && IssuedCommands(family, infos, s) != []
            && Run(echo, s, IssuedCommands(family, infos, s)[..1]) == Some(cut)
            && Clean(family, infos, cut) && AfterRepair(echo, family, infos, cut) == cut
            && AfterRepair(echo, family, infos, s) == WithAllows(echo, family, infos, foreign + wanted)
            && AfterRepair(echo, family, infos, s) != cut
  {
    var forwards, allows, wanted := Forwards(family, infos), Allows(family, infos), Listed(echo, family, infos);
    var s := WithAllows(echo, family, infos, [stale] + (wanted + foreign));
    PlanIsWritten(family, infos);
    EchoesAreMarked(echo, Prerouting, family, forwards);
    hide Forwards, Allows, FaithfulEcho, Listable, IsManaged, Normalize, StatusOf, CommandsFor, Repaired, AsPrinted;
    hide TextBehindOptions, AllWritten, State.WellFormed, Reverse, Run, AllPlain;
    StaleIsWellFormed(echo, family, infos, stale, foreign);
    StaleAsksForRepair(family, infos, s, stale);
    FirstCommandDeletes(echo, family, s, forwards, allows, stale, wanted + foreign);
    WantedIsClean(echo, family, infos, foreign);
    RepairMovesWanted(echo, family, infos, stale, foreign);
    assert wanted[0] in wanted && foreign[0] in foreign;
    assert (wanted + foreign)[0] == wanted[0] && (foreign + wanted)[0] == foreign[0];
  }

  // ----- Repairing one family beside the other -----

  /** So a Mieru repair, which touches only Mieru rules, leaves the HY2 rules of the chain exactly as they were. */
  lemma CleanRulesStay(s: State, forwards: seq<Fields>, allows: seq<Fields>, chain: Chain)
    requires s.WellFormed() && !StatusOf(HysteriaFamily, s, forwards, allows).NeedsRepair()
    requires AllWritten(Prerouting, HysteriaFamily, forwards) && AllWritten(Input, HysteriaFamily, allows)
    ensures Theirs(chain, MieruFamily, HysteriaFamily, s.Rules(chain))
         == Select(chain, HysteriaFamily, true, s.Rules(chain))
  {
    hide StatusOf, AllWritten, Select, IsManaged, Listable, Theirs;
    var rules := s.Rules(chain);
    forall f | f in rules && IsManaged(chain, HysteriaFamily, f) ensures !IsManaged(chain, MieruFamily, f) {
      assert AllListable(chain, rules);
      CleanRulesAreOwn(s, forwards, allows, chain, f);
    }
    DisjointFamilies(chain, MieruFamily, HysteriaFamily, rules);
  }

  /** The two states hold the same rules of a family, in order. */
  predicate SameRules(family: Family, s: State, t: State) {
    && Select(Prerouting, family, true, t.prerouting) == Select(Prerouting, family, true, s.prerouting)
    && Select(Input, family, true, t.input) == Select(Input, family, true, s.input)
  }

  /** Repairing Mieru under a clean HY2 report leaves the HY2 rules as they were. */
  lemma RepairKeepsOtherRules(echo: Echo, infos: seq<NodeInfo>, s: State)
    requires FaithfulEcho(echo) && s.WellFormed() && Clean(HysteriaFamily, infos, s)
    ensures var t := AfterRepair(echo, MieruFamily, infos, s);
            SameRules(HysteriaFamily, s, t) && t.userChain == s.userChain
  {
    var family, other := MieruFamily, HysteriaFamily;
    if PlanStatus(family, infos, s).NeedsRepair() {
      hide AllWritten, AllListable, InSync, PlainlyMarked, StatusOf, Repaired, Forwards, Allows, FaithfulEcho;
      PlanIsWritten(family, infos);
      PlanIsWritten(other, infos);
      RepairedIsInSync(echo, family, s, Forwards(family, infos), Allows(family, infos));
      RepairKeepsUserChain(echo, s, Forwards(family, infos), Allows(family, infos));
      CleanRulesStay(s, Forwards(other, infos), Allows(other, infos), Prerouting);
      CleanRulesStay(s, Forwards(other, infos), Allows(other, infos), Input);
    }
  }

  lemma SameRulesSameReport(family: Family, infos: seq<NodeInfo>, s: State, t: State)
    requires SameRules(family, s, t) && t.userChain == s.userChain
    ensures PlanStatus(family, infos, t) == PlanStatus(family, infos, s)
    ensures ReadsPlainly(family, t) <==> ReadsPlainly(family, s)
  {
    hide Forwards, Allows, SpecTexts, ByKey, AllPlain, IsManaged;
    assert forall f :: f in s.prerouting && IsManaged(Prerouting, family, f) <==>
                       f in Select(Prerouting, family, true, s.prerouting);
    assert forall f :: f in t.prerouting && IsManaged(Prerouting, family, f) <==>
                       f in Select(Prerouting, family, true, t.prerouting);
    assert forall f :: f in s.input && IsManaged(Input, family, f) <==> f in Select(Input, family, true, s.input);
    assert forall f :: f in t.input && IsManaged(Input, family, f) <==> f in Select(Input, family, true, t.input);
  }

  /** So it leaves the report clean, and the rules as readable as they were. */
  lemma RepairKeepsOtherClean(echo: Echo, infos: seq<NodeInfo>, s: State)
    requires FaithfulEcho(echo) && s.WellFormed() && Clean(HysteriaFamily, infos, s)
    ensures var t := AfterRepair(echo, MieruFamily, infos, s);
            && PlanStatus(HysteriaFamily, infos, t) == PlanStatus(HysteriaFamily, infos, s)
            && (ReadsPlainly(HysteriaFamily, t) <==> ReadsPlainly(HysteriaFamily, s))
  {
    hide SameRules, PlanStatus, AfterRepair, ReadsPlainly;
    RepairKeepsOtherRules(echo, infos, s);
    SameRulesSameReport(HysteriaFamily, infos, s, AfterRepair(echo, MieruFamily, infos, s));
  }

  lemma RepairKeepsUserChain(echo: Echo, s: State, forwards: seq<Fields>, allows: seq<Fields>)
    ensures Repaired(echo, MieruFamily, s, forwards, allows).userChain == s.userChain
  {
  }

  /** A family's rules will read plainly after its repair: they do, or its report asks for the repair. */
  predicate WillReadPlainly(family: Family, infos: seq<NodeInfo>, s: State) {
    ReadsPlainly(family, s) || !Clean(family, infos, s)
  }

  lemma RepairReadsPlainly(echo: Echo, family: Family, infos: seq<NodeInfo>, s: State)
    requires FaithfulEcho(echo) && s.WellFormed()
    ensures ReadsPlainly(family, AfterRepair(echo, family, infos, s)) <==> WillReadPlainly(family, infos, s)
  {
    hide AllWritten, AllListable, InSync, StatusOf, Repaired, Forwards, Allows, FaithfulEcho, ReadsPlainly;
    hide ChainRepaired;
    PlanIsWritten(family, infos);
    RepairedIsInSync(echo, family, s, Forwards(family, infos), Allows(family, infos));
  }

  /** A chain that gains only plain rules stays as printed. */
  lemma PrintedWithPlain(chain: Chain, family: Family, before: seq<Fields>, after: seq<Fields>)
    requires MarkedAsPrinted(chain, family, before)
    requires forall f :: f in after ==> f in before || AllPlain(f)
    ensures MarkedAsPrinted(chain, family, after)
  {
    hide IsManaged, IsPlain;
  }

  /** A repair writes plain words only, so it leaves every family's rules as iptables prints rules. */
  lemma RepairKeepsPrinted(echo: Echo, family: Family, infos: seq<NodeInfo>, s: State, any: Family)
    requires FaithfulEcho(echo) && AsPrinted(any, s)
    ensures AsPrinted(any, AfterRepair(echo, family, infos, s))
  {
    hide AllWritten, StatusOf, Forwards, Allows, FaithfulEcho, IsManaged, MarkedAsPrinted, Listable, IsPlain;
    PlanIsWritten(family, infos);
    var forwards, allows := Forwards(family, infos), Allows(family, infos);
    var t := Repaired(echo, family, s, forwards, allows);
    EchoesAreMarked(echo, Prerouting, family, forwards);
    EchoesAreMarked(echo, Input, family, allows);
    ReverseIsSame(Echoes(echo, allows));
    PrintedWithPlain(Prerouting, any, s.prerouting, t.prerouting);
    PrintedWithPlain(Input, any, s.input, t.input);
  }

  /** One round of the control loop: HY2 first, then Mieru. */
  function AfterRound(echo: Echo, infos: seq<NodeInfo>, s: State): State {
    AfterRepair(echo, MieruFamily, infos, AfterRepair(echo, HysteriaFamily, infos, s))
  }

  /** The state a family's repair finds in a round: Mieru's comes after HY2's. */
  function AtItsTurn(family: Family, echo: Echo, infos: seq<NodeInfo>, s: State): State {
    if family.HysteriaFamily? then s else AfterRepair(echo, HysteriaFamily, infos, s)
  }

  /** From any start, one round ends with both families clean and every further round issues no command. */
  lemma RoundSettles(echo: Echo, infos: seq<NodeInfo>, s: State)
    requires FaithfulEcho(echo) && s.WellFormed()
    ensures var t := AfterRound(echo, infos, s);
            && t.WellFormed()
            && Clean(HysteriaFamily, infos, t) && Clean(MieruFamily, infos, t)
            && IssuedCommands(HysteriaFamily, infos, t) == [] && IssuedCommands(MieruFamily, infos, t) == []
            && AfterRound(echo, infos, t) == t
  {
    hide PlanStatus, PlanCommands, Repaired, FaithfulEcho, ReadsPlainly, Run, State.WellFormed;
    var middle := AfterRepair(echo, HysteriaFamily, infos, s);
    AfterRepairIsClean(echo, HysteriaFamily, infos, s);
    AfterRepairIsClean(echo, MieruFamily, infos, middle);
    RepairKeepsOtherClean(echo, infos, middle);
  }

  /** After a round a family's rules read plainly exactly when they did at its turn or its report asked for repair. */
  lemma RoundReadsPlainly(echo: Echo, family: Family, infos: seq<NodeInfo>, s: State)
    requires FaithfulEcho(echo) && s.WellFormed()
    ensures ReadsPlainly(family, AfterRound(echo, infos, s))
       <==> WillReadPlainly(family, infos, AtItsTurn(family, echo, infos, s))
  {
    hide PlanStatus, AfterRepair, FaithfulEcho, ReadsPlainly, WillReadPlainly, Run, State.WellFormed;
    var middle := AfterRepair(echo, HysteriaFamily, infos, s);
    AfterRepairIsClean(echo, HysteriaFamily, infos, s);
    if family.HysteriaFamily? {
      RepairReadsPlainly(echo, HysteriaFamily, infos, s);
      RepairKeepsOtherClean(echo, infos, middle);
    } else {
      RepairReadsPlainly(echo, MieruFamily, infos, middle);
    }
  }

  /** A family's rules that are as printed when the round starts will read plainly after its repair. */
  lemma PrintedWillReadPlainly(echo: Echo, family: Family, infos: seq<NodeInfo>, s: State)
    requires FaithfulEcho(echo) && s.WellFormed() && AsPrinted(family, s)
    ensures WillReadPlainly(family, infos, AtItsTurn(family, echo, infos, s))
  {
    hide PlanStatus, AfterRepair, FaithfulEcho, ReadsPlainly, AsPrinted, Run, State.WellFormed, Clean;
    AfterRepairIsClean(echo, HysteriaFamily, infos, s);
    RepairKeepsPrinted(echo, HysteriaFamily, infos, s, family);
    var t := AtItsTurn(family, echo, infos, s);
    if Clean(family, infos, t) {
      CleanReadsPlainly(family, infos, t);
    }
  }

  // ----- The calls themselves -----

  /** Lists a tool's firewall and reports on it. */
  method InspectTool(family: Family, infos: seq<NodeInfo>, firewall: Firewall) returns (status: ToolStatus)
    requires firewall.Current().WellFormed()
    ensures status == PlanStatus(family, infos, firewall.Current())
  {
    var rules, _ := BuildRules(family, infos);
    var preroutingLines := firewall.List(Prerouting);
    var inputLines := firewall.List(Input);
    var stale := family.HysteriaFamily? && firewall.userChain.Some?;
    StatusFromListing(family, firewall.Current(), Forwards(family, infos), Allows(family, infos),
                      preroutingLines, inputLines);
    status := Inspect(family, RawForwards(rules), RawAllows(AllowRules(family, infos)),
                      ParseLines(preroutingLines), ParseLines(inputLines), stale);
  }

  /** Lists the firewall again, computes the commands and runs them. */
  method ExecuteRepair(family: Family, infos: seq<NodeInfo>, firewall: Firewall) returns (ok: bool)
    requires FaithfulEcho(firewall.echo) && firewall.Current().WellFormed()
    modifies firewall
    ensures ok
    ensures firewall.Current() == Repaired(firewall.echo, family, old(firewall.Current()),
                                           Forwards(family, infos), Allows(family, infos))
  {
    var rules, _ := BuildRules(family, infos);
    var preroutingLines := firewall.List(Prerouting);
    var inputLines := firewall.List(Input);
    var present := firewall.userChain.Some?;
    ghost var s := firewall.Current();
    CommandsFromListing(family, s, Forwards(family, infos), Allows(family, infos), preroutingLines, inputLines);
    PlanIsWritten(family, infos);
    RepairConverges(firewall.echo, family, s, Forwards(family, infos), Allows(family, infos));
    hide Repaired, RepairCommands, FaithfulEcho, Run;
    var commands := ReconcileCommands(family, rules, AllowRules(family, infos), preroutingLines, inputLines, present);
    ghost var done;
    ok, done := firewall.Execute(commands);
    assert commands[..|commands|] == commands;
  }

  /** Repairs one tool if its inspection asks for it and the agent runs as root. */
  method RepairTool(family: Family, infos: seq<NodeInfo>, firewall: Firewall, root: bool)
    returns (status: ToolStatus, refused: bool)
    requires FaithfulEcho(firewall.echo) && firewall.Current().WellFormed()
    modifies firewall
    ensures status == PlanStatus(family, infos, firewall.Current())
    ensures root ==> firewall.Current() == AfterRepair(firewall.echo, family, infos, old(firewall.Current()))
    ensures root ==> !status.NeedsRepair() && !refused
    ensures !root ==> firewall.Current() == old(firewall.Current())
    ensures !root ==>
              (refused <==> Forwards(family, infos) != [] || Allows(family, infos) != [] || status.NeedsRepair())
    ensures firewall.Current().WellFormed()
  {
    AfterRepairIsClean(firewall.echo, family, infos, firewall.Current());
    status := InspectTool(family, infos, firewall);
    refused := false;
    if !root {
      refused := Forwards(family, infos) != [] || Allows(family, infos) != [] || status.NeedsRepair();
      return;
    }
    if status.NeedsRepair() {
      var _ := ExecuteRepair(family, infos, firewall);
      status := InspectTool(family, infos, firewall);
    }
  }

  /** What the control loop does with one tool each time it applies a plan. */
  method Round(infos: seq<NodeInfo>, firewall: Firewall) returns (hysteria: ToolStatus, mieru: ToolStatus)
    requires FaithfulEcho(firewall.echo) && firewall.Current().WellFormed()
    modifies firewall
    ensures firewall.Current() == AfterRound(firewall.echo, infos, old(firewall.Current()))
    ensures firewall.Current().WellFormed()
    ensures !hysteria.NeedsRepair() && !mieru.NeedsRepair()
  {
    var refused;
    hysteria, refused := RepairTool(HysteriaFamily, infos, firewall, true);
    mieru, refused := RepairTool(MieruFamily, infos, firewall, true);
  }

  /** Removes everything HY2 left behind, unconditionally, and keeps every foreign rule. */
  method Cleanup(firewall: Firewall) returns (ok: bool)
    requires FaithfulEcho(firewall.echo) && firewall.Current().WellFormed()
    modifies firewall
    ensures ok
    ensures firewall.prerouting == Select(Prerouting, HysteriaFamily, false, old(firewall.prerouting))
    ensures firewall.input == Select(Input, HysteriaFamily, false, old(firewall.input))
    ensures firewall.userChain == None
  {
    var preroutingLines := firewall.List(Prerouting);
    var inputLines := firewall.List(Input);
    var present := firewall.userChain.Some?;
    ghost var s := firewall.Current();
    CommandsFromListing(HysteriaFamily, s, [], [], preroutingLines, inputLines);
    RepairConverges(firewall.echo, HysteriaFamily, s, [], []);
    var commands := ReconcileCommands(HysteriaFamily, [], [], preroutingLines, inputLines, present);
    assert RawForwards([]) == [] && RawAllows([]) == [];
    ghost var done;
    ok, done := firewall.Execute(commands);
    assert commands[..|commands|] == commands;
    assert firewall.Current() == Repaired(firewall.echo, HysteriaFamily, s, [], []);
    assert Select(Prerouting, HysteriaFamily, false, s.prerouting) + []
        == Select(Prerouting, HysteriaFamily, false, s.prerouting);
    assert [] + Select(Input, HysteriaFamily, false, s.input) == Select(Input, HysteriaFamily, false, s.input);
  }
}
