// What a report lists: the wanted and the managed rules, and which of them are missing or extra.
module Reports {
  import opened Sequences
  import opened Results
  import opened Text
  import opened SpecText
  import opened SpecLaws
  import opened PortPlanner
  import opened ManagedRules
  import opened Firewall
  import opened RuleSpecs
  import opened Inspection
  import opened Control

  function Managed(chain: Chain, family: Family, s: State): seq<Fields> {
    Select(chain, family, true, s.Rules(chain))
  }

  function Wanted(chain: Chain, forwards: seq<Fields>, allows: seq<Fields>): seq<Fields> {
    if chain.Prerouting? then forwards else allows
  }

  /** The text a report shows for a rule. */
  function Shown(f: Fields): string {
    Join(Normalize(f), ' ')
  }

  /** The rules a plan can want, in a report on a firewall whose rules of the family are as iptables prints rules. */
  predicate Comparable(family: Family, s: State, forwards: seq<Fields>, allows: seq<Fields>) {
    && s.WellFormed() && AsPrinted(family, s)
    && AllWritten(Prerouting, family, forwards) && AllWritten(Input, family, allows)
    && AllOwnOptions(forwards) && AllOwnOptions(allows)
  }

  // ----- Keys decide forms -----

  /** A managed rule and a wanted one share a key exactly when they have the same form, and then the same chain. */
  lemma SharedKey(
      family: Family, s: State, forwards: seq<Fields>, allows: seq<Fields>,
      chain: Chain, f: Fields, home: Chain, raw: Fields)
    requires Comparable(family, s, forwards, allows)
    requires f in Managed(chain, family, s) && raw in Wanted(home, forwards, allows)
    ensures SpecKey(Shown(f)) == SpecKey(Shown(raw)) <==> chain == home && Normalize(f) == Normalize(raw)
  {
    hide Normalize, Join, ParseSpec, Key, IsManaged, Written, OwnOptions, AllPlain, TextBehindOptions;
    ManagedIsListable(family, s, chain, f);
    WantedIsWritten(family, forwards, allows, home, raw);
    hide Comparable, Managed, Wanted, Listable;
    WrittenKey(home, family, raw);
    WrittenIsKeyable(home, family, raw);
    if SpecKey(Shown(f)) == SpecKey(Shown(raw)) {
      KeyedIsPlain(chain, family, f, home, raw);
      SameKeySameForm(chain, f, home, raw);
    }
  }

  lemma ManagedIsListable(family: Family, s: State, chain: Chain, f: Fields)
    requires s.WellFormed() && AsPrinted(family, s) && f in Managed(chain, family, s)
    ensures Listable(chain, f) && IsManaged(chain, family, f) && TextBehindOptions(f)
  {
    hide Listable, IsManaged, TextBehindOptions;
    assert AllListable(chain, s.Rules(chain)) && MarkedAsPrinted(chain, family, s.Rules(chain));
  }

  lemma WantedIsWritten(family: Family, forwards: seq<Fields>, allows: seq<Fields>, chain: Chain, raw: Fields)
    requires AllWritten(Prerouting, family, forwards) && AllWritten(Input, family, allows)
    requires AllOwnOptions(forwards) && AllOwnOptions(allows) && raw in Wanted(chain, forwards, allows)
    ensures Written(chain, family, raw) && OwnOptions(raw)
  {
    hide Written, OwnOptions;
  }

  lemma WrittenIsKeyable(chain: Chain, family: Family, raw: Fields)
    requires Written(chain, family, raw)
    ensures Keyable(chain, raw) && Normalize(raw) == raw
  {
  }

  lemma ShownAmong(rules: seq<Fields>, f: Fields)
    requires f in rules
    ensures Shown(f) in SpecTexts(rules)
  {
    hide Normalize, Join;
    var i :| 0 <= i < |rules| && rules[i] == f;
    assert SpecTexts(rules)[i] == Shown(f);
  }

  lemma ShownOfSome(rules: seq<Fields>, text: string)
    requires text in SpecTexts(rules)
    ensures exists f :: f in rules && Shown(f) == text
  {
    hide Normalize, Join;
    var i :| 0 <= i < |rules| && SpecTexts(rules)[i] == text;
    assert rules[i] in rules;
  }

  /** A key is among those of two lists of rules exactly when some rule has it. */
  lemma KeyOfSome(pre: seq<Fields>, inp: seq<Fields>, key: string)
    ensures key in ByKey(SpecTexts(pre) + SpecTexts(inp)) <==>
            exists chain: Chain, f :: f in (if chain.Prerouting? then pre else inp) && SpecKey(Shown(f)) == key
  {
    hide Normalize, Join, SpecKey, ByKey, Shown, SpecTexts;
    var specs := SpecTexts(pre) + SpecTexts(inp);
    ByKeyHolds(specs, key);
    ConcatMembers(SpecTexts(pre), SpecTexts(inp));
    if key in ByKey(specs) {
      var spec :| spec in specs && SpecKey(spec) == key;
      if spec in SpecTexts(pre) {
        ShownOfSome(pre, spec);
        var f :| f in pre && Shown(f) == spec;
        assert f in (if Prerouting.Prerouting? then pre else inp) && SpecKey(Shown(f)) == key;
      } else {
        ShownOfSome(inp, spec);
        var f :| f in inp && Shown(f) == spec;
        assert f in (if Input.Prerouting? then pre else inp) && SpecKey(Shown(f)) == key;
      }
    }
    if chain: Chain, f :| f in (if chain.Prerouting? then pre else inp) && SpecKey(Shown(f)) == key {
      ShownAmong(if chain.Prerouting? then pre else inp, f);
    }
  }

  /** A wanted rule's key is found exactly when some managed rule of its chain has its form. */
  lemma FoundIsExact(
      family: Family, s: State, forwards: seq<Fields>, allows: seq<Fields>, home: Chain, raw: Fields)
    requires Comparable(family, s, forwards, allows) && raw in Wanted(home, forwards, allows)
    ensures var current := SpecTexts(Managed(Prerouting, family, s)) + SpecTexts(Managed(Input, family, s));
            SpecKey(Shown(raw)) in ByKey(current) <==> HasForm(Managed(home, family, s), Normalize(raw))
  {
    hide Comparable, Wanted, Managed, Normalize, SpecKey, Shown, ByKey;
    var pre, inp := Managed(Prerouting, family, s), Managed(Input, family, s);
    KeyOfSome(pre, inp, SpecKey(Shown(raw)));
    forall chain: Chain, f | f in (if chain.Prerouting? then pre else inp)
      ensures SpecKey(Shown(f)) == SpecKey(Shown(raw)) <==> chain == home && Normalize(f) == Normalize(raw)
    {
      SharedKey(family, s, forwards, allows, chain, f, home, raw);
    }
    if HasForm(Managed(home, family, s), Normalize(raw)) {
      var f :| f in Managed(home, family, s) && Normalize(f) == Normalize(raw);
      assert f in (if home.Prerouting? then pre else inp) && SpecKey(Shown(f)) == SpecKey(Shown(raw));
    }
  }

  /** A managed rule's key is wanted exactly when some wanted rule of its chain has its form. */
  lemma WantedIsExact(
      family: Family, s: State, forwards: seq<Fields>, allows: seq<Fields>, chain: Chain, f: Fields)
    requires Comparable(family, s, forwards, allows) && f in Managed(chain, family, s)
    ensures SpecKey(Shown(f)) in ByKey(SpecTexts(forwards) + SpecTexts(allows))
        <==> HasForm(Wanted(chain, forwards, allows), Normalize(f))
  {
    hide Comparable, Managed, Normalize, SpecKey, Shown, ByKey;
    KeyOfSome(forwards, allows, SpecKey(Shown(f)));
    forall home: Chain, raw | raw in (if home.Prerouting? then forwards else allows)
      ensures SpecKey(Shown(raw)) == SpecKey(Shown(f)) <==> chain == home && Normalize(f) == Normalize(raw)
    {
      SharedKey(family, s, forwards, allows, chain, f, home, raw);
    }
    if HasForm(Wanted(chain, forwards, allows), Normalize(f)) {
      var raw :| raw in Wanted(chain, forwards, allows) && Normalize(raw) == Normalize(f);
      assert raw in (if chain.Prerouting? then forwards else allows) && SpecKey(Shown(raw)) == SpecKey(Shown(f));
    }
  }

  // ----- What the map by key holds -----

  predicate LastOfKey(specs: seq<string>, i: nat)
    requires i < |specs|
  {
    forall j :: i < j < |specs| ==> SpecKey(specs[j]) != SpecKey(specs[i])
  }

  /** The text stands in the list, and somewhere no later text has its key. */
  predicate StandsLast(specs: seq<string>, text: string) {
    exists i :: 0 <= i < |specs| && specs[i] == text && LastOfKey(specs, i)
  }

  lemma StandsLastSnoc(init: seq<string>, last: string, text: string)
    ensures StandsLast(init + [last], text) <==>
            text == last || (StandsLast(init, text) && SpecKey(text) != SpecKey(last))
  {
    hide SpecKey;
    var specs := init + [last];
    assert specs[|init|] == last && LastOfKey(specs, |init|);
    if StandsLast(init, text) && SpecKey(text) != SpecKey(last) {
      var i :| 0 <= i < |init| && init[i] == text && LastOfKey(init, i);
      assert specs[i] == text && LastOfKey(specs, i);
    }
    if StandsLast(specs, text) {
      var i :| 0 <= i < |specs| && specs[i] == text && LastOfKey(specs, i);
      if i < |init| {
        assert SpecKey(specs[|init|]) != SpecKey(specs[i]);
        assert init[i] == text;
        forall j | i < j < |init| ensures SpecKey(init[j]) != SpecKey(init[i]) {
          assert specs[j] == init[j];
        }
      }
    }
  }

  /** Under each key stands the last text that has it. */
  lemma {:induction false} ByKeyIsLast(specs: seq<string>, key: string, text: string)
    ensures (key in ByKey(specs) && ByKey(specs)[key] == text) <==> StandsLast(specs, text) && SpecKey(text) == key
  {
    hide SpecKey;
    if specs != [] {
      var n := |specs| - 1;
      hide StandsLast;
      ByKeyIsLast(specs[..n], key, text);
      StandsLastSnoc(specs[..n], specs[n], text);
      InitLast(specs);
    }
  }

  lemma StandsInList(specs: seq<string>, text: string)
    requires StandsLast(specs, text)
    ensures text in specs
  {
    hide LastOfKey;
  }

  lemma ValuesOfRest(all: map<string, string>, gone: set<string>, text: string)
    ensures text in (all - gone).Values <==> exists key :: key in all && key !in gone && all[key] == text
  {
    if key :| key in all && key !in gone && all[key] == text {
      assert key in (all - gone).Keys;
    }
  }

  // ----- What a report says -----

  lemma WrittenTexts(chain: Chain, family: Family, raws: seq<Fields>)
    requires AllWritten(chain, family, raws)
    ensures forall i :: 0 <= i < |raws| ==> SpecTexts(raws)[i] == Join(raws[i], ' ')
  {
    hide Join, Written, Normalize;
    forall i | 0 <= i < |raws| ensures SpecTexts(raws)[i] == Join(raws[i], ' ') {
      assert raws[i] in raws;
      WrittenIsKeyable(chain, family, raws[i]);
    }
  }

  lemma ManagedTexts(rules: seq<Fields>)
    ensures forall i :: 0 <= i < |rules| ==> SpecTexts(rules)[i] == Shown(rules[i])
  {
  }

  /** A report lists the wanted rules and the managed ones, each chain's in order, as texts of their normal forms. */
  lemma ReportLists(family: Family, s: State, forwards: seq<Fields>, allows: seq<Fields>)
    requires AllWritten(Prerouting, family, forwards) && AllWritten(Input, family, allows)
    ensures var status, pre := StatusOf(family, s, forwards, allows), Managed(Prerouting, family, s);
            var inp := Managed(Input, family, s);
            && |status.expected| == |forwards| + |allows| && |status.current| == |pre| + |inp|
            && (forall i :: 0 <= i < |forwards| ==> status.expected[i] == Join(forwards[i], ' '))
            && (forall i :: 0 <= i < |allows| ==> status.expected[|forwards| + i] == Join(allows[i], ' '))
            && (forall i :: 0 <= i < |pre| ==> status.current[i] == Shown(pre[i]))
            && (forall i :: 0 <= i < |inp| ==> status.current[|pre| + i] == Shown(inp[i]))
            && (status.staleChain <==> family == HysteriaFamily && s.userChain.Some?)
  {
    hide Join, Select, AllWritten, Normalize, SpecTexts, ByKey, Shown;
    WrittenTexts(Prerouting, family, forwards);
    WrittenTexts(Input, family, allows);
    ManagedTexts(Managed(Prerouting, family, s));
    ManagedTexts(Managed(Input, family, s));
  }

  /** The wanted rule is there under its key. */
  lemma WantedUnderKey(
      family: Family, forwards: seq<Fields>, allows: seq<Fields>, home: Chain, raw: Fields)
    requires AllWritten(Prerouting, family, forwards) && AllWritten(Input, family, allows)
    requires AllOwnOptions(forwards) && AllOwnOptions(allows) && raw in Wanted(home, forwards, allows)
    ensures var wanted := ByKey(SpecTexts(forwards) + SpecTexts(allows));
            SpecKey(Shown(raw)) in wanted && wanted[SpecKey(Shown(raw))] == Shown(raw)
  {
    hide AllWritten, AllOwnOptions, Written, OwnOptions, Normalize, SpecKey, ByKey, SpecTexts;
    var key := SpecKey(Shown(raw));
    KeyOfSome(forwards, allows, key);
    var specs := SpecTexts(forwards) + SpecTexts(allows);
    var text := ByKey(specs)[key];
    ByKeyIsLast(specs, key, text);
    StandsInList(specs, text);
    ConcatMembers(SpecTexts(forwards), SpecTexts(allows));
    var chain := if text in SpecTexts(forwards) then Prerouting else Input;
    ShownOfSome(if chain.Prerouting? then forwards else allows, text);
    var other :| other in (if chain.Prerouting? then forwards else allows) && Shown(other) == text;
    WantedIsWritten(family, forwards, allows, chain, other);
    WantedIsWritten(family, forwards, allows, home, raw);
    SameKeySameRule(chain, home, family, other, raw);
  }

  lemma SameKeySameRule(chain: Chain, home: Chain, family: Family, a: Fields, b: Fields)
    requires Written(chain, family, a) && Written(home, family, b) && SpecKey(Shown(a)) == SpecKey(Shown(b))
    ensures a == b
  {
    hide SpecKey, Listable, Join;
    WrittenIsKeyable(chain, family, a);
    WrittenIsKeyable(home, family, b);
    hide Written, Normalize;
    SameKeySameForm(chain, a, home, b);
  }

  /** A rule of the plan is wanted under this text, and no managed rule of its chain has its form. */
  predicate MissingRule(
      family: Family, s: State, forwards: seq<Fields>, allows: seq<Fields>, chain: Chain, raw: Fields) {
    raw in Wanted(chain, forwards, allows) && !HasForm(Managed(chain, family, s), raw)
  }

  /** Missing are exactly the texts of wanted rules whose form no managed rule of their chain has. */
  lemma MissingIsExact(family: Family, s: State, forwards: seq<Fields>, allows: seq<Fields>, text: string)
    requires Comparable(family, s, forwards, allows)
    ensures text in StatusOf(family, s, forwards, allows).missing.Values <==>
            exists chain, raw :: MissingRule(family, s, forwards, allows, chain, raw) && text == Join(raw, ' ')
  {
    hide Comparable, Normalize, SpecKey, ByKey, SpecTexts, Shown, Join, AllWritten, AllOwnOptions, HasForm, Select;
    var wanted := ByKey(SpecTexts(forwards) + SpecTexts(allows));
    var found := ByKey(SpecTexts(Managed(Prerouting, family, s)) + SpecTexts(Managed(Input, family, s)));
    ValuesOfRest(wanted, found.Keys, text);
    if key :| key in wanted && key !in found && wanted[key] == text {
      KeyOfSome(forwards, allows, key);
      var chain: Chain, raw :| raw in (if chain.Prerouting? then forwards else allows) && SpecKey(Shown(raw)) == key;
      MissingAt(family, s, forwards, allows, chain, raw);
    }
    if chain, raw :| MissingRule(family, s, forwards, allows, chain, raw) && text == Join(raw, ' ') {
      MissingAt(family, s, forwards, allows, chain, raw);
    }
  }

  lemma MissingAt(family: Family, s: State, forwards: seq<Fields>, allows: seq<Fields>, chain: Chain, raw: Fields)
    requires Comparable(family, s, forwards, allows) && raw in Wanted(chain, forwards, allows)
    ensures var wanted := ByKey(SpecTexts(forwards) + SpecTexts(allows));
            var found := ByKey(SpecTexts(Managed(Prerouting, family, s)) + SpecTexts(Managed(Input, family, s)));
            && Shown(raw) == Join(raw, ' ')
            && SpecKey(Shown(raw)) in wanted && wanted[SpecKey(Shown(raw))] == Shown(raw)
            && (SpecKey(Shown(raw)) !in found <==> MissingRule(family, s, forwards, allows, chain, raw))
  {
    hide Normalize, SpecKey, ByKey, SpecTexts, Join, Written, OwnOptions, HasForm, Select;
    WantedUnderKey(family, forwards, allows, chain, raw);
    FoundIsExact(family, s, forwards, allows, chain, raw);
    WantedIsWritten(family, forwards, allows, chain, raw);
    WrittenIsKeyable(chain, family, raw);
  }

  /** A managed rule of the chain whose form no wanted rule of the chain has. */
  predicate ExtraRule(
      family: Family, s: State, forwards: seq<Fields>, allows: seq<Fields>, chain: Chain, f: Fields) {
    f in Managed(chain, family, s) && !HasForm(Wanted(chain, forwards, allows), Normalize(f))
  }

  /** A text of the list is that of some managed rule. */
  lemma CurrentIsShown(family: Family, s: State, text: string)
    requires text in SpecTexts(Managed(Prerouting, family, s)) + SpecTexts(Managed(Input, family, s))
    ensures exists chain: Chain, f :: f in Managed(chain, family, s) && Shown(f) == text
  {
    hide Managed, Shown, SpecTexts;
    var pre, inp := Managed(Prerouting, family, s), Managed(Input, family, s);
    ConcatMembers(SpecTexts(pre), SpecTexts(inp));
    var chain := if text in SpecTexts(pre) then Prerouting else Input;
    ShownOfSome(Managed(chain, family, s), text);
    var f :| f in Managed(chain, family, s) && Shown(f) == text;
  }

  /**
   * Extra are exactly the texts of managed rules whose form is not wanted; of several with the same key, the last
   * one listed.
   */
  lemma ExtraIsExact(family: Family, s: State, forwards: seq<Fields>, allows: seq<Fields>, text: string)
    requires Comparable(family, s, forwards, allows)
    ensures text in StatusOf(family, s, forwards, allows).extra.Values <==>
            && StandsLast(StatusOf(family, s, forwards, allows).current, text)
            && exists chain, f :: ExtraRule(family, s, forwards, allows, chain, f) && text == Shown(f)
  {
    hide Comparable, Normalize, SpecKey, ByKey, SpecTexts, Shown, HasForm, Select, StandsLast, Wanted;
    var wanted := ByKey(SpecTexts(forwards) + SpecTexts(allows));
    var current := SpecTexts(Managed(Prerouting, family, s)) + SpecTexts(Managed(Input, family, s));
    ValuesOfRest(ByKey(current), wanted.Keys, text);
    if key :| key in ByKey(current) && key !in wanted && ByKey(current)[key] == text {
      ByKeyIsLast(current, key, text);
      StandsInList(current, text);
      CurrentIsShown(family, s, text);
      var chain: Chain, f :| f in Managed(chain, family, s) && Shown(f) == text;
      WantedIsExact(family, s, forwards, allows, chain, f);
      assert ExtraRule(family, s, forwards, allows, chain, f);
    }
    if chain, f :| ExtraRule(family, s, forwards, allows, chain, f) && text == Shown(f) {
      WantedIsExact(family, s, forwards, allows, chain, f);
      ByKeyIsLast(current, SpecKey(text), text);
    }
  }

  /** Rules of plain words never share a key without sharing a text, so each text stands last. */
  lemma PlainStandsLast(family: Family, s: State, chain: Chain, f: Fields)
    requires s.WellFormed() && AsPrinted(family, s) && ReadsPlainly(family, s) && f in Managed(chain, family, s)
    ensures StandsLast(SpecTexts(Managed(Prerouting, family, s)) + SpecTexts(Managed(Input, family, s)), Shown(f))
  {
    hide Managed, Shown, SpecTexts, SpecKey, ByKey, StandsLast, ReadsPlainly, AsPrinted, State.WellFormed;
    var pre, inp := Managed(Prerouting, family, s), Managed(Input, family, s);
    var current, key := SpecTexts(pre) + SpecTexts(inp), SpecKey(Shown(f));
    KeyOfSome(pre, inp, key);
    assert f in (if chain.Prerouting? then pre else inp);
    assert key in ByKey(current);
    var kept := ByKey(current)[key];
    ByKeyIsLast(current, key, kept);
    StandsInList(current, kept);
    CurrentIsShown(family, s, kept);
    var home: Chain, g :| g in Managed(home, family, s) && Shown(g) == kept;
    PlainKeysDecide(family, s, chain, f, home, g);
  }

  /** Extra are exactly the texts of managed rules whose form is not wanted, where these are plain words. */
  lemma PlainExtraIsExact(family: Family, s: State, forwards: seq<Fields>, allows: seq<Fields>, text: string)
    requires Comparable(family, s, forwards, allows) && ReadsPlainly(family, s)
    ensures text in StatusOf(family, s, forwards, allows).extra.Values <==>
            exists chain, f :: ExtraRule(family, s, forwards, allows, chain, f) && text == Shown(f)
  {
    hide Managed, Shown, SpecTexts, ByKey, StandsLast, ReadsPlainly, AsPrinted, State.WellFormed, HasForm;
    ExtraIsExact(family, s, forwards, allows, text);
    if chain, f :| ExtraRule(family, s, forwards, allows, chain, f) && text == Shown(f) {
      PlainStandsLast(family, s, chain, f);
      ReportsCurrent(family, s, forwards, allows);
    }
  }

  lemma ReportsCurrent(family: Family, s: State, forwards: seq<Fields>, allows: seq<Fields>)
    ensures StatusOf(family, s, forwards, allows).current
         == SpecTexts(Managed(Prerouting, family, s)) + SpecTexts(Managed(Input, family, s))
  {
    hide Select, SpecTexts;
  }

  lemma PlainKeysDecide(family: Family, s: State, chain: Chain, f: Fields, home: Chain, g: Fields)
    requires s.WellFormed() && AsPrinted(family, s) && ReadsPlainly(family, s)
    requires f in Managed(chain, family, s) && g in Managed(home, family, s)
    requires SpecKey(Shown(f)) == SpecKey(Shown(g))
    ensures Shown(f) == Shown(g)
  {
    hide Normalize, SpecKey, Join, Listable, IsManaged, AllPlain, TextBehindOptions;
    ManagedIsListable(family, s, chain, f);
    ManagedIsListable(family, s, home, g);
    assert PlainlyMarked(chain, family, s.Rules(chain)) && PlainlyMarked(home, family, s.Rules(home));
    SameKeySameForm(chain, f, home, g);
  }

  /** The report of a plan, whose rules are always comparable. */
  lemma PlanIsComparable(family: Family, infos: seq<NodeInfo>, s: State)
    requires s.WellFormed() && AsPrinted(family, s)
    ensures Comparable(family, s, Forwards(family, infos), Allows(family, infos))
  {
    hide Forwards, Allows, AllWritten, AllOwnOptions;
    PlanIsWritten(family, infos);
    PlanIsOwn(family, infos);
  }

  // ----- Two rules under one key -----

  const NOTED: Fields := ["-A", "PREROUTING", "--comment", "V2NODE-HY2", "--comment"]

  /** An HY2 rule with a second comment of two words and a gap between them. */
  function Noted(gap: string): Fields {
    NOTED + ["a" + gap + "b"]
  }

  function Blanks(n: nat): (r: seq<string>)
    ensures |r| == n && forall i :: 0 <= i < n ==> r[i] == " "
  {
    seq(n, _ => " ")
  }

  lemma {:induction false} JoinIsLaid(front: Fields, last: string, texts: seq<string>, gaps: seq<string>)
    requires |texts| == |gaps| && Laid(texts, gaps) == last
    ensures Join(front + [last], ' ') == Laid(front + texts, Blanks(|front|) + gaps)
  {
    if front == [] {
      assert [] + texts == texts && Blanks(0) + gaps == gaps && [] + [last] == [last];
    } else {
      JoinIsLaid(front[1..], last, texts, gaps);
      JoinCons(front[0], front[1..] + [last], ' ');
      assert front + [last] == [front[0]] + (front[1..] + [last]);
      assert (front + texts)[1..] == front[1..] + texts;
      assert (Blanks(|front|) + gaps)[1..] == Blanks(|front| - 1) + gaps;
    }
  }

  lemma GapIsLaid(gap: string)
    ensures Laid(["a", "b"], [gap, ""]) == "a" + gap + "b"
  {
    assert ["a", "b"][1..] == ["b"] && [gap, ""][1..] == [""];
    assert ["b"][1..] == [] && [""][1..] == [];
    assert Laid(["b"], [""]) == "b";
  }

  lemma NotedWordsShow(texts: seq<string>)
    requires texts == NOTED + ["a", "b"]
    ensures |texts| == 7 && forall i :: 0 <= i < 7 ==> texts[i] != "" && Shows(texts[i], texts[i])
  {
    assert texts[1][0] == 'P' && texts[3][0] == 'V';
  }

  /** The key reads the two words and not the gap. */
  lemma NotedKey(gap: string)
    requires Gap(gap) && gap != ""
    ensures SpecKey(Join(Noted(gap), ' ')) == Key(NOTED + ["a", "b"])
  {
    var texts, gaps := ["a", "b"], [gap, ""];
    var all, blanks := NOTED + texts, Blanks(|NOTED|) + gaps;
    GapIsLaid(gap);
    NotedWordsShow(all);
    hide Laid, Join, Shows, Normalize, ParseSpec;
    JoinIsLaid(NOTED, "a" + gap + "b", texts, gaps);
    assert "" + Laid(all, blanks) == Laid(all, blanks);
    LaidFieldsAreRead("", all, blanks, all);
  }

  lemma NotedIsNormal(gap: string)
    requires forall i :: 0 <= i < |gap| ==> gap[i] == ' '
    ensures Normalize(Noted(gap)) == Noted(gap)
  {
    var f := Noted(gap);
    assert f[0][1] == 'A' && f[1][0] == 'P' && f[2][1] == '-' && f[3][0] == 'V' && f[4][1] == '-';
    NotedFields(f, gap);
    hide Noted, Normalize, TrimQuotes, Shaped, IsPlain, TakesText;
    NormalizeKeepsFields(f);
    forall i | 0 <= i < |f| ensures Normalize(f)[i] == f[i] {
      TrimQuotesIdentity(f[i]);
    }
  }

  lemma NotedIsPrinted(gap: string)
    requires forall i :: 0 <= i < |gap| ==> gap[i] == ' '
    ensures Listable(Prerouting, Noted(gap)) && TextBehindOptions(Noted(gap))
    ensures IsManaged(Prerouting, HysteriaFamily, Noted(gap))
  {
    var f := Noted(gap);
    TrimQuotesIdentity(f[3]);
    hide TrimQuotes;
    assert f[0] == "-A" && f[1] == "PREROUTING" && MarkedAt(f, 2, HysteriaFamily.Comment());
    NotedFields(f, gap);
    hide Trimmed, ListableField, IsPlain, TakesText;
  }

  lemma NotedFields(f: Fields, gap: string)
    requires f == Noted(gap) && forall i :: 0 <= i < |gap| ==> gap[i] == ' '
    ensures |f| == 6 && forall i :: 0 <= i < 6 ==> ListableField(f[i])
    ensures forall i :: 0 <= i < 5 ==> IsPlain(f[i])
    ensures f[4] == "--comment" && TakesText(f[4])
    ensures Shaped(f)
  {
    assert forall i :: 0 <= i < 5 ==> f[i] == NOTED[i];
    NotedWords();
    GapField(gap);
    hide ListableField, IsPlain, TakesText;
    assert f[1][0] == 'P' && f[3][0] == 'V' && f[5][0] == 'a';
  }

  lemma NotedWords()
    ensures forall i :: 0 <= i < 5 ==> IsPlain(NOTED[i]) && ListableField(NOTED[i])
    ensures TakesText("--comment")
  {
    assert IsPlain("-A") && IsPlain("PREROUTING") && IsPlain("--comment") && IsPlain("V2NODE-HY2");
    hide IsPlain;
    forall i | 0 <= i < 5 ensures IsPlain(NOTED[i]) && ListableField(NOTED[i]) {
      PlainIsListable(NOTED[i]);
    }
    assert "--comment"[1] == '-' && "--comment"[2] == 'c';
  }

  lemma GapField(gap: string)
    requires forall i :: 0 <= i < |gap| ==> gap[i] == ' '
    ensures ListableField("a" + gap + "b")
  {
    var s := "a" + gap + "b";
    assert s[0] == 'a' && s[|s| - 1] == 'b' && '"' !in s;
  }

  lemma {:induction false} JoinEndsIn(front: Fields, last: string)
    ensures Join(front + [last], ' ') == Join(front + [""], ' ') + last
  {
    if front != [] {
      JoinEndsIn(front[1..], last);
      JoinCons(front[0], front[1..] + [last], ' ');
      JoinCons(front[0], front[1..] + [""], ' ');
      assert front + [last] == [front[0]] + (front[1..] + [last]);
      assert front + [""] == [front[0]] + (front[1..] + [""]);
    }
  }

  lemma NotedTextsDiffer()
    ensures Join(Noted(" "), ' ') != Join(Noted("  "), ' ')
  {
    hide Join;
    JoinEndsIn(NOTED, "a" + " " + "b");
    JoinEndsIn(NOTED, "a" + "  " + "b");
    assert |Join(Noted(" "), ' ')| + 1 == |Join(Noted("  "), ' ')|;
  }

  lemma BothNotedAreManaged(s: State)
    requires s == State([Noted(" "), Noted("  ")], [], None)
    ensures Managed(Prerouting, HysteriaFamily, s) == s.prerouting && Managed(Input, HysteriaFamily, s) == []
    ensures Comparable(HysteriaFamily, s, [], [])
  {
    NotedIsPrinted(" ");
    NotedIsPrinted("  ");
    hide Noted;
    AllManaged(s);
  }

  lemma AllManaged(s: State)
    requires s.input == [] && forall f :: f in s.prerouting ==>
               Listable(Prerouting, f) && TextBehindOptions(f) && IsManaged(Prerouting, HysteriaFamily, f)
    ensures Managed(Prerouting, HysteriaFamily, s) == s.prerouting && Managed(Input, HysteriaFamily, s) == []
    ensures Comparable(HysteriaFamily, s, [], [])
  {
    hide IsManaged, Listable, TextBehindOptions;
    SelectAll(Prerouting, HysteriaFamily, true, s.prerouting);
  }

  lemma OneKeyOneText(a: string, b: string)
    requires SpecKey(a) == SpecKey(b)
    ensures ByKey([a, b]) == map[SpecKey(b) := b]
  {
    var both, one := [a, b], [a];
    hide SpecKey;
    assert both[..1] == one && one[..0] == [];
    assert ByKey(one) == map[SpecKey(a) := a];
    assert ByKey(both) == ByKey(both[..1])[SpecKey(b) := b];
  }

  /**
   * Two rules that differ in the gap alone share a key, so a report on a plan that wants neither lists the second
   * under extra and not the first.
   */
  lemma GapsHideARule()
    ensures var first, second := Noted(" "), Noted("  ");
            var s := State([first, second], [], None);
            && Comparable(HysteriaFamily, s, [], [])
            && ExtraRule(HysteriaFamily, s, [], [], Prerouting, first)
            && Shown(first) !in StatusOf(HysteriaFamily, s, [], []).extra.Values
            && Shown(second) in StatusOf(HysteriaFamily, s, [], []).extra.Values
  {
    var first, second := Noted(" "), Noted("  ");
    var s := State([first, second], [], None);
    hide Noted, Normalize, Join, SpecKey, Key, Comparable, Managed, Select, StatusOf, ExtraRule;
    NotedIsNormal(" ");
    NotedIsNormal("  ");
    NotedKey(" ");
    NotedKey("  ");
    BothNotedAreManaged(s);
    NotedTextsDiffer();
    ReportOfTwo(s, first, second);
  }

  lemma ReportOfTwo(s: State, first: Fields, second: Fields)
    requires s == State([first, second], [], None) && Shown(first) != Shown(second)
    requires SpecKey(Shown(first)) == SpecKey(Shown(second))
    requires Managed(Prerouting, HysteriaFamily, s) == s.prerouting && Managed(Input, HysteriaFamily, s) == []
    ensures ExtraRule(HysteriaFamily, s, [], [], Prerouting, first)
    ensures StatusOf(HysteriaFamily, s, [], []).extra.Values == {Shown(second)}
  {
    ReportsCurrent(HysteriaFamily, s, [], []);
    OneKeyOneText(Shown(first), Shown(second));
    assert SpecTexts([first, second]) == [Shown(first), Shown(second)] && SpecTexts([]) == [];
    hide Normalize, Join, SpecKey, Managed, StatusOf, SpecTexts;
    assert s.prerouting[0] == first;
    var current := StatusOf(HysteriaFamily, s, [], []).current;
    assert current == [Shown(first), Shown(second)];
    OnlyExtra(s, SpecKey(Shown(second)), Shown(second));
  }

  lemma OnlyExtra(s: State, key: string, text: string)
    requires ByKey(StatusOf(HysteriaFamily, s, [], []).current) == map[key := text]
    ensures StatusOf(HysteriaFamily, s, [], []).extra.Values == {text}
  {
    hide Select, SpecTexts, SpecKey;
    var extra := StatusOf(HysteriaFamily, s, [], []).extra;
    assert SpecTexts([]) == [];
    assert extra == map[key := text];
    assert extra[key] == text;
  }
}
