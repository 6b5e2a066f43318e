// Inspection: comparing the listed rules with the wanted ones by normalised key, and what a clean report means.
module Inspection {
  import opened Results
  import opened Text
  import opened SpecText
  import opened PortPlanner
  import opened ManagedRules
  import opened Firewall
  import opened RuleSpecs

  // Missing and extra specs are kept by key; the order in which they are reported is not modelled.
  datatype ToolStatus = ToolStatus(
    current: seq<string>, expected: seq<string>,
    missing: map<string, string>, extra: map<string, string>, staleChain: bool)
  {
    predicate NeedsRepair() {
      missing != map[] || extra != map[] || staleChain
    }
  }

  function SpecTexts(rules: seq<Fields>): (r: seq<string>)
    ensures |r| == |rules| && forall i :: 0 <= i < |rules| ==> r[i] == Join(Normalize(rules[i]), ' ')
  {
    seq(|rules|, i requires 0 <= i < |rules| => Join(Normalize(rules[i]), ' '))
  }

  function SpecKey(spec: string): string {
    Key(ParseSpec(spec))
  }

  function ByKey(specs: seq<string>): map<string, string> {
    if specs == [] then map[]
    else
      var spec := specs[|specs| - 1];
      ByKey(specs[..|specs| - 1])[SpecKey(spec) := spec]
  }

  /** The report for listed lines, already tokenised. */
  function Inspect(family: Family, forwards: seq<Fields>, allows: seq<Fields>,
                   prerouting: seq<Fields>, input: seq<Fields>, stale: bool): ToolStatus
  {
    var current := SpecTexts(Select(Prerouting, family, true, prerouting))
                   + SpecTexts(Select(Input, family, true, input));
    var expected := SpecTexts(forwards) + SpecTexts(allows);
    var wanted, found := ByKey(expected), ByKey(current);
    ToolStatus(current, expected, wanted - found.Keys, found - wanted.Keys, stale)
  }

  /** The report on a firewall; only HY2 looks for the old chain. */
  function StatusOf(family: Family, s: State, forwards: seq<Fields>, allows: seq<Fields>): ToolStatus {
    Inspect(family, forwards, allows, s.prerouting, s.input, family.HysteriaFamily? && s.userChain.Some?)
  }

  lemma {:induction false} ByKeyHolds(specs: seq<string>, key: string)
    ensures key in ByKey(specs) <==> exists spec :: spec in specs && SpecKey(spec) == key
  {
    hide SpecKey;
    if specs != [] {
      var init, last := specs[..|specs| - 1], specs[|specs| - 1];
      ByKeyHolds(init, key);
      assert specs == init + [last];
      assert last in specs;
    }
  }

  /** Any listing of the firewall yields the same report. */
  lemma StatusFromListing(family: Family, s: State, forwards: seq<Fields>, allows: seq<Fields>,
                          preroutingLines: seq<string>, inputLines: seq<string>)
    requires Lists(preroutingLines, s.prerouting) && Lists(inputLines, s.input)
    ensures Inspect(family, forwards, allows, ParseLines(preroutingLines), ParseLines(inputLines),
                    family.HysteriaFamily? && s.userChain.Some?)
         == StatusOf(family, s, forwards, allows)
  {
    SelectFromLines(Prerouting, family, ParseLines(preroutingLines));
    SelectFromLines(Input, family, ParseLines(inputLines));
  }

  // ----- Keys and normal forms -----

  /** A rule the inspection reads faithfully: plain words in option shape behind "-A" and the chain. */
  predicate Keyable(chain: Chain, f: Fields) {
    Listable(chain, f) && AllPlain(f)
  }

  lemma KeyableForm(chain: Chain, f: Fields)
    requires Keyable(chain, f)
    ensures |Normalize(f)| >= 2 && Normalize(f)[1] == chain.Name()
    ensures SpecKey(Join(Normalize(f), ' ')) == Key(f)
  {
    ListableBody(chain, f);
    KeySurvivesText(f);
  }

  /** Two readable rules share a key exactly when they have the same normal form. */
  lemma SameKeySameForm(chain: Chain, f: Fields, other: Chain, g: Fields)
    requires Keyable(chain, f) && Keyable(other, g)
    ensures SpecKey(Join(Normalize(f), ' ')) == SpecKey(Join(Normalize(g), ' ')) <==> Normalize(f) == Normalize(g)
    ensures chain != other ==> Normalize(f) != Normalize(g)
  {
    KeyableForm(chain, f);
    KeyableForm(other, g);
    KeyIsInjective(f, g);
  }

  predicate AllKeyable(chain: Chain, rules: seq<Fields>) {
    forall f :: f in rules ==> Keyable(chain, f)
  }

  predicate HasForm(rules: seq<Fields>, form: Fields) {
    exists f :: f in rules && Normalize(f) == form
  }

  lemma {:induction false} KeyOfSpecTexts(chain: Chain, rules: seq<Fields>, other: Chain, g: Fields)
    requires AllKeyable(chain, rules) && Keyable(other, g)
    ensures (exists spec :: spec in SpecTexts(rules) && SpecKey(spec) == SpecKey(Join(Normalize(g), ' ')))
        <==> HasForm(rules, Normalize(g))
    ensures chain != other ==> !HasForm(rules, Normalize(g))
  {
    var key := SpecKey(Join(Normalize(g), ' '));
    forall f | f in rules
      ensures SpecKey(Join(Normalize(f), ' ')) == key <==> Normalize(f) == Normalize(g)
      ensures chain != other ==> Normalize(f) != Normalize(g)
    {
      SameKeySameForm(chain, f, other, g);
    }
    hide SpecKey, Normalize, Join, Keyable;
    if spec :| spec in SpecTexts(rules) && SpecKey(spec) == key {
      var i :| 0 <= i < |rules| && SpecTexts(rules)[i] == spec;
      assert rules[i] in rules;
    }
    if HasForm(rules, Normalize(g)) {
      var f :| f in rules && Normalize(f) == Normalize(g);
      var i :| 0 <= i < |rules| && rules[i] == f;
      assert SpecTexts(rules)[i] in SpecTexts(rules);
    }
  }

  /** A rule's key is found among the specs of both chains exactly when its form is found in its own chain. */
  lemma KeyAmongBoth(pre: seq<Fields>, inp: seq<Fields>, chain: Chain, g: Fields)
    requires AllKeyable(Prerouting, pre) && AllKeyable(Input, inp) && Keyable(chain, g)
    ensures SpecKey(Join(Normalize(g), ' ')) in ByKey(SpecTexts(pre) + SpecTexts(inp)) <==>
            HasForm(if chain.Prerouting? then pre else inp, Normalize(g))
  {
    var key, specs := SpecKey(Join(Normalize(g), ' ')), SpecTexts(pre) + SpecTexts(inp);
    ByKeyHolds(specs, key);
    KeyOfSpecTexts(Prerouting, pre, chain, g);
    KeyOfSpecTexts(Input, inp, chain, g);
    hide SpecKey, Normalize, Join, Keyable, HasForm, ByKey;
    assert forall spec :: spec in specs <==> spec in SpecTexts(pre) || spec in SpecTexts(inp);
  }

  /** Every rule of `these` has its normal form among `those`. */
  predicate FormsWithin(these: seq<Fields>, those: seq<Fields>) {
    forall f :: f in these ==> HasForm(those, Normalize(f))
  }

  /** Comparing by key finds nothing left over exactly when every normal form is there. */
  lemma NothingLeft(pre: seq<Fields>, inp: seq<Fields>, pre': seq<Fields>, inp': seq<Fields>)
    requires AllKeyable(Prerouting, pre) && AllKeyable(Input, inp)
    requires AllKeyable(Prerouting, pre') && AllKeyable(Input, inp')
    ensures ByKey(SpecTexts(pre) + SpecTexts(inp)) - ByKey(SpecTexts(pre') + SpecTexts(inp')).Keys == map[]
       <==> FormsWithin(pre, pre') && FormsWithin(inp, inp')
  {
    var a, b := ByKey(SpecTexts(pre) + SpecTexts(inp)), ByKey(SpecTexts(pre') + SpecTexts(inp'));
    forall f | f in pre
      ensures SpecKey(Join(Normalize(f), ' ')) in a
      ensures SpecKey(Join(Normalize(f), ' ')) in b <==> HasForm(pre', Normalize(f))
    {
      assert HasForm(pre, Normalize(f));
      KeyAmongBoth(pre, inp, Prerouting, f);
      KeyAmongBoth(pre', inp', Prerouting, f);
    }
    forall f | f in inp
      ensures SpecKey(Join(Normalize(f), ' ')) in a
      ensures SpecKey(Join(Normalize(f), ' ')) in b <==> HasForm(inp', Normalize(f))
    {
      assert HasForm(inp, Normalize(f));
      KeyAmongBoth(pre, inp, Input, f);
      KeyAmongBoth(pre', inp', Input, f);
    }
    assert a - b.Keys == map[] <==> forall key :: key in a ==> key in b by {
      if a - b.Keys == map[] {
        forall key | key in a ensures key in b {
          assert key !in a - b.Keys;
        }
      }
    }
    KeysComeFrom(pre, inp);
  }

  lemma KeysComeFrom(pre: seq<Fields>, inp: seq<Fields>)
    ensures forall key :: key in ByKey(SpecTexts(pre) + SpecTexts(inp)) ==>
              exists f :: (f in pre || f in inp) && SpecKey(Join(Normalize(f), ' ')) == key
  {
    var specs := SpecTexts(pre) + SpecTexts(inp);
    hide SpecKey, Normalize, Join, ByKey;
    forall key | key in ByKey(specs)
      ensures exists f :: (f in pre || f in inp) && SpecKey(Join(Normalize(f), ' ')) == key
    {
      ByKeyHolds(specs, key);
      var spec :| spec in specs && SpecKey(spec) == key;
      var i :| 0 <= i < |specs| && specs[i] == spec;
      if i < |pre| {
        assert pre[i] in pre;
      } else {
        assert inp[i - |pre|] in inp;
      }
    }
  }

  // ----- What a clean report means -----

  /** The managed rules of a chain and the wanted ones have the same normal forms. */
  predicate InSync(chain: Chain, family: Family, rules: seq<Fields>, raws: seq<Fields>) {
    var managed := Select(chain, family, true, rules);
    FormsWithin(raws, managed) && FormsWithin(managed, raws)
  }

  predicate AllInSync(family: Family, s: State, forwards: seq<Fields>, allows: seq<Fields>) {
    && InSync(Prerouting, family, s.prerouting, forwards)
    && InSync(Input, family, s.input, allows)
    && (family.HysteriaFamily? ==> s.userChain.None?)
  }

  /** No rule carrying the family's mark has a blank inside a field; the inspection would read it as two. */
  predicate PlainlyMarked(chain: Chain, family: Family, rules: seq<Fields>) {
    forall f :: f in rules && IsManaged(chain, family, f) ==> AllPlain(f)
  }

  predicate ReadsPlainly(family: Family, s: State) {
    PlainlyMarked(Prerouting, family, s.prerouting) && PlainlyMarked(Input, family, s.input)
  }

  /** The family's rules stand in the listing as iptables prints rules, with texts behind options only. */
  predicate MarkedAsPrinted(chain: Chain, family: Family, rules: seq<Fields>) {
    forall f :: f in rules && IsManaged(chain, family, f) ==> TextBehindOptions(f)
  }

  predicate AsPrinted(family: Family, s: State) {
    MarkedAsPrinted(Prerouting, family, s.prerouting) && MarkedAsPrinted(Input, family, s.input)
  }

  lemma ManagedAreKeyable(chain: Chain, family: Family, rules: seq<Fields>)
    requires AllListable(chain, rules) && PlainlyMarked(chain, family, rules)
    ensures AllKeyable(chain, Select(chain, family, true, rules))
  {
  }

  lemma WrittenAreKeyable(chain: Chain, family: Family, raws: seq<Fields>)
    requires AllWritten(chain, family, raws)
    ensures AllKeyable(chain, raws)
  {
  }

  lemma PlainInspectionIsExact(family: Family, s: State, forwards: seq<Fields>, allows: seq<Fields>)
    requires s.WellFormed() && ReadsPlainly(family, s)
    requires AllWritten(Prerouting, family, forwards) && AllWritten(Input, family, allows)
    ensures StatusOf(family, s, forwards, allows).NeedsRepair() <==> !AllInSync(family, s, forwards, allows)
  {
    hide Listable, Written, Keyable, ByKey, SpecTexts, Select, FormsWithin;
    var pre, inp := Select(Prerouting, family, true, s.prerouting), Select(Input, family, true, s.input);
    ManagedAreKeyable(Prerouting, family, s.prerouting);
    ManagedAreKeyable(Input, family, s.input);
    WrittenAreKeyable(Prerouting, family, forwards);
    WrittenAreKeyable(Input, family, allows);
    NothingLeft(forwards, allows, pre, inp);
    NothingLeft(pre, inp, forwards, allows);
  }

  lemma {:induction false} DropPlainMeansPlain(fields: Fields)
    requires AllPlain(Drop(fields))
    ensures AllPlain(fields)
  {
    if fields != [] {
      if IsImplicitMatch(fields, 0) {
        DropPlainMeansPlain(fields[2..]);
        assert forall i :: 2 <= i < |fields| ==> fields[i] == fields[2..][i - 2];
        assert IsPlain("-m") && IsPlain("udp") && IsPlain("tcp");
      } else {
        var rest := Drop(fields[1..]);
        assert forall i :: 0 <= i < |rest| ==> rest[i] == Drop(fields)[i + 1];
        DropPlainMeansPlain(fields[1..]);
        assert forall i :: 1 <= i < |fields| ==> fields[i] == fields[1..][i - 1];
        assert Drop(fields)[0] == fields[0];
      }
    }
  }

  /** A managed rule in the form of a written one is plain. */
  lemma SyncIsPlain(chain: Chain, family: Family, rules: seq<Fields>, raws: seq<Fields>)
    requires AllListable(chain, rules) && AllWritten(chain, family, raws) && InSync(chain, family, rules, raws)
    ensures PlainlyMarked(chain, family, rules)
  {
    hide Listable, IsManaged, Written, Normalize;
    var managed := Select(chain, family, true, rules);
    forall f | f in rules && IsManaged(chain, family, f) ensures AllPlain(f) {
      assert f in managed && HasForm(raws, Normalize(f));
      var raw :| raw in raws && Normalize(raw) == Normalize(f);
      FormOfWrittenIsPlain(chain, family, f, raw);
    }
  }

  lemma FormOfWrittenIsPlain(chain: Chain, family: Family, f: Fields, raw: Fields)
    requires Listable(chain, f) && Written(chain, family, raw) && Normalize(raw) == Normalize(f)
    ensures AllPlain(f)
  {
    ListableBody(chain, f);
    NormalizeIsDrop(f);
    DropPlainMeansPlain(f);
  }

  /**
   * What a report says on any firewall. Asking for a repair, it is right: some wanted rule is missing, some managed
   * rule is unwanted, or the old chain is left; order and duplicates do not count. Asking for none, it is right
   * exactly when no managed rule has a blank inside a field.
   */
  lemma InspectionIsExact(family: Family, s: State, forwards: seq<Fields>, allows: seq<Fields>)
    requires s.WellFormed()
    requires AllWritten(Prerouting, family, forwards) && AllWritten(Input, family, allows)
    ensures var needed := StatusOf(family, s, forwards, allows).NeedsRepair();
            && (needed ==> !AllInSync(family, s, forwards, allows))
            && ((needed <==> !AllInSync(family, s, forwards, allows)) <==> needed || ReadsPlainly(family, s))
  {
    hide StatusOf, InSync, PlainlyMarked;
    if AllInSync(family, s, forwards, allows) {
      SyncIsPlain(Prerouting, family, s.prerouting, forwards);
      SyncIsPlain(Input, family, s.input, allows);
    }
    if ReadsPlainly(family, s) {
      PlainInspectionIsExact(family, s, forwards, allows);
    }
  }

  // ----- Why only texts may hold blanks -----

  /** The rule with its fourth option word and the value behind it run together. */
  function RunTogether(raw: Fields): Fields
    requires |raw| >= 6
  {
    raw[..4] + [raw[4] + " " + raw[5]] + raw[6..]
  }

  lemma JoinRunTogether(a: string, b: string, tail: Fields)
    requires tail != []
    ensures Join([a + " " + b] + tail, ' ') == Join([a, b] + tail, ' ')
  {
    JoinCons(a + " " + b, tail, ' ');
    JoinCons(b, tail, ' ');
    assert [a, b] + tail == [a] + ([b] + tail);
    JoinCons(a, [b] + tail, ' ');
    assert (a + " " + b) + [' '] + Join(tail, ' ') == a + [' '] + (b + [' '] + Join(tail, ' '));
  }

  lemma {:induction false} JoinSamePrefix(front: Fields, a: Fields, b: Fields)
    requires a != [] && b != [] && Join(a, ' ') == Join(b, ' ')
    ensures Join(front + a, ' ') == Join(front + b, ' ')
  {
    if front == [] {
      assert front + a == a && front + b == b;
    } else {
      var rest := front[1..];
      JoinSamePrefix(rest, a, b);
      assert front + a == [front[0]] + (rest + a) && front + b == [front[0]] + (rest + b);
      JoinCons(front[0], rest + a, ' ');
      JoinCons(front[0], rest + b, ' ');
    }
  }

  lemma TakeApart(raw: Fields)
    requires |raw| > 6
    ensures raw == raw[..4] + ([raw[4], raw[5]] + raw[6..])
    ensures RunTogether(raw) == raw[..4] + ([raw[4] + " " + raw[5]] + raw[6..])
  {
    assert [raw[4], raw[5]] == raw[4..6];
  }

  /** Run together, a rule prints the same text. */
  lemma RunTogetherPrintsTheSame(raw: Fields)
    requires |raw| > 6
    ensures Join(RunTogether(raw), ' ') == Join(raw, ' ')
  {
    hide Join, RunTogether;
    TakeApart(raw);
    JoinRunTogether(raw[4], raw[5], raw[6..]);
    JoinSamePrefix(raw[..4], [raw[4] + " " + raw[5]] + raw[6..], [raw[4], raw[5]] + raw[6..]);
  }

  /** Two rules that print the same text look the same to the inspection. */
  lemma SameTextLooksClean(family: Family, raw: Fields, f: Fields)
    requires IsManaged(Prerouting, family, f)
    requires Join(Normalize(f), ' ') == Join(Normalize(raw), ' ') && Normalize(f) != Normalize(raw)
    ensures var s := State([f], [], None);
            !StatusOf(family, s, [raw], []).NeedsRepair() && !AllInSync(family, s, [raw], [])
  {
    var s := State([f], [], None);
    hide Normalize, Join, IsManaged, SpecKey;
    SelectAll(Prerouting, family, true, [f]);
    SelectAll(Input, family, true, []);
    assert SpecTexts([f]) == [Join(Normalize(f), ' ')] && SpecTexts([raw]) == SpecTexts([f]);
    assert SpecTexts([]) == [];
    assert HasForm([raw], Normalize(raw));
    assert raw in [raw] && f in [f];
  }

  lemma MergedField(ports: string)
    requires DigitWord(ports)
    ensures var merged := "--dport" + " " + ports;
            ListableField(merged) && merged != "-m" && merged != "-j" && merged != "--comment" && !IsTransport(merged)
  {
    var merged := "--dport" + " " + ports;
    assert merged[0] == '-' && merged[1] == '-' && merged[2] == 'd' && merged[|merged| - 1] == ports[|ports| - 1];
  }

  lemma RunTogetherField(raw: Fields, f: Fields, merged: string, i: nat)
    requires |raw| == 14 && f == raw[..4] + [merged] + raw[6..] && i < |f|
    requires AllPlain(raw) && ListableField(merged)
    ensures ListableField(f[i])
  {
    hide IsPlain, ListableField;
    if i != 4 {
      var j := if i < 4 then i else i + 1;
      assert f[i] == raw[j];
      PlainIsListable(raw[j]);
    }
  }

  lemma RunTogetherMatch(raw: Fields, f: Fields, merged: string, i: nat)
    requires |raw| == 14 && f == raw[..4] + [merged] + raw[6..] && i < |f|
    requires merged != "-m" && merged != "-j" && merged != "--comment" && !IsTransport(merged) && Shaped(raw)
    requires forall j :: 0 <= j < |raw| ==> !IsImplicitMatch(raw, j)
    ensures !IsImplicitMatch(f, i)
    ensures (f[i] == "-m" || f[i] == "-j" || f[i] == "--comment") ==> i + 1 < |f| && f[i + 1] != "-m"
  {
    hide IsTransport;
    if i != 4 {
      var j := if i < 4 then i else i + 1;
      assert f[i] == raw[j] && !IsImplicitMatch(raw, j);
      if i != 3 && i + 1 < |f| {
        assert f[i + 1] == raw[j + 1];
      }
    }
  }

  lemma RunTogetherIsListed(protocol: string, ports: string, comment: string, target: string)
    requires KnownWords(protocol, comment) && DigitWord(ports) && DigitWord(target)
    ensures var f := RunTogether(DportForm(protocol, ports, comment, target));
            Listable(Prerouting, f) && Normalize(f) == f
  {
    hide OptionsAt, IsPlain, ListableField, KnownWords, DigitWord, IsImplicitMatch, Normalize, Drop, Trimmed;
    hide IsTransport;
    var raw := DportForm(protocol, ports, comment, target);
    var f, merged := RunTogether(raw), "--dport" + " " + ports;
    DportOptions(protocol, ports, comment, target);
    OptionsArePlain(raw);
    PlainDportMatches(protocol, ports, comment, target);
    OptionsShaped(raw, {6}, 8, 10);
    MergedField(ports);
    assert f == raw[..4] + [merged] + raw[6..];
    forall i | 0 <= i < |f| ensures ListableField(f[i]) && Trimmed(f[i]) {
      RunTogetherField(raw, f, merged, i);
      ListableIsTrimmed(f[i]);
    }
    forall i | 0 <= i < |f| && (f[i] == "-m" || f[i] == "-j" || f[i] == "--comment")
      ensures i + 1 < |f| && f[i + 1] != "-m"
    {
      RunTogetherMatch(raw, f, merged, i);
    }
    forall i | 0 <= i < |f| ensures !IsImplicitMatch(f, i) {
      RunTogetherMatch(raw, f, merged, i);
    }
    DropNothing(f);
    NormalizeIsDrop(f);
  }

  lemma OptionsArePlain(raw: Fields)
    requires OptionsAt(raw, {6}, 8, 10)
    ensures AllPlain(raw)
  {
  }

  lemma PlainDportMatches(protocol: string, ports: string, comment: string, target: string)
    requires KnownWords(protocol, comment)
    ensures PlainMatches(DportForm(protocol, ports, comment, target), {6}) && comment != "-m"
  {
  }

  lemma ListableIsTrimmed(s: string)
    requires ListableField(s)
    ensures Trimmed(s)
  {
  }

  lemma RunTogetherIsManaged(family: Family, protocol: string, ports: string, target: string)
    requires Listable(Prerouting, RunTogether(DportForm(protocol, ports, family.Comment(), target)))
    ensures IsManaged(Prerouting, family, RunTogether(DportForm(protocol, ports, family.Comment(), target)))
  {
    hide Listable, IsManaged, HasPair, Family.Comment;
    var f := RunTogether(DportForm(protocol, ports, family.Comment(), target));
    assert |f| == 13 && f[7] == "--comment" && f[7 + 1] == family.Comment();
    PairsAt(f, "--comment", family.Comment());
    ManagedMeansPairs(Prerouting, family, f);
  }

  lemma RunTogetherIsShorter(raw: Fields)
    requires |raw| > 6
    ensures RunTogether(raw) != raw
  {
    assert |RunTogether(raw)| == |raw| - 1;
  }

  lemma MergedIsNoText(ports: string, protocol: string)
    requires KnownWords(protocol, HYSTERIA_COMMENT)
    ensures !IsPlain("--dport" + " " + ports) && !TakesText(protocol)
  {
    var merged := "--dport" + " " + ports;
    assert merged[7] == ' ' && !IsPlainChar(merged[7]);
  }

  lemma RunTogetherIsNotPrinted(protocol: string, ports: string, comment: string, target: string)
    requires KnownWords(protocol, comment)
    ensures !TextBehindOptions(RunTogether(DportForm(protocol, ports, comment, target)))
  {
    MergedIsNoText(ports, protocol);
    hide IsPlain, TakesText;
    var f := RunTogether(DportForm(protocol, ports, comment, target));
    assert f[4] == "--dport" + " " + ports && f[4 - 1] == protocol;
  }

  /**
   * A rule that differs from a wanted one only in running an option and its value together into one field is
   * reported as the wanted rule: the inspection compares texts, in which both look the same. No firewall prints
   * such a rule, which would put quotes around an option word.
   */
  lemma BlankFieldMisleads(family: Family, protocol: string, ports: string, target: string)
    requires KnownWords(protocol, family.Comment()) && DigitWord(ports) && DigitWord(target)
    ensures var raw := DportForm(protocol, ports, family.Comment(), target);
            var s := State([RunTogether(raw)], [], None);
            && Written(Prerouting, family, raw) && s.WellFormed()
            && !StatusOf(family, s, [raw], []).NeedsRepair()
            && !AllInSync(family, s, [raw], [])
            && !AsPrinted(family, s)
  {
    hide Normalize, Listable, IsManaged, Join, KnownWords, DigitWord, RunTogether, StatusOf, HasPair, AllPlain;
    hide Family.Comment, AllInSync, TextBehindOptions;
    var raw := DportForm(protocol, ports, family.Comment(), target);
    var f := RunTogether(raw);
    DportIsWritten(family, protocol, ports, target);
    RunTogetherIsListed(protocol, ports, family.Comment(), target);
    RunTogetherIsManaged(family, protocol, ports, target);
    RunTogetherIsNotPrinted(protocol, ports, family.Comment(), target);
    assert f in [f];
    RunTogetherPrintsTheSame(raw);
    RunTogetherIsShorter(raw);
    SameTextLooksClean(family, raw, f);
  }
}
