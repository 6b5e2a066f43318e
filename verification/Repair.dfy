// Repairing the firewall: the command list, what running it does from any state, and interruption.
module Repair {
  import opened Sequences
  import opened Results
  import opened Text
  import opened SpecText
  import opened PortPlanner
  import opened ManagedRules
  import opened Firewall
  import opened RuleSpecs

  // ----- The command list -----

  function Reopened(op: string, fields: Fields): Args {
    [op] + (if fields == [] then [] else fields[1..])
  }

  function DeleteArgs(chain: Chain, fields: Fields): Args {
    (if chain.Prerouting? then ["-t", "nat"] else []) + Reopened("-D", fields)
  }

  function AddArgs(raw: Fields): Args {
    ["-t", "nat"] + raw
  }

  function InsertArgs(raw: Fields): Args {
    Reopened("-I", raw)
  }

  function Deletes(chain: Chain, rules: seq<Fields>): (r: seq<Args>)
    ensures |r| == |rules| && forall i :: 0 <= i < |rules| ==> r[i] == DeleteArgs(chain, rules[i])
  {
    seq(|rules|, i requires 0 <= i < |rules| => DeleteArgs(chain, rules[i]))
  }

  function Adds(raws: seq<Fields>): (r: seq<Args>)
    ensures |r| == |raws| && forall i :: 0 <= i < |raws| ==> r[i] == AddArgs(raws[i])
  {
    seq(|raws|, i requires 0 <= i < |raws| => AddArgs(raws[i]))
  }

  function Inserts(raws: seq<Fields>): (r: seq<Args>)
    ensures |r| == |raws| && forall i :: 0 <= i < |raws| ==> r[i] == InsertArgs(raws[i])
  {
    seq(|raws|, i requires 0 <= i < |raws| => InsertArgs(raws[i]))
  }

  const FLUSH_CHAIN: Args := ["-t", "nat", "-F", HYSTERIA_CHAIN]
  const REMOVE_CHAIN: Args := ["-t", "nat", "-X", HYSTERIA_CHAIN]

  /** Only the HY2 repair knows the old user chain. */
  function ChainCommands(family: Family, present: bool): seq<Args> {
    if family.HysteriaFamily? && present then [FLUSH_CHAIN, REMOVE_CHAIN] else []
  }

  /** Deletes every managed rule listed, removes the old chain, then writes the wanted rules. */
  function RepairCommands(family: Family, forwards: seq<Fields>, allows: seq<Fields>,
                          prerouting: seq<Fields>, input: seq<Fields>, present: bool): seq<Args>
  {
    Deletes(Prerouting, Select(Prerouting, family, true, prerouting))
    + (Deletes(Input, Select(Input, family, true, input))
       + (ChainCommands(family, present) + (Adds(forwards) + Inserts(allows))))
  }

  method DeleteCommands(chain: Chain, family: Family, lines: seq<string>) returns (commands: seq<Args>)
    ensures commands == Deletes(chain, Select(chain, family, true, ParseLines(lines)))
  {
    hide IsManaged, Trim, ParseSpec, DeleteArgs, Select;
    commands := [];
    ghost var parsed := ParseLines(lines);
    assert Select(chain, family, true, parsed[..0]) == [] by { SelectNothing(chain, family); }
    for i := 0 to |lines|
      invariant commands == Deletes(chain, Select(chain, family, true, parsed[..i]))
    {
      var fields := ParseIptablesSpec(Trim(lines[i]));
      assert parsed[..i + 1] == parsed[..i] + [fields];
      SelectSnoc(chain, family, parsed[..i], fields);
      if IsManaged(chain, family, fields) {
        commands := commands + [DeleteArgs(chain, fields)];
      }
    }
    assert parsed[..|lines|] == parsed;
  }

  lemma SelectSnoc(chain: Chain, family: Family, rules: seq<Fields>, fields: Fields)
    ensures Select(chain, family, true, rules + [fields]) ==
            Select(chain, family, true, rules) + (if IsManaged(chain, family, fields) then [fields] else [])
  {
    hide IsManaged;
    SelectConcat(chain, family, true, rules, [fields]);
    assert [fields][1..] == [];
  }

  lemma SelectNothing(chain: Chain, family: Family)
    ensures Select(chain, family, true, []) == []
  {
  }

  /** How the head of a list of rules shows up in the two selections. */
  lemma SelectHead(chain: Chain, family: Family, rules: seq<Fields>)
    requires rules != []
    ensures IsManaged(chain, family, rules[0]) ==>
              && Select(chain, family, true, rules) == [rules[0]] + Select(chain, family, true, rules[1..])
              && Select(chain, family, false, rules) == Select(chain, family, false, rules[1..])
    ensures !IsManaged(chain, family, rules[0]) ==>
              && Select(chain, family, true, rules) == Select(chain, family, true, rules[1..])
              && Select(chain, family, false, rules) == [rules[0]] + Select(chain, family, false, rules[1..])
  {
    hide IsManaged;
  }

  lemma AddsSnoc(rules: seq<Rule>, i: nat)
    requires i < |rules|
    ensures Adds(RawForwards(rules[..i + 1])) == Adds(RawForwards(rules[..i])) + [AddArgs(RawForward(rules[i]))]
  {
    hide AddArgs, RawForward;
  }

  lemma InsertsSnoc(allows: seq<AllowRule>, i: nat)
    requires i < |allows|
    ensures Inserts(RawAllows(allows[..i + 1])) == Inserts(RawAllows(allows[..i])) + [InsertArgs(RawAllow(allows[i]))]
  {
    hide InsertArgs, RawAllow;
  }

  lemma NothingWritten()
    ensures Adds(RawForwards([])) == [] && Inserts(RawAllows([])) == []
  {
  }

  method WriteRules(rules: seq<Rule>) returns (adds: seq<Args>)
    ensures adds == Adds(RawForwards(rules))
  {
    hide Adds, RawForwards, AddArgs, RawForward;
    NothingWritten();
    adds := [];
    assert rules[..0] == [];
    for i := 0 to |rules|
      invariant adds == Adds(RawForwards(rules[..i]))
    {
      AddsSnoc(rules, i);
      adds := adds + [AddArgs(RawForward(rules[i]))];
    }
    assert rules[..|rules|] == rules;
  }

  method WriteAllows(allows: seq<AllowRule>) returns (inserts: seq<Args>)
    ensures inserts == Inserts(RawAllows(allows))
  {
    hide Inserts, RawAllows, InsertArgs, RawAllow;
    NothingWritten();
    inserts := [];
    assert allows[..0] == [];
    for i := 0 to |allows|
      invariant inserts == Inserts(RawAllows(allows[..i]))
    {
      InsertsSnoc(allows, i);
      inserts := inserts + [InsertArgs(RawAllow(allows[i]))];
    }
    assert allows[..|allows|] == allows;
  }

  method ReconcileCommands(family: Family, rules: seq<Rule>, allows: seq<AllowRule>,
                           preroutingLines: seq<string>, inputLines: seq<string>, present: bool)
    returns (commands: seq<Args>)
    ensures commands == RepairCommands(family, RawForwards(rules), RawAllows(allows),
                                       ParseLines(preroutingLines), ParseLines(inputLines), present)
  {
    hide Deletes, Adds, Inserts, RawForwards, RawAllows, Select, ParseLines;
    var first := DeleteCommands(Prerouting, family, preroutingLines);
    var second := DeleteCommands(Input, family, inputLines);
    var adds := WriteRules(rules);
    var inserts := WriteAllows(allows);
    commands := first + (second + (ChainCommands(family, present) + (adds + inserts)));
  }

  // ----- Running it -----

  function Echoes(echo: Echo, raws: seq<Fields>): (r: seq<Fields>)
    ensures |r| == |raws| && forall i :: 0 <= i < |raws| ==> r[i] == echo(raws[i])
  {
    seq(|raws|, i requires 0 <= i < |raws| => echo(raws[i]))
  }

  function Reverse<T>(s: seq<T>): (r: seq<T>)
    ensures |r| == |s| && forall i :: 0 <= i < |s| ==> r[i] == s[|s| - 1 - i]
  {
    seq(|s|, i requires 0 <= i < |s| => s[|s| - 1 - i])
  }

  /** Foreign rules in order, then the wanted ones; INPUT has the wanted ones in front, last written first. */
  function Repaired(echo: Echo, family: Family, s: State, forwards: seq<Fields>, allows: seq<Fields>): State {
    State(Select(Prerouting, family, false, s.prerouting) + Echoes(echo, forwards),
          Reverse(Echoes(echo, allows)) + Select(Input, family, false, s.input),
          if family.HysteriaFamily? then None else s.userChain)
  }

  lemma StepDelete(echo: Echo, s: State, chain: Chain, fields: Fields)
    requires Listable(chain, fields)
    ensures Step(echo, s, DeleteArgs(chain, fields)) == DeleteFrom(s, chain, fields)
  {
    var args := Reopened("-D", fields);
    assert ["-A"] + args[1..] == fields;
    if chain.Prerouting? {
      var full := ["-t", "nat"] + args;
      assert DeleteArgs(chain, fields) == full;
      assert full[..2] == ["-t", "nat"] && full[2..] == args;
      assert |fields| >= 2;
    } else {
      assert DeleteArgs(chain, fields) == args;
      assert args[0] == "-D";
      if |args| >= 4 {
        assert args[..2][0] == "-D";
      }
    }
  }

  lemma DeleteFirstCons(r: Fields, rest: seq<Fields>, m: Fields)
    ensures DeleteFirst([r] + rest, m) ==
            if Normalize(r) == Normalize(m) then Some(rest)
            else match DeleteFirst(rest, m) case None => None case Some(left) => Some([r] + left)
  {
    hide Normalize;
    assert ([r] + rest)[1..] == rest;
  }

  lemma ForeignForm(chain: Chain, family: Family, k: Fields, m: Fields)
    requires Listable(chain, m) && IsManaged(chain, family, m)
    requires Listable(chain, k) && !IsManaged(chain, family, k)
    ensures Normalize(k) != Normalize(m)
  {
    hide Listable, IsManaged, Normalize;
    if Normalize(k) == Normalize(m) {
      SameFormSameOwner(chain, family, k, m);
    }
  }

  lemma Regroup<T>(head: T, tail: seq<T>, m: T, rest: seq<T>)
    ensures ([head] + tail) + [m] + rest == [head] + (tail + [m] + rest)
    ensures ([head] + tail) + rest == [head] + (tail + rest)
    ensures [] + [m] + rest == [m] + rest && [] + rest == rest
  {
  }

  /** Deleting a managed rule passes over the foreign rules in front and removes it. */
  lemma {:induction false} DeleteHits(chain: Chain, family: Family, kept: seq<Fields>, m: Fields, rest: seq<Fields>)
    requires Listable(chain, m) && IsManaged(chain, family, m)
    requires Foreign(chain, family, kept)
    ensures DeleteFirst(kept + [m] + rest, m) == Some(kept + rest)
  {
    hide DeleteFirst, Listable, IsManaged, Normalize;
    if kept == [] {
      Regroup(m, [], m, rest);
      DeleteFirstCons(m, rest, m);
    } else {
      var k, tail := kept[0], kept[1..];
      assert k in kept && forall f :: f in tail ==> f in kept;
      HeadTail(kept);
      ForeignForm(chain, family, k, m);
      DeleteHits(chain, family, tail, m, rest);
      Regroup(k, tail, m, rest);
      DeleteFirstCons(k, tail + [m] + rest, m);
    }
  }

  ghost predicate Clears(echo: Echo, s: State, chain: Chain, family: Family, kept: seq<Fields>, rest: seq<Fields>) {
    Run(echo, s, Deletes(chain, Select(chain, family, true, rest)))
      == Some(s.WithRules(chain, kept + Select(chain, family, false, rest)))
  }

  predicate Foreign(chain: Chain, family: Family, rules: seq<Fields>) {
    forall f :: f in rules ==> Listable(chain, f) && !IsManaged(chain, family, f)
  }

  lemma ClearManaged(
      echo: Echo, s: State, chain: Chain, family: Family, kept: seq<Fields>, r: Fields, tail: seq<Fields>)
    requires s.Rules(chain) == kept + [r] + tail && Foreign(chain, family, kept)
    requires Listable(chain, r) && IsManaged(chain, family, r)
    requires Clears(echo, s.WithRules(chain, kept + tail), chain, family, kept, tail)
    ensures Clears(echo, s, chain, family, kept, [r] + tail)
  {
    var t, rest := s.WithRules(chain, kept + tail), [r] + tail;
    DeleteHits(chain, family, kept, r, tail);
    StepDelete(echo, s, chain, r);
    SelectHead(chain, family, rest);
    hide IsManaged, Listable, Step, DeleteArgs, DeleteFirst, Select, Run;
    assert rest[1..] == tail;
    RunDelete(echo, s, t, chain, r, Select(chain, family, true, tail));
  }

  lemma ClearForeign(
      echo: Echo, s: State, chain: Chain, family: Family, kept: seq<Fields>, r: Fields, tail: seq<Fields>)
    requires !IsManaged(chain, family, r)
    requires Clears(echo, s, chain, family, kept + [r], tail)
    ensures Clears(echo, s, chain, family, kept, [r] + tail)
  {
    hide IsManaged, Select, Run, Deletes;
    var rest := [r] + tail;
    assert rest[0] == r && rest[1..] == tail;
    SelectHead(chain, family, rest);
    ConcatTail(kept, [r], Select(chain, family, false, tail));
  }

  /** Every delete command finds its rule, duplicates included, and foreign rules stay in order. */
  lemma {:induction false} DeletesClear(
      echo: Echo, s: State, chain: Chain, family: Family, kept: seq<Fields>, rest: seq<Fields>)
    requires s.Rules(chain) == kept + rest && Foreign(chain, family, kept) && AllListable(chain, rest)
    ensures Clears(echo, s, chain, family, kept, rest)
    decreases |rest|
  {
    if rest == [] {
      assert Deletes(chain, []) == [] && kept + rest == kept;
      assert kept + Select(chain, family, false, rest) == kept;
    } else {
      hide Clears, IsManaged, Listable;
      var r, tail := rest[0], rest[1..];
      assert r in rest && rest == [r] + tail;
      assert kept + rest == kept + [r] + tail;
      if IsManaged(chain, family, r) {
        DeletesClear(echo, s.WithRules(chain, kept + tail), chain, family, kept, tail);
        ClearManaged(echo, s, chain, family, kept, r, tail);
      } else {
        DeletesClear(echo, s, chain, family, kept + [r], tail);
        ClearForeign(echo, s, chain, family, kept, r, tail);
      }
    }
  }

  lemma RunDelete(echo: Echo, s: State, t: State, chain: Chain, m: Fields, rest: seq<Fields>)
    requires Step(echo, s, DeleteArgs(chain, m)) == Some(t)
    ensures Run(echo, s, Deletes(chain, [m] + rest)) == Run(echo, t, Deletes(chain, rest))
  {
    hide Step, DeleteArgs;
    var commands := Deletes(chain, [m] + rest);
    assert commands[0] == DeleteArgs(chain, m);
    assert commands[1..] == Deletes(chain, rest);
  }

  // ----- Writing the wanted rules -----

  lemma StepAdd(echo: Echo, s: State, raw: Fields)
    requires Listable(Prerouting, raw)
    ensures Step(echo, s, AddArgs(raw)) == Some(s.(prerouting := s.prerouting + [echo(raw)]))
  {
    var args := AddArgs(raw);
    assert args[..2] == ["-t", "nat"] && args[2..] == raw;
    assert raw[0] == "-A" && raw[1] == "PREROUTING";
  }

  lemma StepInsert(echo: Echo, s: State, raw: Fields)
    requires Listable(Input, raw)
    ensures Step(echo, s, InsertArgs(raw)) == Some(s.(input := [echo(raw)] + s.input))
  {
    var args := InsertArgs(raw);
    assert args == ["-I"] + raw[1..] && ["-A"] + args[1..] == raw;
    if |args| >= 4 {
      assert args[..2][0] == "-I";
    }
  }

  lemma {:induction false} AddsRun(echo: Echo, s: State, raws: seq<Fields>)
    requires AllListable(Prerouting, raws)
    ensures Run(echo, s, Adds(raws)) == Some(s.(prerouting := s.prerouting + Echoes(echo, raws)))
  {
    hide Listable, Step, AddArgs;
    if raws == [] {
      assert Adds(raws) == [] && s.prerouting + Echoes(echo, raws) == s.prerouting;
    } else {
      var n := |raws| - 1;
      assert raws[n] in raws && raws[..n] + [raws[n]] == raws;
      AddsRun(echo, s, raws[..n]);
      assert Adds(raws)[..n] == Adds(raws[..n]);
      var t := s.(prerouting := s.prerouting + Echoes(echo, raws[..n]));
      StepAdd(echo, t, raws[n]);
      OneMore(echo, s, Adds(raws), n, t);
      assert Adds(raws)[..n + 1] == Adds(raws);
      assert s.prerouting + Echoes(echo, raws) == t.prerouting + [echo(raws[n])];
    }
  }

  lemma InsertsSplit(raws: seq<Fields>)
    requires raws != []
    ensures var n := |raws| - 1;
            && Inserts(raws)[..n] == Inserts(raws[..n]) && Inserts(raws)[n] == InsertArgs(raws[n])
            && Inserts(raws)[..n + 1] == Inserts(raws)
  {
    hide InsertArgs;
  }

  lemma ReverseEchoes(echo: Echo, raws: seq<Fields>, rest: seq<Fields>)
    requires raws != []
    ensures var n := |raws| - 1;
            Reverse(Echoes(echo, raws)) + rest == [echo(raws[n])] + (Reverse(Echoes(echo, raws[..n])) + rest)
  {
    var n := |raws| - 1;
    assert Reverse(Echoes(echo, raws)) == [echo(raws[n])] + Reverse(Echoes(echo, raws[..n]));
    hide Reverse, Echoes;
    ConcatTail([echo(raws[n])], Reverse(Echoes(echo, raws[..n])), rest);
  }

  lemma NothingInserted(echo: Echo, rest: seq<Fields>)
    ensures Inserts([]) == [] && Reverse(Echoes(echo, [])) + rest == rest
  {
  }

  lemma {:induction false} InsertsRun(echo: Echo, s: State, raws: seq<Fields>)
    requires AllListable(Input, raws)
    ensures Run(echo, s, Inserts(raws)) == Some(s.(input := Reverse(Echoes(echo, raws)) + s.input))
  {
    hide Listable, Step, InsertArgs, Inserts, Reverse, Echoes;
    if raws == [] {
      NothingInserted(echo, s.input);
    } else {
      hide Run;
      var n := |raws| - 1;
      InitLast(raws);
      assert raws[n] in raws;
      InsertsRun(echo, s, raws[..n]);
      InsertsSplit(raws);
      var t := s.(input := Reverse(Echoes(echo, raws[..n])) + s.input);
      StepInsert(echo, t, raws[n]);
      OneMore(echo, s, Inserts(raws), n, t);
      ReverseEchoes(echo, raws, s.input);
    }
  }

  /** With every jump gone, the old chain is flushed and removed. */
  lemma ChainGoes(echo: Echo, s: State, family: Family)
    requires Foreign(Prerouting, family, s.prerouting)
    ensures Run(echo, s, ChainCommands(family, s.userChain.Some?))
         == Some(if family.HysteriaFamily? then s.(userChain := None) else s)
  {
    if family.HysteriaFamily? && s.userChain.Some? {
      forall f | f in s.prerouting ensures !JumpsToUserChain(f) {
        ManagedMeansPairs(Prerouting, family, f);
      }
      var flushed := s.(userChain := Some([]));
      assert FLUSH_CHAIN[..2] == ["-t", "nat"] && FLUSH_CHAIN[2..] == ["-F", HYSTERIA_CHAIN];
      assert Step(echo, s, FLUSH_CHAIN) == Some(flushed);
      assert REMOVE_CHAIN[..2] == ["-t", "nat"] && REMOVE_CHAIN[2..] == ["-X", HYSTERIA_CHAIN];
      assert Step(echo, flushed, REMOVE_CHAIN) == Some(s.(userChain := None));
      var commands := ChainCommands(family, true);
      hide Step;
      var last := [REMOVE_CHAIN];
      assert last[1..] == [] && Run(echo, flushed, last) == Some(s.(userChain := None));
      assert commands[1..] == last;
    }
  }

  // ----- Convergence -----

  /** The repair commands for the rules a firewall really holds. */
  function CommandsFor(family: Family, s: State, forwards: seq<Fields>, allows: seq<Fields>): seq<Args> {
    RepairCommands(family, forwards, allows, s.prerouting, s.input, s.userChain.Some?)
  }

  /** Any listing of the firewall leads to the same commands. */
  lemma CommandsFromListing(family: Family, s: State, forwards: seq<Fields>, allows: seq<Fields>,
                            preroutingLines: seq<string>, inputLines: seq<string>)
    requires Lists(preroutingLines, s.prerouting) && Lists(inputLines, s.input)
    ensures RepairCommands(family, forwards, allows, ParseLines(preroutingLines), ParseLines(inputLines),
                           s.userChain.Some?)
         == CommandsFor(family, s, forwards, allows)
  {
    SelectFromLines(Prerouting, family, ParseLines(preroutingLines));
    SelectFromLines(Input, family, ParseLines(inputLines));
  }

  /**
   * Repair converges from any state: no command fails, foreign rules keep their order, every managed rule is
   * replaced by the wanted ones, and an HY2 repair removes the old chain.
   */
  lemma RepairConverges(echo: Echo, family: Family, s: State, forwards: seq<Fields>, allows: seq<Fields>)
    requires s.WellFormed()
    requires AllWritten(Prerouting, family, forwards) && AllWritten(Input, family, allows)
    ensures Run(echo, s, CommandsFor(family, s, forwards, allows))
         == Some(Repaired(echo, family, s, forwards, allows))
  {
    var pre, inp := s.prerouting, s.input;
    var s1 := s.WithRules(Prerouting, Select(Prerouting, family, false, pre));
    var s2 := s1.WithRules(Input, Select(Input, family, false, inp));
    var s3 := if family.HysteriaFamily? then s2.(userChain := None) else s2;
    var s4 := s3.(prerouting := s3.prerouting + Echoes(echo, forwards));
    DeletesClear(echo, s, Prerouting, family, [], pre);
    DeletesClear(echo, s1, Input, family, [], inp);
    assert [] + Select(Prerouting, family, false, pre) == Select(Prerouting, family, false, pre);
    assert [] + Select(Input, family, false, inp) == Select(Input, family, false, inp);
    ChainGoes(echo, s2, family);
    AddsRun(echo, s3, forwards);
    InsertsRun(echo, s4, allows);
    var d1 := Deletes(Prerouting, Select(Prerouting, family, true, pre));
    var d2 := Deletes(Input, Select(Input, family, true, inp));
    var c, a, i := ChainCommands(family, s.userChain.Some?), Adds(forwards), Inserts(allows);
    hide Run, Select, IsManaged, Listable, ChainCommands;
    RunConcat(echo, s, d1, d2 + (c + (a + i)));
    RunConcat(echo, s1, d2, c + (a + i));
    RunConcat(echo, s2, c, a + i);
    RunConcat(echo, s3, a, i);
  }

  // ----- The order of the commands -----

  /** The place of a command in a repair, read off its words. */
  function Phase(command: Args): int {
    if |command| >= 3 && command[..3] == ["-t", "nat", "-D"] then 0
    else if |command| >= 1 && command[0] == "-D" then 1
    else if command == ["-t", "nat", "-F", "V2NODE-HY2"] then 2
    else if command == ["-t", "nat", "-X", "V2NODE-HY2"] then 3
    else if |command| >= 3 && command[..3] == ["-t", "nat", "-A"] then 4
    else if |command| >= 1 && command[0] == "-I" then 5
    else 6
  }

  predicate AllInPhase(commands: seq<Args>, phase: int) {
    forall c :: c in commands ==> Phase(c) == phase
  }

  /** No command comes before one of an earlier phase, and each is in some phase. */
  predicate InPhases(commands: seq<Args>, low: int, high: int) {
    && (forall i :: 0 <= i < |commands| ==> low <= Phase(commands[i]) <= high)
    && (forall i, j :: 0 <= i < j < |commands| ==> Phase(commands[i]) <= Phase(commands[j]))
  }

  lemma OnePhase(commands: seq<Args>, phase: int)
    requires AllInPhase(commands, phase)
    ensures InPhases(commands, phase, phase)
  {
    hide Phase;
    forall i | 0 <= i < |commands| ensures Phase(commands[i]) == phase {
      assert commands[i] in commands;
    }
  }

  lemma PhasesConcat(a: seq<Args>, b: seq<Args>, low: int, middle: int, next: int, high: int)
    requires InPhases(a, low, middle) && InPhases(b, next, high) && low <= middle <= next <= high
    ensures InPhases(a + b, low, high)
  {
    hide Phase;
  }

  lemma DeletePhase(chain: Chain, rules: seq<Fields>)
    requires AllListable(chain, rules)
    ensures AllInPhase(Deletes(chain, rules), if chain.Prerouting? then 0 else 1)
  {
    forall c | c in Deletes(chain, rules) ensures Phase(c) == if chain.Prerouting? then 0 else 1 {
      var i :| 0 <= i < |rules| && Deletes(chain, rules)[i] == c;
      assert rules[i] in rules;
      hide Listable;
      if chain.Prerouting? {
        assert c[..3] == ["-t", "nat", "-D"];
      } else {
        assert |c| >= 3 ==> c[..3][0] == "-D";
      }
    }
  }

  lemma AddPhase(raws: seq<Fields>)
    requires AllListable(Prerouting, raws)
    ensures AllInPhase(Adds(raws), 4)
  {
    forall c | c in Adds(raws) ensures Phase(c) == 4 {
      var i :| 0 <= i < |raws| && Adds(raws)[i] == c;
      assert raws[i] in raws && c == ["-t", "nat"] + raws[i];
      assert c[..3] == ["-t", "nat", "-A"] && c[2] == "-A";
    }
  }

  lemma InsertPhase(raws: seq<Fields>)
    requires AllListable(Input, raws)
    ensures AllInPhase(Inserts(raws), 5)
  {
    forall c | c in Inserts(raws) ensures Phase(c) == 5 {
      var i :| 0 <= i < |raws| && Inserts(raws)[i] == c;
      assert raws[i] in raws && c == ["-I"] + raws[i][1..] && c[0] == "-I";
      assert |c| >= 3 ==> c[..3][0] == "-I";
    }
  }

  lemma ChainPhases(family: Family, present: bool)
    ensures InPhases(ChainCommands(family, present), 2, 3)
  {
    assert FLUSH_CHAIN[..3] == ["-t", "nat", "-F"] && REMOVE_CHAIN[..3] == ["-t", "nat", "-X"];
    assert Phase(FLUSH_CHAIN) == 2 && Phase(REMOVE_CHAIN) == 3;
  }

  lemma SelectedIsListable(chain: Chain, family: Family, rules: seq<Fields>)
    requires AllListable(chain, rules)
    ensures AllListable(chain, Select(chain, family, true, rules))
  {
    hide Listable, IsManaged;
  }

  lemma WrittenIsListable(chain: Chain, family: Family, raws: seq<Fields>)
    requires AllWritten(chain, family, raws)
    ensures AllListable(chain, raws)
  {
    hide Listable;
  }

  /**
   * A repair first deletes in PREROUTING, then in INPUT, then flushes the old chain, then removes it, then adds to
   * PREROUTING, and last inserts into INPUT.
   */
  lemma CommandsComeInPhases(family: Family, s: State, forwards: seq<Fields>, allows: seq<Fields>)
    requires s.WellFormed()
    requires AllWritten(Prerouting, family, forwards) && AllWritten(Input, family, allows)
    ensures InPhases(CommandsFor(family, s, forwards, allows), 0, 5)
  {
    hide Phase, AllListable, AllWritten, InPhases, Deletes, Adds, Inserts, ChainCommands, Select, AllInPhase;
    SelectedIsListable(Prerouting, family, s.prerouting);
    SelectedIsListable(Input, family, s.input);
    WrittenIsListable(Prerouting, family, forwards);
    WrittenIsListable(Input, family, allows);
    var a := Deletes(Prerouting, Select(Prerouting, family, true, s.prerouting));
    var b := Deletes(Input, Select(Input, family, true, s.input));
    var c := ChainCommands(family, s.userChain.Some?);
    var d, e := Adds(forwards), Inserts(allows);
    DeletePhase(Prerouting, Select(Prerouting, family, true, s.prerouting));
    DeletePhase(Input, Select(Input, family, true, s.input));
    AddPhase(forwards);
    InsertPhase(allows);
    OnePhase(a, 0);
    OnePhase(b, 1);
    ChainPhases(family, s.userChain.Some?);
    OnePhase(d, 4);
    OnePhase(e, 5);
    PhasesConcat(d, e, 4, 4, 5, 5);
    PhasesConcat(c, d + e, 2, 3, 4, 5);
    PhasesConcat(b, c + (d + e), 1, 1, 2, 5);
    PhasesConcat(a, b + (c + (d + e)), 0, 0, 1, 5);
  }

  // ----- Interruption -----

  /** Foreign rules are untouched and the firewall stays well formed; Mieru leaves the old chain alone. */
  predicate Preserves(family: Family, s: State, t: State) {
    && t.WellFormed()
    && Select(Prerouting, family, false, t.prerouting) == Select(Prerouting, family, false, s.prerouting)
    && Select(Input, family, false, t.input) == Select(Input, family, false, s.input)
    && (family.MieruFamily? ==> t.userChain == s.userChain)
  }

  datatype Kind = Delete(chain: Chain, rule: Fields) | DropChain | Add(raw: Fields) | Insert(raw: Fields)

  /** The command is one a repair of this family may issue. */
  predicate IsRepairCommand(family: Family, command: Args, kind: Kind) {
    match kind
    case Delete(chain, rule) =>
      Listable(chain, rule) && IsManaged(chain, family, rule) && command == DeleteArgs(chain, rule)
    case DropChain => family.HysteriaFamily? && (command == FLUSH_CHAIN || command == REMOVE_CHAIN)
    case Add(raw) => Written(Prerouting, family, raw) && command == AddArgs(raw)
    case Insert(raw) => Written(Input, family, raw) && command == InsertArgs(raw)
  }

  ghost predicate MayIssue(family: Family, command: Args) {
    exists kind :: IsRepairCommand(family, command, kind)
  }

  ghost predicate AllRepairCommands(family: Family, commands: seq<Args>) {
    forall c :: c in commands ==> MayIssue(family, c)
  }

  lemma EchoIsManaged(echo: Echo, chain: Chain, family: Family, raw: Fields)
    requires FaithfulEcho(echo) && Written(chain, family, raw)
    ensures Listable(chain, echo(raw)) && AllPlain(echo(raw)) && Normalize(echo(raw)) == raw
    ensures IsManaged(chain, HysteriaFamily, echo(raw)) == family.HysteriaFamily?
    ensures IsManaged(chain, MieruFamily, echo(raw)) == family.MieruFamily?
  {
    SameFormSameOwner(chain, HysteriaFamily, raw, echo(raw));
    SameFormSameOwner(chain, MieruFamily, raw, echo(raw));
  }

  lemma {:induction false} DeletePreserves(chain: Chain, family: Family, rules: seq<Fields>, m: Fields)
    requires AllListable(chain, rules) && Listable(chain, m) && IsManaged(chain, family, m)
    requires DeleteFirst(rules, m).Some?
    ensures AllListable(chain, DeleteFirst(rules, m).value)
    ensures Select(chain, family, false, DeleteFirst(rules, m).value) == Select(chain, family, false, rules)
  {
    var r, tail := rules[0], rules[1..];
    assert r in rules;
    if Normalize(r) == Normalize(m) {
      SameFormSameOwner(chain, family, r, m);
    } else {
      DeletePreserves(chain, family, tail, m);
      assert ([r] + DeleteFirst(tail, m).value)[1..] == DeleteFirst(tail, m).value;
    }
  }

  lemma SelectForeignAround(chain: Chain, family: Family, rules: seq<Fields>, e: Fields)
    requires IsManaged(chain, family, e)
    ensures Select(chain, family, false, rules + [e]) == Select(chain, family, false, rules)
    ensures Select(chain, family, false, [e] + rules) == Select(chain, family, false, rules)
  {
    SelectConcat(chain, family, false, rules, [e]);
    SelectConcat(chain, family, false, [e], rules);
    SelectAll(chain, family, true, [e]);
  }

  lemma DeletionPreserves(echo: Echo, family: Family, s: State, chain: Chain, rule: Fields)
    requires s.WellFormed() && Listable(chain, rule) && IsManaged(chain, family, rule)
    requires Step(echo, s, DeleteArgs(chain, rule)).Some?
    ensures Preserves(family, s, Step(echo, s, DeleteArgs(chain, rule)).value)
  {
    StepDelete(echo, s, chain, rule);
    hide Step, DeleteArgs, Listable, IsManaged, Select, DeleteFirst;
    assert AllListable(chain, s.Rules(chain));
    DeletePreserves(chain, family, s.Rules(chain), rule);
    hide AllListable;
  }

  lemma ChainCommandsPreserve(echo: Echo, s: State, command: Args)
    requires s.WellFormed() && (command == FLUSH_CHAIN || command == REMOVE_CHAIN)
    requires Step(echo, s, command).Some?
    ensures Preserves(HysteriaFamily, s, Step(echo, s, command).value)
  {
    assert FLUSH_CHAIN[..2] == ["-t", "nat"] && FLUSH_CHAIN[2..] == ["-F", HYSTERIA_CHAIN];
    assert REMOVE_CHAIN[..2] == ["-t", "nat"] && REMOVE_CHAIN[2..] == ["-X", HYSTERIA_CHAIN];
    hide AllListable, Select, JumpsToUserChain;
  }

  lemma AdditionPreserves(echo: Echo, family: Family, s: State, raw: Fields)
    requires FaithfulEcho(echo) && s.WellFormed() && Written(Prerouting, family, raw)
    ensures Step(echo, s, AddArgs(raw)).Some? && Preserves(family, s, Step(echo, s, AddArgs(raw)).value)
  {
    EchoIsManaged(echo, Prerouting, family, raw);
    StepAdd(echo, s, raw);
    hide Step, AddArgs, Listable, IsManaged, Select, Written, FaithfulEcho;
    SelectForeignAround(Prerouting, family, s.prerouting, echo(raw));
    SnocMembers(s.prerouting, echo(raw));
  }

  lemma InsertionPreserves(echo: Echo, family: Family, s: State, raw: Fields)
    requires FaithfulEcho(echo) && s.WellFormed() && Written(Input, family, raw)
    ensures Step(echo, s, InsertArgs(raw)).Some? && Preserves(family, s, Step(echo, s, InsertArgs(raw)).value)
  {
    EchoIsManaged(echo, Input, family, raw);
    StepInsert(echo, s, raw);
    hide Step, InsertArgs, Listable, IsManaged, Select, Written, FaithfulEcho;
    SelectForeignAround(Input, family, s.input, echo(raw));
    ConcatMembers([echo(raw)], s.input);
  }

  lemma StepPreserves(echo: Echo, family: Family, s: State, command: Args, kind: Kind)
    requires FaithfulEcho(echo) && s.WellFormed()
    requires IsRepairCommand(family, command, kind) && Step(echo, s, command).Some?
    ensures Preserves(family, s, Step(echo, s, command).value)
  {
    hide Step, Preserves, FaithfulEcho, Listable, IsManaged, Written, DeleteArgs, AddArgs, InsertArgs, State.WellFormed;
    match kind
    case Delete(chain, rule) => DeletionPreserves(echo, family, s, chain, rule);
    case DropChain => ChainCommandsPreserve(echo, s, command);
    case Add(raw) => AdditionPreserves(echo, family, s, raw);
    case Insert(raw) => InsertionPreserves(echo, family, s, raw);
  }

  lemma {:induction false} RunPreserves(echo: Echo, family: Family, s: State, commands: seq<Args>)
    requires FaithfulEcho(echo) && s.WellFormed() && AllRepairCommands(family, commands)
    requires Run(echo, s, commands).Some?
    ensures Preserves(family, s, Run(echo, s, commands).value)
    decreases |commands|
  {
    hide Step, IsRepairCommand, Preserves, FaithfulEcho;
    if commands == [] {
      PreservesItself(family, s);
    } else {
      assert commands[0] in commands && MayIssue(family, commands[0]);
      var kind :| IsRepairCommand(family, commands[0], kind);
      var t := Step(echo, s, commands[0]).value;
      StepPreserves(echo, family, s, commands[0], kind);
      PreservesOnward(family, s, t, t);
      RunPreserves(echo, family, t, commands[1..]);
      PreservesOnward(family, s, t, Run(echo, t, commands[1..]).value);
    }
  }

  lemma PreservesItself(family: Family, s: State)
    requires s.WellFormed()
    ensures Preserves(family, s, s)
  {
  }

  lemma PreservesOnward(family: Family, s: State, t: State, u: State)
    requires Preserves(family, s, t)
    ensures t.WellFormed()
    ensures Preserves(family, t, u) ==> Preserves(family, s, u)
  {
  }

  lemma DeletesAreRepairCommands(family: Family, chain: Chain, rules: seq<Fields>)
    requires AllListable(chain, rules)
    ensures AllRepairCommands(family, Deletes(chain, Select(chain, family, true, rules)))
  {
    var selected := Select(chain, family, true, rules);
    forall c | c in Deletes(chain, selected) ensures MayIssue(family, c) {
      var i :| 0 <= i < |selected| && Deletes(chain, selected)[i] == c;
      assert selected[i] in selected && selected[i] in rules;
      hide IsManaged, Listable, DeleteArgs;
      assert IsRepairCommand(family, c, Delete(chain, selected[i]));
    }
  }

  lemma WritesAreRepairCommands(family: Family, forwards: seq<Fields>, allows: seq<Fields>)
    requires AllWritten(Prerouting, family, forwards) && AllWritten(Input, family, allows)
    ensures AllRepairCommands(family, Adds(forwards)) && AllRepairCommands(family, Inserts(allows))
  {
    hide Written, AddArgs, InsertArgs;
    forall c | c in Adds(forwards) ensures MayIssue(family, c) {
      var i :| 0 <= i < |forwards| && Adds(forwards)[i] == c;
      assert forwards[i] in forwards && IsRepairCommand(family, c, Add(forwards[i]));
    }
    forall c | c in Inserts(allows) ensures MayIssue(family, c) {
      var i :| 0 <= i < |allows| && Inserts(allows)[i] == c;
      assert allows[i] in allows && IsRepairCommand(family, c, Insert(allows[i]));
    }
  }

  lemma CommandsAreRepairCommands(family: Family, s: State, forwards: seq<Fields>, allows: seq<Fields>)
    requires s.WellFormed()
    requires AllWritten(Prerouting, family, forwards) && AllWritten(Input, family, allows)
    ensures AllRepairCommands(family, CommandsFor(family, s, forwards, allows))
  {
    DeletesAreRepairCommands(family, Prerouting, s.prerouting);
    DeletesAreRepairCommands(family, Input, s.input);
    WritesAreRepairCommands(family, forwards, allows);
    forall c | c in ChainCommands(family, s.userChain.Some?) ensures MayIssue(family, c) {
      assert IsRepairCommand(family, c, DropChain);
    }
    hide MayIssue, ChainCommands, Select;
  }

  /**
   * Commands cut short anywhere leave a well-formed firewall. Those computed anew from there, if they are run as a
   * cleanup runs them, reach the very state the uninterrupted ones would have reached. A repair call inspects
   * first; what the next call does is for Control to say.
   */
  lemma InterruptedRepairRecovers(
      echo: Echo, family: Family, s: State, forwards: seq<Fields>, allows: seq<Fields>, k: nat)
    requires FaithfulEcho(echo) && s.WellFormed()
    requires AllWritten(Prerouting, family, forwards) && AllWritten(Input, family, allows)
    requires k <= |CommandsFor(family, s, forwards, allows)|
    ensures var cut := Run(echo, s, CommandsFor(family, s, forwards, allows)[..k]);
            && cut.Some?
            && Preserves(family, s, cut.value)
            && Run(echo, cut.value, CommandsFor(family, cut.value, forwards, allows))
            == Run(echo, s, CommandsFor(family, s, forwards, allows))
  {
    var commands := CommandsFor(family, s, forwards, allows);
    RepairConverges(echo, family, s, forwards, allows);
    CommandsAreRepairCommands(family, s, forwards, allows);
    hide MayIssue, CommandsFor, Run, Listable, Written;
    assert commands == commands[..k] + commands[k..];
    RunConcat(echo, s, commands[..k], commands[k..]);
    var t := Run(echo, s, commands[..k]).value;
    RunPreserves(echo, family, s, commands[..k]);
    RepairConverges(echo, family, t, forwards, allows);
  }
}
