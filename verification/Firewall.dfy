// An abstract iptables: the nat PREROUTING chain, the filter INPUT chain, the old HY2 user chain, and
// what each command does to them.
module Firewall {
  import opened Results
  import opened Text
  import opened SpecText
  import opened ManagedRules

  /** A command is its argument list; the tool that runs it is the firewall it is given to. */
  type Args = seq<string>

  datatype State = State(prerouting: seq<Fields>, input: seq<Fields>, userChain: Option<seq<Fields>>) {
    function Rules(chain: Chain): seq<Fields> {
      if chain.Prerouting? then prerouting else input
    }

    function WithRules(chain: Chain, rules: seq<Fields>): (s: State)
      ensures s.Rules(chain) == rules && s.userChain == userChain
      ensures forall other :: other != chain ==> s.Rules(other) == Rules(other)
    {
      if chain.Prerouting? then this.(prerouting := rules) else this.(input := rules)
    }

    predicate WellFormed() {
      AllListable(Prerouting, prerouting) && AllListable(Input, input)
    }
  }

  /** How the kernel lists back the rule of a command. */
  type Echo = Fields -> Fields

  /** The kernel may add or drop implicit matches, and keeps everything else. */
  ghost predicate FaithfulEcho(echo: Echo) {
    forall chain, f :: Listable(chain, f) ==>
      && Listable(chain, echo(f)) && Normalize(echo(f)) == Normalize(f)
      && (AllPlain(f) ==> AllPlain(echo(f)))
  }

  predicate JumpsToUserChain(fields: Fields) {
    HasPair(Body(fields), "-j", HYSTERIA_CHAIN)
  }

  /** Deletes the first rule the kernel takes for the same rule. */
  function DeleteFirst(rules: seq<Fields>, fields: Fields): Option<seq<Fields>> {
    if rules == [] then None
    else if Normalize(rules[0]) == Normalize(fields) then Some(rules[1..])
    else
      match DeleteFirst(rules[1..], fields)
      case None => None
      case Some(rest) => Some([rules[0]] + rest)
  }

  function DeleteFrom(s: State, chain: Chain, fields: Fields): Option<State> {
    match DeleteFirst(s.Rules(chain), fields)
    case None => None
    case Some(rules) => Some(s.WithRules(chain, rules))
  }

  function StepNat(echo: Echo, s: State, args: Args): Option<State>
    requires |args| >= 2
  {
    if args[0] == "-D" && args[1] == "PREROUTING" then DeleteFrom(s, Prerouting, ["-A"] + args[1..])
    else if args[0] == "-A" && args[1] == "PREROUTING" then Some(s.(prerouting := s.prerouting + [echo(args)]))
    else if args == ["-F", HYSTERIA_CHAIN] then (if s.userChain.Some? then Some(s.(userChain := Some([]))) else None)
    else if args == ["-X", HYSTERIA_CHAIN] then
      // A user chain can go only when it is empty and nothing jumps to it.
      if s.userChain == Some([]) && forall f :: f in s.prerouting ==> !JumpsToUserChain(f)
      then Some(s.(userChain := None)) else None
    else None
  }

  /** The state after a command, or None if the command fails and changes nothing. */
  function Step(echo: Echo, s: State, args: Args): Option<State> {
    if |args| >= 4 && args[..2] == ["-t", "nat"] then StepNat(echo, s, args[2..])
    else if |args| >= 2 && args[0] == "-D" && args[1] == "INPUT" then DeleteFrom(s, Input, ["-A"] + args[1..])
    else if |args| >= 2 && args[0] == "-I" && args[1] == "INPUT" then
      Some(s.(input := [echo(["-A"] + args[1..])] + s.input))
    else None
  }

  /** The state after all commands, or None if one of them fails. */
  function Run(echo: Echo, s: State, commands: seq<Args>): Option<State>
    decreases |commands|
  {
    if commands == [] then Some(s)
    else
      match Step(echo, s, commands[0])
      case None => None
      case Some(t) => Run(echo, t, commands[1..])
  }

  lemma {:induction false} RunConcat(echo: Echo, s: State, a: seq<Args>, b: seq<Args>)
    ensures Run(echo, s, a).None? ==> Run(echo, s, a + b).None?
    ensures Run(echo, s, a).Some? ==> Run(echo, s, a + b) == Run(echo, Run(echo, s, a).value, b)
    decreases |a|
  {
    hide Step;
    if a == [] {
      assert a + b == b;
    } else {
      assert (a + b)[0] == a[0] && (a + b)[1..] == a[1..] + b;
      match Step(echo, s, a[0])
      case None =>
      case Some(t) => RunConcat(echo, t, a[1..], b);
    }
  }

  /** The firewall of one tool, changed in place command by command. */
  class Firewall {
    var prerouting: seq<Fields>
    var input: seq<Fields>
    var userChain: Option<seq<Fields>>
    const echo: Echo
    const quoting: Quoting

    constructor (echo: Echo, quoting: Quoting)
      ensures this.echo == echo && this.quoting == quoting && Current() == State([], [], None)
    {
      this.echo, this.quoting := echo, quoting;
      prerouting, input, userChain := [], [], None;
    }

    function Current(): State
      reads this
    {
      State(prerouting, input, userChain)
    }

    /** Prints a chain the way `-S` does, with quotes where this firewall puts them. */
    method List(chain: Chain) returns (lines: seq<string>)
      requires Current().WellFormed()
      ensures Lists(lines, Current().Rules(chain))
    {
      var rules := if chain.Prerouting? then prerouting else input;
      PrintedRulesList(quoting, chain, rules);
      lines := [PrintSpec(quoting, ["-P", chain.Name(), "ACCEPT"])] + PrintRules(quoting, rules);
    }

    method RunCommand(args: Args) returns (ok: bool)
      modifies this
      ensures ok == Step(echo, old(Current()), args).Some?
      ensures Current() == if ok then Step(echo, old(Current()), args).value else old(Current())
    {
      var next := Step(echo, Current(), args);
      ok := next.Some?;
      if ok {
        prerouting, input, userChain := next.value.prerouting, next.value.input, next.value.userChain;
      }
    }

    /** Runs commands in order and stops at the first that fails, leaving the earlier ones in effect. */
    method Execute(commands: seq<Args>) returns (ok: bool, ghost done: nat)
      modifies this
      ensures done <= |commands| && (ok <==> done == |commands|)
      ensures Run(echo, old(Current()), commands[..done]) == Some(Current())
      ensures !ok ==> Run(echo, old(Current()), commands).None?
    {
      done := 0;
      for i := 0 to |commands|
        invariant done == i
        invariant Run(echo, old(Current()), commands[..i]) == Some(Current())
      {
        var before := Current();
        ok := RunCommand(commands[i]);
        OneMore(echo, old(Current()), commands, i, before);
        if !ok {
          return;
        }
        done := i + 1;
      }
      assert commands[..|commands|] == commands;
      ok := true;
    }
  }

  lemma {:induction false} OneMore(echo: Echo, s: State, commands: seq<Args>, i: nat, t: State)
    requires i < |commands| && Run(echo, s, commands[..i]) == Some(t)
    ensures Run(echo, s, commands[..i + 1]) == Step(echo, t, commands[i])
    ensures Step(echo, t, commands[i]).None? ==> Run(echo, s, commands).None?
  {
    hide Step;
    RunConcat(echo, s, commands[..i], [commands[i]]);
    assert commands[..i + 1] == commands[..i] + [commands[i]];
    var one := [commands[i]];
    assert one[1..] == [];
    RunConcat(echo, s, commands[..i + 1], commands[i + 1..]);
    assert commands == commands[..i + 1] + commands[i + 1..];
    assert Run(echo, t, one) == match Step(echo, t, one[0]) case None => None case Some(u) => Run(echo, u, one[1..]);
  }
}
