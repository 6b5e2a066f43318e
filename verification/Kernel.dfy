// A kernel that rewrites what it is given: it lists every rule with the match it adds behind the protocol.
module Kernel {
  import opened Text
  import opened SpecText
  import opened SpecLaws
  import opened PortText
  import opened PortPlanner
  import opened ManagedRules
  import opened Firewall
  import opened RuleSpecs
  import opened Control

  /** Behind the first `-p udp` or `-p tcp` the kernel lists `-m` with the same word, unless it is there. */
  function KernelEcho(fields: Fields): Fields {
    if |fields| < 2 then fields
    else if fields[0] == "-p" && (fields[1] == "udp" || fields[1] == "tcp") then
      if |fields| >= 4 && fields[2] == "-m" && fields[3] == fields[1] then fields
      else fields[..2] + (["-m", fields[1]] + fields[2..])
    else [fields[0]] + KernelEcho(fields[1..])
  }

  /** The echo is the rule with one match inserted between two options. */
  predicate Inserted(fields: Fields, echoed: Fields, front: Fields, word: string, back: Fields) {
    && (word == "udp" || word == "tcp")
    && |front| >= 2 && front[|front| - 2] == "-p" && front[|front| - 1] == word
    && fields == front + back && echoed == front + (["-m", word] + back)
  }

  lemma InsertedCons(head: string, fields: Fields, echoed: Fields, front: Fields, word: string, back: Fields)
    requires Inserted(fields, echoed, front, word, back)
    ensures Inserted([head] + fields, [head] + echoed, [head] + front, word, back)
  {
    assert [head] + (front + back) == ([head] + front) + back;
    assert [head] + (front + (["-m", word] + back)) == ([head] + front) + (["-m", word] + back);
  }

  lemma {:induction false} EchoInserts(fields: Fields)
    ensures KernelEcho(fields) == fields ||
            exists front, word, back :: Inserted(fields, KernelEcho(fields), front, word, back)
  {
    hide Inserted;
    if |fields| < 2 {
    } else if fields[0] == "-p" && (fields[1] == "udp" || fields[1] == "tcp") {
      if KernelEcho(fields) != fields {
        InsertedHere(fields, fields[1]);
      }
    } else {
      var head, tail := fields[0], fields[1..];
      EchoInserts(tail);
      assert fields == [head] + tail;
      if KernelEcho(tail) != tail {
        var front, word, back :| Inserted(tail, KernelEcho(tail), front, word, back);
        InsertedCons(head, tail, KernelEcho(tail), front, word, back);
      }
    }
  }

  lemma InsertedHere(fields: Fields, word: string)
    requires |fields| >= 2 && fields[0] == "-p" && fields[1] == word && (word == "udp" || word == "tcp")
    ensures Inserted(fields, fields[..2] + (["-m", word] + fields[2..]), fields[..2], word, fields[2..])
  {
  }

  lemma WordsAreListable(word: string)
    requires word == "udp" || word == "tcp"
    ensures ListableField("-m") && ListableField(word) && IsPlain("-m") && IsPlain(word)
  {
  }

  /** A field of the echo is one of the rule, at its place or two further on, or one of the two inserted words. */
  lemma EchoedAt(fields: Fields, echoed: Fields, front: Fields, word: string, back: Fields, i: nat)
    requires Inserted(fields, echoed, front, word, back) && i < |echoed|
    ensures |echoed| == |fields| + 2
    ensures echoed[i] == if i < |front| then fields[i]
                         else if i == |front| then "-m"
                         else if i == |front| + 1 then word else fields[i - 2]
  {
  }

  lemma EchoedIsShaped(fields: Fields, echoed: Fields, front: Fields, word: string, back: Fields)
    requires Inserted(fields, echoed, front, word, back) && Shaped(fields)
    ensures Shaped(echoed)
  {
    forall i | 0 <= i < |echoed| && (echoed[i] == "-m" || echoed[i] == "-j" || echoed[i] == "--comment")
      ensures i + 1 < |echoed| && echoed[i + 1] != "-m"
    {
      EchoedAt(fields, echoed, front, word, back, i);
      assert fields[|front| - 1] == word;
      if i + 1 < |echoed| {
        EchoedAt(fields, echoed, front, word, back, i + 1);
      }
    }
  }

  lemma EchoedIsListable(
      chain: Chain, fields: Fields, echoed: Fields, front: Fields, word: string, back: Fields)
    requires Inserted(fields, echoed, front, word, back) && Listable(chain, fields)
    ensures Listable(chain, echoed) && (AllPlain(fields) ==> AllPlain(echoed))
  {
    EchoedIsShaped(fields, echoed, front, word, back);
    WordsAreListable(word);
    hide ListableField, IsPlain, Shaped;
    assert fields[|front| - 2] == "-p" && fields[0] == "-A" && fields[1] == chain.Name();
    forall i | 0 <= i < |echoed|
      ensures ListableField(echoed[i]) && (AllPlain(fields) ==> IsPlain(echoed[i]))
    {
      EchoedAt(fields, echoed, front, word, back, i);
    }
    EchoedAt(fields, echoed, front, word, back, 0);
    EchoedAt(fields, echoed, front, word, back, 1);
  }

  /** This kernel is a faithful one: it keeps rules listable, plain and in their normal form. */
  lemma KernelIsFaithful()
    ensures FaithfulEcho(KernelEcho)
  {
    hide KernelEcho, Inserted, Listable, Normalize, IsPlain;
    forall chain, f | Listable(chain, f)
      ensures Listable(chain, KernelEcho(f)) && Normalize(KernelEcho(f)) == Normalize(f)
      ensures AllPlain(f) ==> AllPlain(KernelEcho(f))
    {
      EchoInserts(f);
      if KernelEcho(f) != f {
        var front, word, back :| Inserted(f, KernelEcho(f), front, word, back);
        EchoedIsListable(chain, f, KernelEcho(f), front, word, back);
        InsertedKeepsForm(f, KernelEcho(f), front, word, back);
      }
    }
  }

  lemma InsertedKeepsForm(fields: Fields, echoed: Fields, front: Fields, word: string, back: Fields)
    requires Inserted(fields, echoed, front, word, back)
    ensures Normalize(echoed) == Normalize(fields)
  {
    hide Normalize;
    ImplicitMatchVanishes(front, word, back);
  }

  lemma EchoSkips(head: string, tail: Fields)
    requires head != "-p" && tail != []
    ensures KernelEcho([head] + tail) == [head] + KernelEcho(tail)
  {
    assert ([head] + tail)[1..] == tail;
  }

  lemma EchoHere(tail: Fields, word: string)
    requires |tail| >= 4 && tail[0] == "-p" && tail[1] == word && (word == "udp" || word == "tcp") && tail[3] != word
    ensures KernelEcho(tail) == tail[..2] + (["-m", word] + tail[2..])
  {
  }

  /** Behind the chain stands the protocol, and something other than its own match. */
  lemma EchoBehindProtocol(fields: Fields, word: string)
    requires |fields| >= 6 && fields[0] == "-A" && fields[1] == "PREROUTING" && fields[2] == "-p" && fields[3] == word
    requires (word == "udp" || word == "tcp") && fields[5] != word
    ensures KernelEcho(fields) == fields[..4] + (["-m", word] + fields[4..])
  {
    hide KernelEcho;
    var tail := fields[2..];
    EchoHere(tail, word);
    EchoSkips("PREROUTING", tail);
    EchoSkips("-A", ["PREROUTING"] + tail);
    assert fields == ["-A"] + (["PREROUTING"] + tail);
    assert tail[2..] == fields[4..] && fields[..4] == ["-A"] + (["PREROUTING"] + tail[..2]);
  }

  lemma DportFields(protocol: string, ports: string, comment: string, target: string)
    requires KnownWords(protocol, comment) && DigitWord(ports)
    ensures var raw := DportForm(protocol, ports, comment, target);
            && |raw| >= 6 && raw[0] == "-A" && raw[1] == "PREROUTING" && raw[2] == "-p" && raw[3] == protocol
            && raw[5] != protocol
  {
    assert !IsDigit("udp"[0]) && !IsDigit("tcp"[0]);
  }

  lemma MultiportFields(protocol: string, ports: string, comment: string, target: string)
    requires KnownWords(protocol, comment)
    ensures var raw := MultiportForm(protocol, ports, comment, target);
            && |raw| >= 6 && raw[0] == "-A" && raw[1] == "PREROUTING" && raw[2] == "-p" && raw[3] == protocol
            && raw[5] != protocol
  {
  }

  /** It does rewrite: every forwarding rule comes back with the match behind its protocol. */
  lemma KernelRewritesForwards(family: Family, r: Rule)
    requires WellBuilt(family, r)
    ensures var raw := RawForward(r);
            |raw| >= 4 && KernelEcho(raw) == raw[..4] + (["-m", r.protocol] + raw[4..]) && KernelEcho(raw) != raw
  {
    hide RawForward, DportForm, MultiportForm, WellBuilt, DigitWord, KernelEcho, Decimal;
    var raw := RawForward(r);
    ForwardForm(family, r);
    DportFields(r.protocol, PortArgument(r.matcher), r.comment, Decimal(r.target));
    MultiportFields(r.protocol, PortArgument(r.matcher), r.comment, Decimal(r.target));
    EchoBehindProtocol(raw, r.protocol);
    assert |KernelEcho(raw)| == |raw| + 2;
  }

  /** So under this kernel, too, one round settles both families and the next has nothing to do. */
  lemma KernelRoundSettles(infos: seq<NodeInfo>, s: State)
    requires s.WellFormed()
    ensures var t := AfterRound(KernelEcho, infos, s);
            && Clean(HysteriaFamily, infos, t) && Clean(MieruFamily, infos, t)
            && IssuedCommands(HysteriaFamily, infos, t) == [] && IssuedCommands(MieruFamily, infos, t) == []
  {
    KernelIsFaithful();
    RoundSettles(KernelEcho, infos, s);
  }
}
