// What port text means, said without the parser: the texts that name ports, those that are refused and why, and
// the order in which ranges and matchers come out.
module PortLaws {
  import opened Sequences
  import opened Results
  import opened Text
  import opened PortText

  // ----- Which tokens name which ranges -----

  /** Digits, perhaps behind one plus sign, that spell this port. */
  predicate SpellsPort(text: string, n: Port) {
    var digits := if text != "" && text[0] == '+' then text[1..] else text;
    n > 0 && AllDigits(digits) && DigitsValue(digits) == n
  }

  /** One number, or two with a dash or a colon between them. */
  predicate SpellsRange(token: string, r: PortRange) {
    || (r.start == r.end && SpellsPort(token, r.start))
    || (r.start <= r.end && exists k :: 0 <= k < |token| && (token[k] == '-' || token[k] == ':')
                                     && SpellsPort(token[..k], r.start) && SpellsPort(token[k + 1..], r.end))
  }

  lemma PortHasNoDash(text: string, n: Port)
    requires SpellsPort(text, n)
    ensures '-' !in text && ':' !in text && text != "" && ',' !in text
  {
  }

  lemma NumberIsExact(text: string, n: Port)
    ensures ParsePortNumber(text) == Ok(n) <==> SpellsPort(text, n)
  {
    hide DigitsValue;
  }

  lemma CutToken(token: string, k: nat)
    requires k < |token| && token[k] !in token[..k] && token[k] !in token[k + 1..]
    ensures Split(token, token[k]) == [token[..k], token[k + 1..]]
  {
    hide Split;
    var a, b, sep := token[..k], token[k + 1..], token[k];
    assert token == a + [sep] + b;
    SplitAt(a, b, sep);
    SplitWhole(b, sep);
    assert [a] + [b] == [a, b];
  }

  lemma SpelledIsRead(token: string, r: PortRange)
    requires SpellsRange(token, r)
    ensures ParseToken(token) == Ok(r)
  {
    hide SpellsPort, ParsePortNumber, Split;
    if r.start == r.end && SpellsPort(token, r.start) {
      PortHasNoDash(token, r.start);
      NumberIsExact(token, r.start);
    } else {
      var k :| 0 <= k < |token| && (token[k] == '-' || token[k] == ':')
               && SpellsPort(token[..k], r.start) && SpellsPort(token[k + 1..], r.end);
      PortHasNoDash(token[..k], r.start);
      PortHasNoDash(token[k + 1..], r.end);
      NumberIsExact(token[..k], r.start);
      NumberIsExact(token[k + 1..], r.end);
      CutToken(token, k);
      assert token == token[..k] + [token[k]] + token[k + 1..];
    }
  }

  lemma TwoParts(token: string, sep: char, parts: seq<string>)
    requires Split(token, sep) == parts && |parts| == 2
    ensures |parts[0]| < |token| && token[|parts[0]|] == sep
    ensures token[..|parts[0]|] == parts[0] && token[|parts[0]| + 1..] == parts[1]
  {
    JoinSplit(token, sep);
    assert parts[1..] == [parts[1]];
    assert token == parts[0] + [sep] + parts[1];
  }

  /** A token is read as a range exactly when it spells that range. */
  lemma TokenIsExact(token: string, r: PortRange)
    ensures ParseToken(token) == Ok(r) <==> SpellsRange(token, r)
  {
    hide SpellsPort, ParsePortNumber, Split, SpellsRange;
    if SpellsRange(token, r) {
      SpelledIsRead(token, r);
    } else if ParseToken(token) == Ok(r) {
      ReadIsSpelled(token, r);
    }
  }

  lemma ReadIsSpelled(token: string, r: PortRange)
    requires ParseToken(token) == Ok(r)
    ensures SpellsRange(token, r)
  {
    hide SpellsPort, ParsePortNumber, Split;
    if '-' in token || ':' in token {
      var sep := if '-' in token then '-' else ':';
      var parts := Split(token, sep);
      TwoParts(token, sep, parts);
      NumberIsExact(parts[0], r.start);
      NumberIsExact(parts[1], r.end);
    } else {
      NumberIsExact(token, r.start);
    }
  }

  lemma {:induction false} TokensAreExact(tokens: seq<string>, ranges: seq<PortRange>)
    ensures ParseTokens(tokens) == Ok(ranges) <==>
            |ranges| == |tokens| && forall i :: 0 <= i < |tokens| ==> SpellsRange(tokens[i], ranges[i])
  {
    hide SpellsRange, ParseToken;
    if tokens != [] && ranges != [] {
      var n, m := |tokens| - 1, |ranges| - 1;
      TokensAreExact(tokens[..n], ranges[..m]);
      TokenIsExact(tokens[n], ranges[m]);
      InitLast(ranges);
    }
  }

  /** The text of a panel field with the blanks and the whitespace around it gone. */
  function Cleaned(raw: string): string {
    Without(Trim(raw), ' ')
  }

  /** A field is accepted exactly when it is not empty and each of its tokens spells a range; those are the ranges. */
  lemma NamedPortsIsExact(raw: string, ranges: seq<PortRange>)
    ensures NamedPorts(raw) == Ok(ranges) <==>
            var tokens := Split(Cleaned(raw), ',');
            && Cleaned(raw) != "" && |ranges| == |tokens|
            && forall i :: 0 <= i < |tokens| ==> SpellsRange(tokens[i], ranges[i])
  {
    hide SpellsRange, ParseTokens, Split, Without, Trim;
    TokensAreExact(Split(Cleaned(raw), ','), ranges);
  }

  // ----- Cleaning -----

  predicate NoSpace(text: string) {
    forall i :: 0 <= i < |text| ==> !IsWhitespace(text[i])
  }

  lemma {:induction false} StrewnIsTextOrBlank(text: string, body: string)
    requires NoSpace(text) && Strewn(text, body, ' ')
    ensures forall i :: 0 <= i < |body| ==> IsWhitespace(body[i]) ==> body[i] == ' '
  {
    if body != "" {
      if body[0] == ' ' && Strewn(text, body[1..], ' ') {
        StrewnIsTextOrBlank(text, body[1..]);
      } else {
        StrewnIsTextOrBlank(text[1..], body[1..]);
      }
    }
  }

  lemma OnlyBlanks(front: string, middle: string, back: string)
    requires AllWhitespace(front) && AllWhitespace(back)
    requires var body := front + middle + back;
             forall i :: 0 <= i < |body| ==> IsWhitespace(body[i]) ==> body[i] == ' '
    ensures Without(front, ' ') == "" && Without(back, ' ') == ""
  {
    hide IsWhitespace, Without;
    var body := front + middle + back;
    forall i | 0 <= i < |front| ensures front[i] == ' ' {
      assert body[i] == front[i];
    }
    forall i | 0 <= i < |back| ensures back[i] == ' ' {
      assert body[|front| + |middle| + i] == back[i];
    }
    WithoutAll(front, ' ');
    WithoutAll(back, ' ');
  }

  /** Blanks strewn in and whitespace around a text are ignored. */
  lemma CleanedIgnoresSpace(text: string, front: string, body: string, back: string)
    requires NoSpace(text) && Strewn(text, body, ' ') && AllWhitespace(front) && AllWhitespace(back)
    ensures Cleaned(front + body + back) == text
  {
    hide Trim, Without, Strewn, IsWhitespace, AllWhitespace;
    NoBlankIn(text);
    StrewnIsTextOrBlank(text, body);
    TrimAround(front, body, back);
    WithoutUndoesStrewing(text, body, ' ');
    var before, after := TrimTakesEnds(body);
    OnlyBlanks(before, Trim(body), after);
    WithoutConcat(before + Trim(body), after, ' ');
    WithoutConcat(before, Trim(body), ' ');
    AddNothing(Without(Trim(body), ' '));
  }

  lemma NoBlankIn(text: string)
    requires NoSpace(text)
    ensures ' ' !in text
  {
    assert IsWhitespace(' ');
  }

  /** A field of nothing but whitespace names no port. */
  lemma BlankIsRefused(raw: string)
    requires AllWhitespace(raw)
    ensures NamedPorts(raw) == Err(EmptyPort)
  {
    TrimmedAway(raw);
  }

  // ----- Texts people write -----

  /** A port or a range as it is written, with a dash or a colon. */
  datatype Item = One(port: Port) | From(start: Port, end: Port, dash: bool) {
    predicate Valid() {
      if One? then port > 0 else 0 < start <= end
    }

    function Text(): string {
      if One? then Decimal(port) else Decimal(start) + (if dash then "-" else ":") + Decimal(end)
    }

    function Range(): PortRange {
      if One? then PortRange(port, port) else PortRange(start, end)
    }
  }

  function Texts(items: seq<Item>): (r: seq<string>)
    ensures |r| == |items| && forall i :: 0 <= i < |items| ==> r[i] == items[i].Text()
  {
    seq(|items|, i requires 0 <= i < |items| => items[i].Text())
  }

  function Ranges(items: seq<Item>): (r: seq<PortRange>)
    ensures |r| == |items| && forall i :: 0 <= i < |items| ==> r[i] == items[i].Range()
  {
    seq(|items|, i requires 0 <= i < |items| => items[i].Range())
  }

  predicate AllValid(items: seq<Item>) {
    forall item :: item in items ==> item.Valid()
  }

  predicate PortChars(text: string) {
    forall i :: 0 <= i < |text| ==> IsDigit(text[i]) || text[i] == '-' || text[i] == ':'
  }

  lemma PortCharsAreBare(text: string)
    requires PortChars(text)
    ensures ',' !in text && NoSpace(text)
  {
  }

  lemma DecimalSpells(n: Port)
    requires n > 0
    ensures SpellsPort(Decimal(n), n) && PortChars(Decimal(n)) && Decimal(n) != ""
  {
    DecimalValue(n);
    DecimalHasNo(n, '+');
  }

  lemma ItemSpells(item: Item)
    requires item.Valid()
    ensures SpellsRange(item.Text(), item.Range()) && PortChars(item.Text()) && item.Text() != ""
  {
    hide SpellsPort, Decimal;
    if item.One? {
      DecimalSpells(item.port);
    } else {
      DecimalSpells(item.start);
      DecimalSpells(item.end);
      var text, k := item.Text(), |Decimal(item.start)|;
      assert text[..k] == Decimal(item.start) && text[k + 1..] == Decimal(item.end);
      assert text[k] == (if item.dash then '-' else ':');
    }
  }

  lemma {:induction false} JoinNoSpace(words: seq<string>)
    requires forall i :: 0 <= i < |words| ==> NoSpace(words[i])
    ensures NoSpace(Join(words, ','))
  {
    if |words| > 1 {
      JoinNoSpace(words[1..]);
    }
  }

  /**
   * Ports and ranges, written with dashes or colons and joined by commas, with any blanks strewn in and any
   * whitespace around, name exactly those ports and ranges, in order.
   */
  lemma ItemsAreRead(items: seq<Item>, front: string, body: string, back: string)
    requires items != [] && AllValid(items)
    requires Strewn(Join(Texts(items), ','), body, ' ') && AllWhitespace(front) && AllWhitespace(back)
    ensures NamedPorts(front + body + back) == Ok(Ranges(items))
  {
    hide Item.Text, Item.Range, Item.Valid, SpellsRange, PortChars, Strewn, Cleaned, NoSpace;
    var texts := Texts(items);
    forall i | 0 <= i < |items|
      ensures SpellsRange(texts[i], Ranges(items)[i]) && ',' !in texts[i] && NoSpace(texts[i]) && texts[i] != ""
    {
      assert items[i] in items;
      ItemSpells(items[i]);
      PortCharsAreBare(texts[i]);
    }
    JoinNoSpace(texts);
    CleanedIgnoresSpace(Join(texts, ','), front, body, back);
    SplitJoin(texts, ',');
    NamedPortsIsExact(front + body + back, Ranges(items));
  }

  // ----- Texts that are refused -----

  /** The first bad token of a text, by what is wrong with it. */
  datatype Flaw =
    | Nothing
    | OutOfRange(n: nat)
    | Overlong(n: nat)
    | StartOutOfRange(n: nat, b: nat, dash: bool)
    | EndOutOfRange(start: Port, n: nat, dash: bool)
    | Reversed(start: Port, end: Port, dash: bool)
    | ThreeParts(a: nat, b: nat, c: nat, dash: bool)
    | NoStart(b: nat, dash: bool)
    | NoEnd(start: Port, dash: bool)
    | Letters(word: string)
  {
    predicate Valid() {
      match this
      case Nothing => true
      case OutOfRange(n) => n == 0 || 65535 < n <= 4294967295
      case Overlong(n) => n > 4294967295
      case StartOutOfRange(n, _, _) => n == 0 || 65535 < n <= 4294967295
      case EndOutOfRange(a, n, _) => a > 0 && (n == 0 || 65535 < n <= 4294967295)
      case Reversed(a, b, _) => a > b > 0
      case ThreeParts(_, _, _, _) => true
      case NoStart(_, _) => true
      case NoEnd(a, _) => a > 0
      case Letters(word) =>
        && word != "" && word[0] != '+' && NoSpace(word) && '-' !in word && ':' !in word && ',' !in word
        && exists i :: 0 <= i < |word| && !IsDigit(word[i])
    }

    function Text(): string {
      match this
      case Nothing => ""
      case OutOfRange(n) => Decimal(n)
      case Overlong(n) => Decimal(n)
      case StartOutOfRange(n, b, dash) => Decimal(n) + Sign(dash) + Decimal(b)
      case EndOutOfRange(a, n, dash) => Decimal(a) + Sign(dash) + Decimal(n)
      case Reversed(a, b, dash) => Decimal(a) + Sign(dash) + Decimal(b)
      case ThreeParts(a, b, c, dash) => Decimal(a) + Sign(dash) + (Decimal(b) + Sign(dash) + Decimal(c))
      case NoStart(b, dash) => "" + Sign(dash) + Decimal(b)
      case NoEnd(a, dash) => Decimal(a) + Sign(dash) + ""
      case Letters(word) => word
    }

    function Error(): PortError {
      match this
      case Nothing => EmptyToken
      case OutOfRange(_) => PortOutOfRange
      case Overlong(_) => InvalidPort
      case StartOutOfRange(_, _, _) => PortOutOfRange
      case EndOutOfRange(_, _, _) => PortOutOfRange
      case Reversed(_, _, _) => ReversedRange
      case ThreeParts(_, _, _, _) => InvalidRange
      case NoStart(_, _) => EmptyPort
      case NoEnd(_, _) => EmptyPort
      case Letters(_) => InvalidPort
    }
  }

  function Sign(dash: bool): string {
    if dash then "-" else ":"
  }

  lemma NumberRefused(n: nat)
    ensures n == 0 || 65535 < n <= 4294967295 ==> ParsePortNumber(Decimal(n)) == Err(PortOutOfRange)
    ensures n > 4294967295 ==> ParsePortNumber(Decimal(n)) == Err(InvalidPort)
  {
    DecimalValue(n);
    DecimalHasNo(n, '+');
  }

  predicate Digits(text: string) {
    forall i :: 0 <= i < |text| ==> IsDigit(text[i])
  }

  /** A token of two runs of digits is split at its sign. */
  lemma TokenOfTwo(a: string, b: string, dash: bool)
    requires Digits(a) && Digits(b)
    ensures var token := a + Sign(dash) + b;
            && PortChars(token) && token != "" && ('-' in token || ':' in token)
            && Split(token, if '-' in token then '-' else ':') == [a, b]
  {
    var token, sep := a + Sign(dash) + b, if dash then '-' else ':';
    assert token[|a|] == sep && token[..|a|] == a && token[|a| + 1..] == b;
    assert '-' in token <==> dash;
    CutToken(token, |a|);
    hide Split;
  }

  lemma TokenOfThree(a: string, b: string, c: string, dash: bool)
    requires Digits(a) && Digits(b) && Digits(c)
    ensures var token := a + Sign(dash) + (b + Sign(dash) + c);
            && PortChars(token) && token != "" && ('-' in token || ':' in token)
            && |Split(token, if '-' in token then '-' else ':')| == 3
  {
    TokenOfTwo(b, c, dash);
    var rest, sep := b + Sign(dash) + c, if dash then '-' else ':';
    var token := a + [sep] + rest;
    assert token == a + Sign(dash) + rest && token[|a|] == sep;
    assert '-' in rest <==> dash by {
      assert rest[|b|] == sep;
    }
    assert '-' in token <==> dash;
    SplitAt(a, rest, sep);
  }

  lemma TwoNumbers(a: nat, b: nat, dash: bool)
    ensures var token := Decimal(a) + Sign(dash) + Decimal(b);
            && PortChars(token) && token != ""
            && ParseToken(token) ==
               match ParsePortNumber(Decimal(a))
               case Err(e) => Err(e)
               case Ok(start) =>
                 match ParsePortNumber(Decimal(b))
                 case Err(e) => Err(e)
                 case Ok(end) => if start > end then Err(ReversedRange) else Ok(PortRange(start, end))
  {
    hide ParsePortNumber, Split, Decimal;
    TokenOfTwo(Decimal(a), Decimal(b), dash);
  }

  lemma FlawIsRefused(flaw: Flaw)
    requires flaw.Valid()
    ensures ParseToken(flaw.Text()) == Err(flaw.Error())
    ensures ',' !in flaw.Text() && NoSpace(flaw.Text())
  {
    hide ParsePortNumber, Split, Decimal, PortChars, Sign, IsWhitespace, NoSpace, ParsePortRange;
    match flaw
    case Nothing => EmptyIsBare();
    case OutOfRange(n) => OneRefused(n);
    case Overlong(n) => OneRefused(n);
    case StartOutOfRange(n, b, dash) =>
      TwoNumbers(n, b, dash);
      NumberRefused(n);
      PortCharsAreBare(flaw.Text());
    case EndOutOfRange(a, n, dash) =>
      TwoNumbers(a, n, dash);
      ReadNumber(a);
      NumberRefused(n);
      PortCharsAreBare(flaw.Text());
    case Reversed(a, b, dash) =>
      TwoNumbers(a, b, dash);
      ReadNumber(a);
      ReadNumber(b);
      PortCharsAreBare(flaw.Text());
    case ThreeParts(a, b, c, dash) => ThreeRefused(a, b, c, dash);
    case NoStart(b, dash) => OpenRefused("", Decimal(b), dash);
    case NoEnd(a, dash) =>
      ReadNumber(a);
      OpenRefused(Decimal(a), "", dash);
    case Letters(word) => LettersRefused(word);
  }

  lemma EmptyIsBare()
    ensures ',' !in "" && NoSpace("") && ParseToken("") == Err(EmptyToken)
  {
  }

  lemma OneRefused(n: nat)
    ensures n == 0 || 65535 < n <= 4294967295 ==> ParseToken(Decimal(n)) == Err(PortOutOfRange)
    ensures n > 4294967295 ==> ParseToken(Decimal(n)) == Err(InvalidPort)
    ensures ',' !in Decimal(n) && NoSpace(Decimal(n))
  {
    DecimalHasNo(n, '-');
    DecimalHasNo(n, ':');
    NumberRefused(n);
    hide ParsePortNumber, Decimal;
    assert PortChars(Decimal(n));
    PortCharsAreBare(Decimal(n));
  }

  lemma ThreeRefused(a: nat, b: nat, c: nat, dash: bool)
    ensures var token := Decimal(a) + Sign(dash) + (Decimal(b) + Sign(dash) + Decimal(c));
            ParseToken(token) == Err(InvalidRange) && ',' !in token && NoSpace(token)
  {
    hide ParsePortNumber, Split, Decimal;
    TokenOfThree(Decimal(a), Decimal(b), Decimal(c), dash);
    PortCharsAreBare(Decimal(a) + Sign(dash) + (Decimal(b) + Sign(dash) + Decimal(c)));
  }

  lemma OpenRefused(a: string, b: string, dash: bool)
    requires Digits(a) && Digits(b)
    requires a == "" || (ParsePortNumber(a).Ok? && b == "")
    ensures var token := a + Sign(dash) + b;
            ParseToken(token) == Err(EmptyPort) && ',' !in token && NoSpace(token)
  {
    hide Split, DigitsValue;
    TokenOfTwo(a, b, dash);
    PortCharsAreBare(a + Sign(dash) + b);
  }

  lemma LettersRefused(word: string)
    requires Letters(word).Valid()
    ensures ParseToken(word) == Err(InvalidPort)
  {
  }

  /** The text of good items, a bad token and whatever follows. */
  function FlawedText(items: seq<Item>, flaw: Flaw, rest: seq<string>): string {
    Join(Texts(items) + ([flaw.Text()] + rest), ',')
  }

  lemma {:induction false} FirstBadDecides(tokens: seq<string>, k: nat)
    requires k < |tokens| && ParseToken(tokens[k]).Err? && ParseTokens(tokens[..k]).Ok?
    ensures ParseTokens(tokens) == Err(ParseToken(tokens[k]).error)
  {
    hide ParseToken;
    TokensSnoc(tokens, k, ParseTokens(tokens[..k]).value);
    PrefixErrorIsFinal(tokens, k + 1);
  }

  lemma {:induction false} ItemsParse(items: seq<Item>)
    requires AllValid(items)
    ensures ParseTokens(Texts(items)) == Ok(Ranges(items))
  {
    hide Item.Text, Item.Range, Item.Valid, SpellsRange;
    forall i | 0 <= i < |items| ensures SpellsRange(Texts(items)[i], Ranges(items)[i]) {
      assert items[i] in items;
      ItemSpells(items[i]);
    }
    TokensAreExact(Texts(items), Ranges(items));
  }

  /** A text is refused for its first bad token, whatever good items stand before it and whatever comes behind. */
  lemma FlawsAreRefused(
      items: seq<Item>, flaw: Flaw, rest: seq<string>, front: string, body: string, back: string)
    requires AllValid(items) && flaw.Valid() && FlawedText(items, flaw, rest) != ""
    requires forall i :: 0 <= i < |rest| ==> ',' !in rest[i] && NoSpace(rest[i])
    requires Strewn(FlawedText(items, flaw, rest), body, ' ') && AllWhitespace(front) && AllWhitespace(back)
    ensures NamedPorts(front + body + back) == Err(flaw.Error())
  {
    hide Item.Text, Item.Range, Item.Valid, Flaw.Text, Flaw.Error, Flaw.Valid, NoSpace, Strewn, ParseToken;
    var texts := Texts(items);
    var tokens := texts + ([flaw.Text()] + rest);
    FlawIsRefused(flaw);
    forall i | 0 <= i < |tokens| ensures ',' !in tokens[i] && NoSpace(tokens[i]) {
      if i < |items| {
        assert items[i] in items;
        ItemSpells(items[i]);
        PortCharsAreBare(texts[i]);
      } else if i > |items| {
        assert tokens[i] == rest[i - |items| - 1];
      }
    }
    JoinNoSpace(tokens);
    CleanedIgnoresSpace(Join(tokens, ','), front, body, back);
    SplitJoin(tokens, ',');
    ItemsParse(items);
    assert tokens[..|items|] == texts && tokens[|items|] == flaw.Text();
    FirstBadDecides(tokens, |items|);
  }

  // ----- The order in which ports come out -----

  function Run(lo: int, hi: int): (s: seq<int>)
    ensures |s| == if lo < hi then hi - lo else 0
    ensures forall i :: 0 <= i < |s| ==> s[i] == lo + i
  {
    if lo < hi then seq(hi - lo, i => lo + i) else []
  }

  lemma RunSplits(lo: int, mid: int, hi: int)
    requires lo <= mid <= hi
    ensures Run(lo, hi) == Run(lo, mid) + Run(mid, hi)
  {
  }

  /** The ports of ranges, one after the other. */
  function Ports(r: PortRange): seq<int> {
    Run(r.start, r.end + 1)
  }

  function AllPorts(ranges: seq<PortRange>): seq<int> {
    if ranges == [] then [] else AllPorts(ranges[..|ranges| - 1]) + Ports(ranges[|ranges| - 1])
  }

  /** The ports that are not blocked, in order. */
  function Unblocked(ports: seq<int>, blocked: PortRange): seq<int> {
    if ports == [] then []
    else
      var last := ports[|ports| - 1];
      Unblocked(ports[..|ports| - 1], blocked) + if blocked.start <= last <= blocked.end then [] else [last]
  }

  lemma {:induction false} UnblockedConcat(a: seq<int>, b: seq<int>, blocked: PortRange)
    ensures Unblocked(a + b, blocked) == Unblocked(a, blocked) + Unblocked(b, blocked)
  {
    if b == [] {
      AddNothing(a);
      assert Unblocked(b, blocked) == [];
      AddNothing(Unblocked(a, blocked));
    } else {
      var init, last := b[..|b| - 1], b[|b| - 1];
      UnblockedConcat(a, init, blocked);
      var all := a + b;
      assert all[..|all| - 1] == a + init && all[|all| - 1] == last;
      ConcatTail(Unblocked(a, blocked), Unblocked(init, blocked),
                 if blocked.start <= last <= blocked.end then [] else [last]);
    }
  }

  lemma {:induction false} NothingUnblocked(ports: seq<int>, blocked: PortRange)
    requires forall i :: 0 <= i < |ports| ==> blocked.start <= ports[i] <= blocked.end
    ensures Unblocked(ports, blocked) == []
  {
    if ports != [] {
      NothingUnblocked(ports[..|ports| - 1], blocked);
    }
  }

  lemma {:induction false} AllUnblocked(ports: seq<int>, blocked: PortRange)
    requires forall i :: 0 <= i < |ports| ==> !(blocked.start <= ports[i] <= blocked.end)
    ensures Unblocked(ports, blocked) == ports
  {
    if ports != [] {
      AllUnblocked(ports[..|ports| - 1], blocked);
      InitLast(ports);
    }
  }

  /** A run falls into what lies before a block, inside it and behind it. */
  lemma CutInThree(lo: int, a: int, b: int, hi: int, blocked: PortRange)
    requires lo <= a <= b <= hi && blocked.start <= a && b <= blocked.end + 1
    requires (a > lo ==> a == blocked.start) && (b < hi ==> b == blocked.end + 1)
    ensures Unblocked(Run(lo, hi), blocked) == Run(lo, a) + Run(b, hi)
  {
    hide Unblocked;
    AllUnblocked(Run(lo, a), blocked);
    NothingUnblocked(Run(a, b), blocked);
    AllUnblocked(Run(b, hi), blocked);
    hide Run;
    RunSplits(lo, a, hi);
    RunSplits(a, b, hi);
    UnblockedConcat(Run(lo, a), Run(a, hi), blocked);
    UnblockedConcat(Run(a, b), Run(b, hi), blocked);
    AddNothing(Run(b, hi));
  }

  lemma AllPortsSnoc(ranges: seq<PortRange>, r: PortRange)
    ensures AllPorts(ranges + [r]) == AllPorts(ranges) + Ports(r)
  {
    assert (ranges + [r])[..|ranges|] == ranges;
  }

  lemma {:induction false} AllPortsConcat(a: seq<PortRange>, b: seq<PortRange>)
    ensures AllPorts(a + b) == AllPorts(a) + AllPorts(b)
  {
    hide Ports;
    if b == [] {
      AddNothing(a);
      AddNothing(AllPorts(a));
    } else {
      var init, last := b[..|b| - 1], b[|b| - 1];
      AllPortsConcat(a, init);
      InitLast(b);
      ConcatTail(a, init, [last]);
      AllPortsSnoc(a + init, last);
      ConcatTail(AllPorts(a), AllPorts(init), Ports(last));
    }
  }

  lemma PortsOfOne(r: PortRange)
    ensures AllPorts([]) == [] && AllPorts([r]) == Ports(r)
  {
    hide Ports;
    AllPortsSnoc([], r);
    AddNothing(Ports(r));
    assert [] + [r] == [r];
  }

  lemma PortsOfPieces(x: bool, left: PortRange, y: bool, right: PortRange)
    ensures AllPorts((if x then [left] else []) + (if y then [right] else []))
         == (if x then Ports(left) else []) + (if y then Ports(right) else [])
  {
    hide Ports, AllPorts;
    AllPortsConcat(if x then [left] else [], if y then [right] else []);
    PortsOfOne(left);
    PortsOfOne(right);
  }

  lemma CutAroundShape(range: PortRange, blocked: PortRange, x: bool, left: PortRange, y: bool, right: PortRange)
    requires range.Overlaps(blocked) && x == (range.start < blocked.start) && y == (blocked.end < range.end)
    requires (x ==> left == PortRange(range.start, blocked.start - 1))
    requires (y ==> right == PortRange(blocked.end + 1, range.end))
    ensures CutAround(range, blocked) == (if x then [left] else []) + (if y then [right] else [])
  {
  }

  lemma CutPieces(range: PortRange, blocked: PortRange)
    requires range.Valid() && blocked.Valid() && range.Overlaps(blocked)
    ensures var a := if range.start < blocked.start then blocked.start else range.start;
            var b := if blocked.end < range.end then blocked.end + 1 else range.end + 1;
            AllPorts(CutAround(range, blocked)) == Run(range.start, a) + Run(b, range.end + 1)
  {
    hide AllPorts, Run, CutAround;
    var x, y := range.start < blocked.start, blocked.end < range.end;
    var left := PortRange(range.start, if x then blocked.start - 1 else 0);
    var right := PortRange(if y then blocked.end + 1 else 0, range.end);
    CutAroundShape(range, blocked, x, left, y, right);
    PortsOfPieces(x, left, y, right);
    EmptyRun(range.start);
    EmptyRun(range.end + 1);
  }

  lemma EmptyRun(lo: int)
    ensures Run(lo, lo) == []
  {
  }

  lemma CutAroundFilters(range: PortRange, blocked: PortRange)
    requires range.Valid() && blocked.Valid()
    ensures AllPorts(CutAround(range, blocked)) == Unblocked(Ports(range), blocked)
  {
    hide AllPorts, Unblocked;
    if range.Overlaps(blocked) {
      hide Run;
      CutPieces(range, blocked);
      var a := if range.start < blocked.start then blocked.start else range.start;
      var b := if blocked.end < range.end then blocked.end + 1 else range.end + 1;
      CutInThree(range.start, a, b, range.end + 1, blocked);
    } else {
      PortsOfOne(range);
      AllUnblocked(Ports(range), blocked);
    }
  }

  /** Subtraction takes the blocked ports out of the list of ports and keeps every other in its place. */
  lemma {:induction false} SubtractFilters(ranges: seq<PortRange>, blocked: PortRange)
    requires Proper(ranges) && blocked.Valid()
    ensures AllPorts(Subtract(ranges, blocked)) == Unblocked(AllPorts(ranges), blocked)
  {
    hide Ports, CutAround, Unblocked, AllPorts;
    if ranges == [] {
      NothingBlocked(blocked);
    } else {
      var init, last := ranges[..|ranges| - 1], ranges[|ranges| - 1];
      InitLast(ranges);
      ProperInit(init, last);
      SubtractFilters(init, blocked);
      CutAroundFilters(last, blocked);
      AllPortsConcat(Subtract(init, blocked), CutAround(last, blocked));
      AllPortsSnoc(init, last);
      UnblockedConcat(AllPorts(init), Ports(last), blocked);
    }
  }

  lemma NothingBlocked(blocked: PortRange)
    ensures AllPorts([]) == [] && Unblocked([], blocked) == []
  {
  }

  /** Leaving a port out while compiling is subtracting it from what the text names; port 0 leaves nothing out. */
  lemma {:induction false} AccumulateSubtracts(spans: seq<PortRange>, excluded: Port)
    requires Proper(spans)
    ensures Accumulate(spans, excluded).ranges == Subtract(spans, PortRange(excluded, excluded))
  {
    if spans != [] {
      var init, last := spans[..|spans| - 1], spans[|spans| - 1];
      InitLast(spans);
      ProperInit(init, last);
      AccumulateSubtracts(init, excluded);
      hide Accumulate, Subtract;
      AddSubtracts(Accumulate(init, excluded), last, excluded);
      AccumulateSnoc(init, last, excluded);
      SubtractSnoc(init, last, PortRange(excluded, excluded));
    }
  }

  lemma SubtractSnoc(ranges: seq<PortRange>, r: PortRange, blocked: PortRange)
    ensures Subtract(ranges + [r], blocked) == Subtract(ranges, blocked) + CutAround(r, blocked)
  {
    hide CutAround;
    assert (ranges + [r])[..|ranges|] == ranges;
  }

  lemma AddSubtracts(b: Buffers, span: PortRange, excluded: Port)
    requires span.Valid() && span.start > 0
    ensures b.Add(span, excluded).ranges == b.ranges + CutAround(span, PortRange(excluded, excluded))
  {
    hide Flush, RangeMatcher;
  }

  /** So the ranges of a compiled text are the named ones with the excluded port cut out, in order. */
  lemma CompileSubtracts(raw: string, excluded: Port)
    requires CompilePorts(raw, excluded).Ok?
    ensures CompilePorts(raw, excluded).value.1 == Subtract(NamedPorts(raw).value, PortRange(excluded, excluded))
  {
    AccumulateSubtracts(NamedPorts(raw).value, excluded);
    hide Accumulate, Flush, Subtract, ParseTokens;
  }

  // ----- Full matchers -----

  /** Single ports go into as few matchers as fifteen to a matcher allow. */
  lemma {:induction false} FlushIsFull(singles: seq<Port>)
    ensures |Flush(singles)| == (|singles| + 14) / 15
  {
    hide ChunkMatcher;
    if singles != [] {
      var size := if |singles| < MAX_MULTIPORT then |singles| else MAX_MULTIPORT;
      FlushIsFull(singles[size..]);
    }
  }
}
