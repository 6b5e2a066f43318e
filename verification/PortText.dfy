// Port text: the panel's port lists, the ranges they name, and the iptables matchers that carry them.
module PortText {
  import opened Sequences
  import opened Results
  import opened Text

  type Port = x: int | 0 <= x < 0x1_0000

  datatype PortRange = PortRange(start: Port, end: Port) {
    predicate Valid() {
      start <= end
    }

    predicate Has(p: Port) {
      start <= p <= end
    }

    predicate Overlaps(other: PortRange) {
      start <= other.end && other.start <= end
    }
  }

  predicate Proper(ranges: seq<PortRange>) {
    forall r :: r in ranges ==> r.Valid() && r.start > 0
  }

  predicate Covers(ranges: seq<PortRange>, p: Port) {
    exists r :: r in ranges && r.Has(p)
  }

  lemma CoversConcat(a: seq<PortRange>, b: seq<PortRange>, p: Port)
    ensures Covers(a + b, p) <==> Covers(a, p) || Covers(b, p)
  {
    if Covers(a, p) {
      var r :| r in a && r.Has(p);
      assert r in a + b;
    }
    if Covers(b, p) {
      var r :| r in b && r.Has(p);
      assert r in a + b;
    }
  }

  // ----- Reading port text -----

  datatype PortError = EmptyPort | EmptyToken | InvalidRange | InvalidPort | PortOutOfRange | ReversedRange

  const MAX_U32 := 0xFFFF_FFFF

  /** One number. Like the standard integer parser it accepts leading zeros and one leading plus sign. */
  function ParsePortNumber(token: string): (r: Result<Port, PortError>)
    ensures r.Ok? ==> r.value > 0
  {
    if token == "" then Err(EmptyPort)
    else
      var digits := if |token| > 1 && token[0] == '+' then token[1..] else token;
      if !AllDigits(digits) || DigitsValue(digits) > MAX_U32 then Err(InvalidPort)
      else
        var n := DigitsValue(digits);
        if n == 0 || n > 0xFFFF then Err(PortOutOfRange) else Ok(n)
  }

  function ParsePortRange(token: string): (r: Result<PortRange, PortError>)
    ensures r.Ok? ==> r.value.Valid() && r.value.start > 0
  {
    var parts := Split(token, if '-' in token then '-' else ':');
    if |parts| != 2 then Err(InvalidRange)
    else
      var start :- ParsePortNumber(parts[0]);
      var end :- ParsePortNumber(parts[1]);
      if start > end then Err(ReversedRange) else Ok(PortRange(start, end))
  }

  /** A token names one port or one inclusive range. */
  function ParseToken(token: string): (r: Result<PortRange, PortError>)
    ensures r.Ok? ==> r.value.Valid() && r.value.start > 0
  {
    if token == "" then Err(EmptyToken)
    else if '-' in token || ':' in token then ParsePortRange(token)
    else
      var n :- ParsePortNumber(token);
      Ok(PortRange(n, n))
  }

  /** All tokens in order, or the error of the first token that has one. */
  function ParseTokens(tokens: seq<string>): (r: Result<seq<PortRange>, PortError>)
    ensures r.Ok? ==> |r.value| == |tokens| && Proper(r.value)
  {
    if tokens == [] then Ok([])
    else
      var init :- ParseTokens(tokens[..|tokens| - 1]);
      var last :- ParseToken(tokens[|tokens| - 1]);
      Ok(init + [last])
  }

  lemma {:induction false} PrefixErrorIsFinal(tokens: seq<string>, k: nat)
    requires k <= |tokens| && ParseTokens(tokens[..k]).Err?
    ensures ParseTokens(tokens) == ParseTokens(tokens[..k])
  {
    if k == |tokens| {
      assert tokens[..k] == tokens;
    } else {
      var init := tokens[..|tokens| - 1];
      assert init[..k] == tokens[..k];
      PrefixErrorIsFinal(init, k);
    }
  }

  /** The ranges named by a comma-separated port argument. */
  function PortsNamedBy(arg: string): Result<seq<PortRange>, PortError> {
    ParseTokens(Split(arg, ','))
  }

  /** The ranges named by a panel field: surrounding whitespace and all blanks are ignored. */
  function NamedPorts(raw: string): Result<seq<PortRange>, PortError> {
    var cleaned := Without(Trim(raw), ' ');
    if cleaned == "" then Err(EmptyPort) else PortsNamedBy(cleaned)
  }

  // ----- Matchers -----

  datatype Matcher = Matcher(args: seq<string>, singlePort: Option<Port>)

  const MAX_MULTIPORT := 15

  function SinglePortMatcher(port: Port): Matcher {
    Matcher(["--dport", Decimal(port)], Some(port))
  }

  function RangeMatcher(start: Port, end: Port): Matcher {
    Matcher(["--dport", Decimal(start) + ":" + Decimal(end)], None)
  }

  function Decimals(ports: seq<Port>): (texts: seq<string>)
    ensures |texts| == |ports| && forall i :: 0 <= i < |ports| ==> texts[i] == Decimal(ports[i])
  {
    seq(|ports|, i requires 0 <= i < |ports| => Decimal(ports[i]))
  }

  function MultiportMatcher(ports: seq<Port>): Matcher {
    Matcher(["-m", "multiport", "--dports", Join(Decimals(ports), ',')], None)
  }

  function ChunkMatcher(chunk: seq<Port>): Matcher
    requires chunk != []
  {
    if |chunk| == 1 then SinglePortMatcher(chunk[0]) else MultiportMatcher(chunk)
  }

  /** The port argument of a matcher is its last one; both matcher forms carry exactly one. */
  function PortArgument(m: Matcher): string {
    if m.args == [] then "" else m.args[|m.args| - 1]
  }

  predicate IsDportMatcher(m: Matcher) {
    |m.args| == 2 && m.args[0] == "--dport"
  }

  predicate IsMultiportMatcher(m: Matcher) {
    |m.args| == 4 && m.args[..3] == ["-m", "multiport", "--dports"]
  }

  /** Digits and the signs iptables itself reads: a colon for a range, commas only for several ports. */
  predicate KernelText(m: Matcher) {
    forall i :: 0 <= i < |PortArgument(m)| ==>
      var c := PortArgument(m)[i]; IsDigit(c) || (c == ':' && IsDportMatcher(m)) || (c == ',' && IsMultiportMatcher(m))
  }

  /** A matcher that reads back: one range for --dport, 2 to 15 single ports for multiport. */
  predicate Readable(m: Matcher) {
    && PortsNamedBy(PortArgument(m)).Ok?
    && KernelText(m)
    && (IsDportMatcher(m) || IsMultiportMatcher(m))
    && (m.singlePort.Some? ==> Spans(m) == [PortRange(m.singlePort.value, m.singlePort.value)])
    && (IsDportMatcher(m) ==> |Spans(m)| == 1)
    && (IsMultiportMatcher(m) ==> 2 <= |Spans(m)| <= MAX_MULTIPORT && forall s :: s in Spans(m) ==> s.start == s.end)
  }

  /** The ranges found by parsing the matcher's own port argument. */
  function Spans(m: Matcher): seq<PortRange> {
    match PortsNamedBy(PortArgument(m))
    case Ok(spans) => spans
    case Err(_) => []
  }

  predicate AllReadable(matchers: seq<Matcher>) {
    forall m :: m in matchers ==> Readable(m)
  }

  function AllSpans(matchers: seq<Matcher>): seq<PortRange> {
    if matchers == [] then [] else AllSpans(matchers[..|matchers| - 1]) + Spans(matchers[|matchers| - 1])
  }

  lemma AllSpansAppend(matchers: seq<Matcher>, m: Matcher)
    ensures AllSpans(matchers + [m]) == AllSpans(matchers) + Spans(m)
  {
    assert (matchers + [m])[..|matchers|] == matchers;
  }

  lemma {:induction false} AllSpansConcat(a: seq<Matcher>, b: seq<Matcher>)
    ensures AllSpans(a + b) == AllSpans(a) + AllSpans(b)
  {
    hide Spans;
    if b == [] {
      assert a + b == a;
    } else {
      var init, last := b[..|b| - 1], b[|b| - 1];
      AllSpansConcat(a, init);
      var ab := a + b;
      assert ab[..|ab| - 1] == a + init && ab[|ab| - 1] == last;
      assert (AllSpans(a) + AllSpans(init)) + Spans(last) == AllSpans(a) + (AllSpans(init) + Spans(last));
    }
  }

  lemma {:induction false} AllSpansCons(m: Matcher, rest: seq<Matcher>)
    ensures AllSpans([m] + rest) == Spans(m) + AllSpans(rest)
  {
    hide Spans;
    AllSpansConcat([m], rest);
    var one := [m];
    assert one[..|one| - 1] == [];
    assert AllSpans(one) == [] + Spans(m);
  }

  // ----- A matcher's text reads back as its ports -----

  function AsSpans(ports: seq<Port>): (r: seq<PortRange>)
    ensures |r| == |ports| && forall i :: 0 <= i < |ports| ==> r[i] == PortRange(ports[i], ports[i])
  {
    seq(|ports|, i requires 0 <= i < |ports| => PortRange(ports[i], ports[i]))
  }

  lemma AsSpansConcat(a: seq<Port>, b: seq<Port>)
    ensures AsSpans(a + b) == AsSpans(a) + AsSpans(b)
  {
  }

  lemma DecimalHasNo(n: nat, c: char)
    requires !IsDigit(c)
    ensures c !in Decimal(n)
  {
  }

  lemma ReadNumber(n: Port)
    requires n > 0
    ensures ParsePortNumber(Decimal(n)) == Ok(n)
    ensures ParseToken(Decimal(n)) == Ok(PortRange(n, n))
  {
    DecimalValue(n);
    DecimalHasNo(n, '+');
    DecimalHasNo(n, '-');
    DecimalHasNo(n, ':');
  }

  lemma RangeToken(a: string, b: string)
    requires ':' !in a && ':' !in b && '-' !in a && '-' !in b
    ensures var token := a + ":" + b;
            token != "" && ':' in token && '-' !in token && Split(token, ':') == [a, b]
  {
    hide Split;
    var token := a + [':'] + b;
    assert token == a + ":" + b && token[|a|] == ':';
    SplitAt(a, b, ':');
    SplitWhole(b, ':');
    assert [a] + [b] == [a, b];
  }

  lemma ReadRange(start: Port, end: Port)
    requires 0 < start <= end
    ensures ParseToken(Decimal(start) + ":" + Decimal(end)) == Ok(PortRange(start, end))
  {
    hide Decimal, ParsePortNumber, Split;
    DecimalHasNo(start, ':');
    DecimalHasNo(end, ':');
    DecimalHasNo(start, '-');
    DecimalHasNo(end, '-');
    RangeToken(Decimal(start), Decimal(end));
    ReadNumber(start);
    ReadNumber(end);
  }

  lemma {:induction false} ReadDecimals(ports: seq<Port>)
    requires forall i :: 0 <= i < |ports| ==> ports[i] > 0
    ensures ParseTokens(Decimals(ports)) == Ok(AsSpans(ports))
  {
    hide ParseToken, Decimal;
    if ports != [] {
      var n := |ports| - 1;
      ReadDecimals(ports[..n]);
      assert Decimals(ports)[..n] == Decimals(ports[..n]);
      ReadNumber(ports[n]);
      assert AsSpans(ports) == AsSpans(ports[..n]) + [PortRange(ports[n], ports[n])];
    }
  }

  lemma OneToken(token: string)
    requires ',' !in token && ParseToken(token).Ok?
    ensures PortsNamedBy(token) == Ok([ParseToken(token).value])
  {
    SplitWhole(token, ',');
    var tokens := [token];
    assert tokens[..|tokens| - 1] == [];
    assert Split(token, ',') == tokens;
    hide ParseToken;
    var init := ParseTokens(tokens[..|tokens| - 1]);
    assert init == Ok([]);
    assert ParseTokens(tokens) == Ok(init.value + [ParseToken(token).value]);
    assert init.value + [ParseToken(token).value] == [ParseToken(token).value];
  }

  lemma SinglePortReadsBack(port: Port)
    requires port > 0
    ensures Readable(SinglePortMatcher(port)) && Spans(SinglePortMatcher(port)) == [PortRange(port, port)]
  {
    ReadNumber(port);
    DecimalHasNo(port, ',');
    OneToken(Decimal(port));
  }

  lemma RangeReadsBack(start: Port, end: Port)
    requires 0 < start <= end
    ensures Readable(RangeMatcher(start, end)) && Spans(RangeMatcher(start, end)) == [PortRange(start, end)]
  {
    ReadRange(start, end);
    DecimalHasNo(start, ',');
    DecimalHasNo(end, ',');
    OneToken(Decimal(start) + ":" + Decimal(end));
  }

  lemma {:induction false} JoinedDecimals(texts: seq<string>)
    requires forall i :: 0 <= i < |texts| ==> forall j :: 0 <= j < |texts[i]| ==> IsDigit(texts[i][j])
    ensures forall j :: 0 <= j < |Join(texts, ',')| ==> IsDigit(Join(texts, ',')[j]) || Join(texts, ',')[j] == ','
  {
    if |texts| > 1 {
      JoinedDecimals(texts[1..]);
    }
  }

  lemma ChunkText(chunk: seq<Port>)
    requires |chunk| > 1
    ensures KernelText(MultiportMatcher(chunk)) && PortArgument(MultiportMatcher(chunk)) == Join(Decimals(chunk), ',')
  {
    JoinedDecimals(Decimals(chunk));
  }

  lemma MultiportReadsBack(chunk: seq<Port>)
    requires 1 < |chunk| <= MAX_MULTIPORT
    requires forall i :: 0 <= i < |chunk| ==> chunk[i] > 0
    ensures Readable(MultiportMatcher(chunk)) && Spans(MultiportMatcher(chunk)) == AsSpans(chunk)
  {
    hide Join, Split, ParseTokens, KernelText, Decimal;
    var texts := Decimals(chunk);
    forall i | 0 <= i < |texts| ensures ',' !in texts[i] {
      DecimalHasNo(chunk[i], ',');
    }
    SplitJoin(texts, ',');
    ReadDecimals(chunk);
    ChunkText(chunk);
  }

  lemma ChunkReadsBack(chunk: seq<Port>)
    requires 0 < |chunk| <= MAX_MULTIPORT
    requires forall i :: 0 <= i < |chunk| ==> chunk[i] > 0
    ensures Readable(ChunkMatcher(chunk)) && Spans(ChunkMatcher(chunk)) == AsSpans(chunk)
  {
    hide Readable, Spans;
    if |chunk| == 1 {
      SinglePortReadsBack(chunk[0]);
    } else {
      MultiportReadsBack(chunk);
    }
  }

  // ----- Matcher arguments are plain words -----

  /** Plain arguments whose port argument starts with a digit. */
  predicate PlainArgs(m: Matcher) {
    AllPlain(m.args) && PortArgument(m) != "" && IsDigit(PortArgument(m)[0])
  }

  lemma DecimalIsPlain(n: nat)
    ensures IsPlain(Decimal(n)) && IsDigit(Decimal(n)[0])
  {
    assert forall c :: IsDigit(c) ==> IsPlainChar(c);
  }

  lemma RangeArgsPlain(start: Port, end: Port)
    ensures PlainArgs(RangeMatcher(start, end))
  {
    DecimalIsPlain(start);
    DecimalIsPlain(end);
    var arg := Decimal(start) + ":" + Decimal(end);
    assert arg[0] == Decimal(start)[0];
  }

  lemma ChunkArgsPlain(chunk: seq<Port>)
    requires chunk != []
    ensures PlainArgs(ChunkMatcher(chunk))
  {
    if |chunk| == 1 {
      DecimalIsPlain(chunk[0]);
    } else {
      var words := Decimals(chunk);
      forall i | 0 <= i < |chunk| ensures IsPlain(words[i]) {
        DecimalIsPlain(chunk[i]);
      }
      JoinIsPlain(words, ',');
      DecimalIsPlain(chunk[0]);
      assert Join(words, ',')[0] == words[0][0];
    }
  }

  lemma {:induction false} FlushArgsPlain(singles: seq<Port>)
    ensures forall m :: m in Flush(singles) ==> PlainArgs(m)
  {
    if singles != [] {
      var size := if |singles| < MAX_MULTIPORT then |singles| else MAX_MULTIPORT;
      ChunkArgsPlain(singles[..size]);
      FlushArgsPlain(singles[size..]);
      hide PlainArgs, ChunkMatcher;
    }
  }

  // ----- Flushing buffered single ports -----

  function Flush(singles: seq<Port>): seq<Matcher> {
    if singles == [] then []
    else
      var size := if |singles| < MAX_MULTIPORT then |singles| else MAX_MULTIPORT;
      [ChunkMatcher(singles[..size])] + Flush(singles[size..])
  }

  lemma FlushSplits(singles: seq<Port>)
    requires singles != []
    ensures var size := if |singles| < MAX_MULTIPORT then |singles| else MAX_MULTIPORT;
            Flush(singles) == [ChunkMatcher(singles[..size])] + Flush(singles[size..])
  {
    hide ChunkMatcher;
  }

  lemma ReadableCons(m: Matcher, rest: seq<Matcher>)
    requires Readable(m) && AllReadable(rest)
    ensures AllReadable([m] + rest)
  {
    hide Readable;
  }

  /** Chunking loses, repeats and reorders nothing. */
  lemma {:induction false} FlushKeepsEveryPort(singles: seq<Port>)
    requires forall i :: 0 <= i < |singles| ==> singles[i] > 0
    ensures AllReadable(Flush(singles)) && AllSpans(Flush(singles)) == AsSpans(singles)
  {
    if singles != [] {
      hide Spans, Readable, AllReadable, AllSpans, AsSpans, ChunkMatcher, Flush;
      var size := if |singles| < MAX_MULTIPORT then |singles| else MAX_MULTIPORT;
      var chunk, rest := singles[..size], singles[size..];
      FlushSplits(singles);
      TakeDrop(singles, size);
      ChunkReadsBack(chunk);
      FlushKeepsEveryPort(rest);
      ReadableCons(ChunkMatcher(chunk), Flush(rest));
      AllSpansCons(ChunkMatcher(chunk), Flush(rest));
      AsSpansConcat(chunk, rest);
    }
  }

  method FlushSingles(singles: seq<Port>, matchers: seq<Matcher>) returns (out: seq<Matcher>)
    ensures out == matchers + Flush(singles)
  {
    var rest := singles;
    out := matchers;
    while rest != []
      invariant out + Flush(rest) == matchers + Flush(singles)
      decreases |rest|
    {
      var size := if |rest| < MAX_MULTIPORT then |rest| else MAX_MULTIPORT;
      out := out + [ChunkMatcher(rest[..size])];
      rest := rest[size..];
    }
  }

  // ----- Compiling port text to matchers and ranges -----

  datatype Buffers = Buffers(singles: seq<Port>, matchers: seq<Matcher>, ranges: seq<PortRange>) {
    function Flushed(): Buffers {
      Buffers([], matchers + Flush(singles), ranges)
    }

    function AppendRange(start: Port, end: Port): Buffers {
      this.(matchers := matchers + [RangeMatcher(start, end)], ranges := ranges + [PortRange(start, end)])
    }

    function AppendSingle(port: Port): Buffers {
      this.(singles := singles + [port], ranges := ranges + [PortRange(port, port)])
    }

    function AddSingle(port: Port, excluded: Port): Buffers {
      if port == excluded then this else AppendSingle(port)
    }

    /** A range is cut in two around the excluded port; port 0 excludes nothing. */
    function AddRange(start: Port, end: Port, excluded: Port): Buffers {
      if excluded > 0 && start <= excluded <= end then
        var left := if start < excluded then AppendRange(start, excluded - 1) else this;
        if excluded < end then left.AppendRange(excluded + 1, end) else left
      else AppendRange(start, end)
    }

    function Add(span: PortRange, excluded: Port): Buffers {
      if span.start == span.end then AddSingle(span.start, excluded)
      else Flushed().AddRange(span.start, span.end, excluded)
    }

    /** Packing takes every range whole: single ports are buffered, wider ranges get their own matcher. */
    function Take(range: PortRange): Buffers {
      if range.start == range.end then AppendSingle(range.start)
      else Flushed().AppendRange(range.start, range.end)
    }

    /** The matchers so far and the buffered singles together name the ranges so far, in order. */
    predicate InStep() {
      && (forall i :: 0 <= i < |singles| ==> singles[i] > 0)
      && AllReadable(matchers)
      && Proper(ranges)
      && AllSpans(matchers) + AsSpans(singles) == ranges
    }
  }

  function Accumulate(spans: seq<PortRange>, excluded: Port): Buffers {
    if spans == [] then Buffers([], [], [])
    else Accumulate(spans[..|spans| - 1], excluded).Add(spans[|spans| - 1], excluded)
  }

  function CompilePorts(raw: string, excluded: Port): Result<(seq<Matcher>, seq<PortRange>), PortError> {
    var spans :- NamedPorts(raw);
    var b := Accumulate(spans, excluded).Flushed();
    Ok((b.matchers, b.ranges))
  }

  lemma TokensSnoc(tokens: seq<string>, i: nat, spans: seq<PortRange>)
    requires i < |tokens| && ParseTokens(tokens[..i]) == Ok(spans)
    ensures ParseTokens(tokens[..i + 1]) ==
            match ParseToken(tokens[i]) case Ok(span) => Ok(spans + [span]) case Err(error) => Err(error)
  {
    hide ParseToken;
    assert tokens[..i + 1][..i] == tokens[..i];
  }

  lemma AccumulateSnoc(spans: seq<PortRange>, span: PortRange, excluded: Port)
    ensures Accumulate(spans + [span], excluded) == Accumulate(spans, excluded).Add(span, excluded)
  {
    hide Buffers.Add;
    assert (spans + [span])[..|spans|] == spans;
  }

  method ParseMatchersAndRanges(raw: string, excluded: Port)
    returns (r: Result<(seq<Matcher>, seq<PortRange>), PortError>)
    ensures r == CompilePorts(raw, excluded)
  {
    hide ParseToken, ParseTokens, Flush, Trim, Accumulate, Buffers.AddSingle, Buffers.AddRange, Split, Without;
    var cleaned := Without(Trim(raw), ' ');
    if cleaned == "" {
      return Err(EmptyPort);
    }
    var tokens := Split(cleaned, ',');
    var b := Buffers([], [], []);
    ghost var spans: seq<PortRange> := [];
    NothingAccumulated(tokens, excluded);
    for i := 0 to |tokens|
      invariant ParseTokens(tokens[..i]) == Ok(spans)
      invariant b == Accumulate(spans, excluded)
    {
      var parsed := ParseToken(tokens[i]);
      TokensSnoc(tokens, i, spans);
      if parsed.Err? {
        PrefixErrorIsFinal(tokens, i + 1);
        return Err(parsed.error);
      }
      var span := parsed.value;
      AccumulateSnoc(spans, span, excluded);
      spans := spans + [span];
      if span.start == span.end {
        b := b.AddSingle(span.start, excluded);
      } else {
        var flushed := FlushSingles(b.singles, b.matchers);
        b := Buffers([], flushed, b.ranges).AddRange(span.start, span.end, excluded);
      }
    }
    assert tokens[..|tokens|] == tokens;
    var matchers := FlushSingles(b.singles, b.matchers);
    r := Ok((matchers, b.ranges));
  }

  lemma NothingAccumulated(tokens: seq<string>, excluded: Port)
    ensures ParseTokens(tokens[..0]) == Ok([]) && Accumulate([], excluded) == Buffers([], [], [])
  {
  }

  lemma FlushedInStep(b: Buffers)
    requires b.InStep()
    ensures b.Flushed().InStep()
  {
    FlushKeepsEveryPort(b.singles);
    AllSpansConcat(b.matchers, Flush(b.singles));
    assert AsSpans([]) == [];
  }

  lemma AppendRangeInStep(b: Buffers, start: Port, end: Port)
    requires b.InStep() && b.singles == [] && 0 < start <= end
    ensures b.AppendRange(start, end).InStep()
    ensures forall p: Port :: Covers(b.AppendRange(start, end).ranges, p) <==> Covers(b.ranges, p) || start <= p <= end
  {
    AppendRangeKeepsSpans(b, start, end);
    hide AllSpans, Spans, Readable, RangeMatcher, Covers, Buffers.InStep;
    forall p: Port ensures Covers(b.AppendRange(start, end).ranges, p) <==> Covers(b.ranges, p) || start <= p <= end {
      CoversOneMore(b.ranges, PortRange(start, end), p);
    }
  }

  lemma NoSingles(ranges: seq<PortRange>)
    ensures ranges + AsSpans([]) == ranges
  {
  }

  lemma ReadableAppend(matchers: seq<Matcher>, m: Matcher)
    requires AllReadable(matchers) && Readable(m)
    ensures AllReadable(matchers + [m])
  {
    hide Readable;
  }

  lemma ProperAppend(ranges: seq<PortRange>, range: PortRange)
    requires Proper(ranges) && Proper([range])
    ensures Proper(ranges + [range])
  {
    assert range in [range];
  }

  lemma AppendRangeKeepsSpans(b: Buffers, start: Port, end: Port)
    requires b.InStep() && b.singles == [] && 0 < start <= end
    ensures b.AppendRange(start, end).InStep()
  {
    var m, range := RangeMatcher(start, end), PortRange(start, end);
    assert Proper([range]);
    hide AllSpans, Spans, Readable, AllReadable, RangeMatcher, Covers, AsSpans, Proper;
    RangeReadsBack(start, end);
    AllSpansAppend(b.matchers, m);
    ReadableAppend(b.matchers, m);
    ProperAppend(b.ranges, range);
    NoSingles(AllSpans(b.matchers));
    NoSingles(b.ranges + [range]);
  }

  lemma CoversOneMore(ranges: seq<PortRange>, r: PortRange, p: Port)
    ensures Covers(ranges + [r], p) <==> Covers(ranges, p) || r.Has(p)
  {
    CoversConcat(ranges, [r], p);
    assert r in [r];
  }

  lemma AppendSingleInStep(b: Buffers, port: Port)
    requires b.InStep() && port > 0
    ensures b.AppendSingle(port).InStep()
    ensures forall p: Port :: Covers(b.AppendSingle(port).ranges, p) <==> Covers(b.ranges, p) || p == port
  {
    var after, span := b.AppendSingle(port), PortRange(port, port);
    assert AsSpans(after.singles) == AsSpans(b.singles) + [span];
    assert AllSpans(after.matchers) + AsSpans(after.singles) == b.ranges + [span];
    forall p: Port ensures Covers(after.ranges, p) <==> Covers(b.ranges, p) || p == port {
      CoversOneMore(b.ranges, span, p);
    }
  }

  lemma AppendRangeKeepsSingles(b: Buffers)
    ensures forall left: Port, right: Port :: b.AppendRange(left, right).singles == b.singles
  {
  }

  lemma AddRangeIsFaithful(b: Buffers, start: Port, end: Port, excluded: Port)
    requires b.InStep() && b.singles == [] && 0 < start <= end
    ensures b.AddRange(start, end, excluded).InStep()
    ensures forall p: Port :: Covers(b.AddRange(start, end, excluded).ranges, p)
                              <==> Covers(b.ranges, p) || (start <= p <= end && p != excluded)
  {
    hide Buffers.InStep, Buffers.AppendRange, Covers;
    assert forall left: Port, right: Port :: b.AppendRange(left, right).singles == b.singles by {
      AppendRangeKeepsSingles(b);
    }
    if excluded > 0 && start <= excluded <= end {
      if start < excluded {
        AppendRangeInStep(b, start, excluded - 1);
      }
      var left := if start < excluded then b.AppendRange(start, excluded - 1) else b;
      if excluded < end {
        AppendRangeInStep(left, excluded + 1, end);
      }
    } else {
      AppendRangeInStep(b, start, end);
    }
  }

  /** Adding a span keeps matchers and ranges in step and adds its ports except the excluded one. */
  lemma AddIsFaithful(b: Buffers, span: PortRange, excluded: Port)
    requires b.InStep() && span.Valid() && span.start > 0
    ensures b.Add(span, excluded).InStep()
    ensures forall p: Port :: Covers(b.Add(span, excluded).ranges, p)
                              <==> Covers(b.ranges, p) || (span.Has(p) && p != excluded)
  {
    if span.start == span.end {
      if span.start != excluded {
        AppendSingleInStep(b, span.start);
      }
    } else {
      FlushedInStep(b);
      AddRangeIsFaithful(b.Flushed(), span.start, span.end, excluded);
    }
  }

  lemma {:induction false} AccumulateIsFaithful(spans: seq<PortRange>, excluded: Port)
    requires Proper(spans)
    ensures Accumulate(spans, excluded).InStep()
    ensures forall p: Port :: Covers(Accumulate(spans, excluded).ranges, p) <==> Covers(spans, p) && p != excluded
  {
    if spans != [] {
      var init, last := spans[..|spans| - 1], spans[|spans| - 1];
      AccumulateIsFaithful(init, excluded);
      AddIsFaithful(Accumulate(init, excluded), last, excluded);
      assert spans == init + [last];
      forall p: Port ensures Covers(spans, p) <==> Covers(init, p) || last.Has(p) {
        CoversOneMore(init, last, p);
      }
    }
  }

  /**
   * Port text compiles faithfully: text is accepted exactly when every token is, the ranges hold the named
   * ports minus the excluded one, and the matchers, read back from their own arguments, name those same
   * ranges in the same order.
   */
  lemma CompileIsFaithful(raw: string, excluded: Port)
    ensures CompilePorts(raw, excluded).Ok? <==> NamedPorts(raw).Ok?
    ensures CompilePorts(raw, excluded).Err? ==> CompilePorts(raw, excluded).error == NamedPorts(raw).error
    ensures CompilePorts(raw, excluded).Ok? ==>
              var (matchers, ranges) := CompilePorts(raw, excluded).value;
              && AllReadable(matchers)
              && AllSpans(matchers) == ranges
              && Proper(ranges)
              && forall p: Port :: Covers(ranges, p) <==> Covers(NamedPorts(raw).value, p) && p != excluded
  {
    if NamedPorts(raw).Ok? {
      var spans := NamedPorts(raw).value;
      AccumulateIsFaithful(spans, excluded);
      FlushedInStep(Accumulate(spans, excluded));
      assert AsSpans([]) == [];
    }
  }

  // ----- Packing ranges into matchers -----

  function Packing(ranges: seq<PortRange>): Buffers {
    if ranges == [] then Buffers([], [], []) else Packing(ranges[..|ranges| - 1]).Take(ranges[|ranges| - 1])
  }

  function Pack(ranges: seq<PortRange>): seq<Matcher> {
    Packing(ranges).Flushed().matchers
  }

  method MatchersFromRanges(ranges: seq<PortRange>) returns (matchers: seq<Matcher>)
    ensures matchers == Pack(ranges)
  {
    matchers := [];
    var singles: seq<Port> := [];
    for i := 0 to |ranges|
      invariant matchers == Packing(ranges[..i]).matchers && singles == Packing(ranges[..i]).singles
    {
      var r := ranges[i];
      assert ranges[..i + 1][..i] == ranges[..i];
      if r.start == r.end {
        singles := singles + [r.start];
      } else {
        matchers := FlushSingles(singles, matchers);
        singles := [];
        matchers := matchers + [RangeMatcher(r.start, r.end)];
      }
    }
    assert ranges[..|ranges|] == ranges;
    matchers := FlushSingles(singles, matchers);
  }

  /** A packed range matcher spans at least two ports. */
  predicate Tight(m: Matcher) {
    Readable(m) && (IsDportMatcher(m) && m.singlePort.None? ==> Spans(m)[0].start < Spans(m)[0].end)
  }

  predicate AllTight(matchers: seq<Matcher>) {
    forall m :: m in matchers ==> Tight(m)
  }

  lemma {:induction false} FlushIsTight(singles: seq<Port>)
    requires forall i :: 0 <= i < |singles| ==> singles[i] > 0
    ensures AllTight(Flush(singles))
  {
    if singles != [] {
      var size := if |singles| < MAX_MULTIPORT then |singles| else MAX_MULTIPORT;
      ChunkReadsBack(singles[..size]);
      FlushIsTight(singles[size..]);
    }
  }

  lemma PackingSnoc(ranges: seq<PortRange>, range: PortRange)
    ensures Packing(ranges + [range]) == Packing(ranges).Take(range)
  {
    assert (ranges + [range])[..|ranges|] == ranges;
    hide Buffers.Take;
  }

  lemma ProperInit(ranges: seq<PortRange>, range: PortRange)
    requires Proper(ranges + [range])
    ensures Proper(ranges) && range.Valid() && range.start > 0
  {
    SnocMembers(ranges, range);
  }

  lemma {:induction false} PackingInStep(ranges: seq<PortRange>)
    requires Proper(ranges)
    ensures Packing(ranges).InStep() && Packing(ranges).ranges == ranges && AllTight(Packing(ranges).matchers)
  {
    if ranges == [] {
      NothingPacked();
    } else {
      hide Buffers.InStep, Buffers.Take, AllTight, Packing, Proper;
      var init, last := ranges[..|ranges| - 1], ranges[|ranges| - 1];
      InitLast(ranges);
      ProperInit(init, last);
      PackingInStep(init);
      PackingSnoc(init, last);
      TakeInStep(Packing(init), last);
    }
  }

  lemma NothingPacked()
    ensures Packing([]).InStep() && Packing([]).ranges == [] && AllTight(Packing([]).matchers)
  {
    NoSingles(AllSpans([]));
  }

  lemma TakeInStep(b: Buffers, range: PortRange)
    requires b.InStep() && AllTight(b.matchers) && range.Valid() && range.start > 0
    ensures b.Take(range).InStep() && AllTight(b.Take(range).matchers)
    ensures b.Take(range).ranges == b.ranges + [range]
  {
    if range.start == range.end {
      AppendSingleInStep(b, range.start);
    } else {
      FlushedInStep(b);
      AppendRangeInStep(b.Flushed(), range.start, range.end);
      FlushIsTight(b.singles);
      RangeReadsBack(range.start, range.end);
    }
  }

  /** Packing loses, repeats and reorders nothing, and packs every matcher tightly. */
  lemma PackKeepsEveryRange(ranges: seq<PortRange>)
    requires Proper(ranges)
    ensures AllTight(Pack(ranges)) && AllReadable(Pack(ranges)) && AllSpans(Pack(ranges)) == ranges
  {
    PackingInStep(ranges);
    FlushedInStep(Packing(ranges));
    FlushIsTight(Packing(ranges).singles);
    assert AsSpans([]) == [];
  }

  lemma {:induction false} PackingArgsPlain(ranges: seq<PortRange>)
    ensures forall m :: m in Packing(ranges).matchers ==> PlainArgs(m)
  {
    if ranges != [] {
      var n := |ranges| - 1;
      PackingArgsPlain(ranges[..n]);
      FlushArgsPlain(Packing(ranges[..n]).singles);
      RangeArgsPlain(ranges[n].start, ranges[n].end);
      hide PlainArgs, RangeMatcher;
    }
  }

  lemma PackArgsPlain(ranges: seq<PortRange>)
    ensures forall m :: m in Pack(ranges) ==> PlainArgs(m)
  {
    PackingArgsPlain(ranges);
    FlushArgsPlain(Packing(ranges).singles);
  }

  // ----- Subtracting ranges -----

  function CutAround(range: PortRange, blocked: PortRange): seq<PortRange> {
    if !range.Overlaps(blocked) then [range]
    else
      (if range.start < blocked.start then [PortRange(range.start, blocked.start - 1)] else [])
      + (if blocked.end < range.end then [PortRange(blocked.end + 1, range.end)] else [])
  }

  function Subtract(ranges: seq<PortRange>, blocked: PortRange): seq<PortRange> {
    if ranges == [] then []
    else Subtract(ranges[..|ranges| - 1], blocked) + CutAround(ranges[|ranges| - 1], blocked)
  }

  method SubtractRange(ranges: seq<PortRange>, blocked: PortRange) returns (output: seq<PortRange>)
    ensures output == Subtract(ranges, blocked)
  {
    output := [];
    for i := 0 to |ranges|
      invariant output == Subtract(ranges[..i], blocked)
    {
      var range := ranges[i];
      ghost var before := output;
      assert ranges[..i + 1][..i] == ranges[..i];
      if !range.Overlaps(blocked) {
        output := output + [range];
        continue;
      }
      if range.start < blocked.start {
        output := output + [PortRange(range.start, blocked.start - 1)];
      }
      if blocked.end < range.end {
        output := output + [PortRange(blocked.end + 1, range.end)];
      }
      assert output == before + CutAround(range, blocked);
    }
    assert ranges[..|ranges|] == ranges;
  }

  lemma CutAroundIsExact(range: PortRange, blocked: PortRange, p: Port)
    requires range.Valid() && blocked.Valid()
    ensures Covers(CutAround(range, blocked), p) <==> range.Has(p) && !blocked.Has(p)
  {
    var left, right := PortRange(range.start, if range.start < blocked.start then blocked.start - 1 else 0),
                       PortRange(if blocked.end < range.end then blocked.end + 1 else 0, range.end);
    var cut := CutAround(range, blocked);
    if range.Has(p) && !blocked.Has(p) {
      if !range.Overlaps(blocked) {
        assert range in cut;
      } else if p < blocked.start {
        assert left in cut && left.Has(p);
      } else {
        assert right in cut && right.Has(p);
      }
    }
  }

  /** Subtraction removes the blocked ports and no others, and keeps ranges proper. */
  lemma {:induction false} SubtractIsExact(ranges: seq<PortRange>, blocked: PortRange)
    requires Proper(ranges) && blocked.Valid()
    ensures Proper(Subtract(ranges, blocked))
    ensures forall p: Port :: Covers(Subtract(ranges, blocked), p) <==> Covers(ranges, p) && !blocked.Has(p)
  {
    if ranges != [] {
      var init, last := ranges[..|ranges| - 1], ranges[|ranges| - 1];
      SubtractIsExact(init, blocked);
      assert ranges == init + [last];
      forall p: Port
        ensures Covers(Subtract(ranges, blocked), p) <==> Covers(ranges, p) && !blocked.Has(p)
      {
        CutAroundIsExact(last, blocked, p);
        CoversConcat(Subtract(init, blocked), CutAround(last, blocked), p);
        CoversOneMore(init, last, p);
      }
    }
  }
}
