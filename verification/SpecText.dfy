// Rule specs as text: the tokeniser for `iptables -S` lines, normalisation, and comparison keys.
module SpecText {
  import opened Results
  import opened Text

  type Fields = seq<string>

  predicate IsQuote(c: char) {
    c == '"' || c == '\''
  }

  predicate IsBlank(c: char) {
    c == ' ' || c == '\t'
  }

  predicate QuoteFree(s: string) {
    forall i :: 0 <= i < |s| ==> !IsQuote(s[i])
  }

  predicate AllQuoteFree(fields: Fields) {
    forall i :: 0 <= i < |fields| ==> QuoteFree(fields[i])
  }

  /** A field whose quotes, if any, are apostrophes inside it: trimming quotes leaves it alone. */
  predicate Trimmed(s: string) {
    '"' !in s && (s != "" ==> s[0] != '\'' && s[|s| - 1] != '\'')
  }

  predicate AllTrimmed(fields: Fields) {
    forall i :: 0 <= i < |fields| ==> Trimmed(fields[i])
  }

  // ----- Tokenising -----

  /** Reads the rest of a line, given the word under construction and the open quote, if any. */
  function Scan(line: string, word: string, quote: Option<char>): Fields {
    if line == "" then (if word == "" then [] else [word])
    else
      var c, rest := line[0], line[1..];
      match quote
      case Some(q) => if c == q then Scan(rest, word, None) else Scan(rest, word + [c], quote)
      case None =>
        if IsQuote(c) then Scan(rest, word, Some(c))
        else if IsBlank(c) then (if word == "" then [] else [word]) + Scan(rest, "", None)
        else Scan(rest, word + [c], None)
  }

  function ParseSpec(line: string): Fields {
    Scan(line, "", None)
  }

  method ParseIptablesSpec(line: string) returns (fields: Fields)
    ensures fields == ParseSpec(line)
  {
    fields := [];
    var word, quote: Option<char> := "", None;
    for i := 0 to |line|
      invariant fields + Scan(line[i..], word, quote) == ParseSpec(line)
    {
      var c := line[i];
      assert line[i..][1..] == line[i + 1..];
      if quote.Some? {
        if c == quote.value {
          quote := None;
        } else {
          word := word + [c];
        }
      } else if IsQuote(c) {
        quote := Some(c);
      } else if IsBlank(c) {
        if word != "" {
          fields := fields + [word];
          word := "";
        }
      } else {
        word := word + [c];
      }
    }
    assert line[|line|..] == "";
    if word != "" {
      fields := fields + [word];
    }
  }

  // ----- Printing -----

  predicate HasBlank(s: string) {
    exists i :: 0 <= i < |s| && IsBlank(s[i])
  }

  /** A field's text in a listing: in double quotes, or bare when nothing in it asks for quotes. */
  predicate Prints(text: string, field: string) {
    text == "\"" + field + "\"" || (text == field && !HasBlank(field) && '\'' !in field)
  }

  predicate PrintsAll(texts: Fields, fields: Fields) {
    |texts| == |fields| && forall i :: 0 <= i < |fields| ==> Prints(texts[i], fields[i])
  }

  /** Which fields of a rule a firewall quotes although they need no quotes. */
  type Quoting = (Fields, nat) -> bool

  function PrintField(field: string, quoted: bool): (text: string)
    ensures Prints(text, field)
  {
    if quoted || HasBlank(field) || '\'' in field then "\"" + field + "\"" else field
  }

  function PrintFields(quoting: Quoting, fields: Fields): (texts: Fields)
    ensures |texts| == |fields|
    ensures forall i :: 0 <= i < |fields| ==> texts[i] == PrintField(fields[i], quoting(fields, i))
    ensures PrintsAll(texts, fields)
  {
    seq(|fields|, i requires 0 <= i < |fields| => PrintField(fields[i], quoting(fields, i)))
  }

  function PrintSpec(quoting: Quoting, fields: Fields): string {
    Join(PrintFields(quoting, fields), ' ')
  }

  lemma {:induction false} ScanBare(field: string, rest: string, word: string)
    requires QuoteFree(field) && !HasBlank(field)
    ensures Scan(field + rest, word, None) == Scan(rest, word + field, None)
  {
    if field == "" {
      assert field + rest == rest && word + field == word;
    } else {
      ScanBare(field[1..], rest, word + [field[0]]);
      assert (field + rest)[1..] == field[1..] + rest;
      assert word + [field[0]] + field[1..] == word + field;
    }
  }

  lemma {:induction false} ScanQuoted(field: string, rest: string, word: string)
    requires '"' !in field
    ensures Scan(field + ['"'] + rest, word, Some('"')) == Scan(rest, word + field, None)
  {
    var line := field + ['"'] + rest;
    if field == "" {
      assert line[0] == '"' && line[1..] == rest && word + field == word;
    } else {
      ScanQuoted(field[1..], rest, word + [field[0]]);
      assert line[0] == field[0] && line[1..] == field[1..] + ['"'] + rest;
      assert word + [field[0]] + field[1..] == word + field;
    }
  }

  lemma ScanPrinted(text: string, field: string, rest: string)
    requires Prints(text, field) && '"' !in field
    ensures Scan(text + rest, "", None) == Scan(rest, field, None)
  {
    assert "" + field == field;
    if text == "\"" + field + "\"" {
      ScanQuoted(field, rest, "");
      ScanOpenQuote(field + ['"'] + rest);
      QuotedText(field, rest);
      hide Scan, HasBlank;
    } else {
      ScanBare(field, rest, "");
      hide Scan, HasBlank;
    }
  }

  lemma QuotedText(field: string, rest: string)
    ensures "\"" + field + "\"" + rest == ['"'] + (field + ['"'] + rest)
  {
  }

  lemma ScanOpenQuote(tail: string)
    ensures Scan(['"'] + tail, "", None) == Scan(tail, "", Some('"'))
  {
    assert (['"'] + tail)[1..] == tail;
  }

  /** Reading a printed rule gives its fields back, whichever fields are quoted, blanks and apostrophes included. */
  lemma {:induction false} ParseUndoesPrint(texts: Fields, fields: Fields)
    requires PrintsAll(texts, fields)
    requires forall i :: 0 <= i < |fields| ==> fields[i] != "" && '"' !in fields[i]
    ensures ParseSpec(Join(texts, ' ')) == fields
  {
    hide Prints;
    if fields == [] {
    } else if |fields| == 1 {
      ScanPrinted(texts[0], fields[0], "");
      assert texts[0] + "" == Join(texts, ' ');
    } else {
      var head, tail := fields[0], fields[1..];
      ParseUndoesPrint(texts[1..], tail);
      var rest := [' '] + Join(texts[1..], ' ');
      assert Join(texts, ' ') == texts[0] + rest;
      ScanPrinted(texts[0], head, rest);
      assert rest[1..] == Join(texts[1..], ' ');
      assert Scan(rest, head, None) == [head] + Scan(Join(texts[1..], ' '), "", None);
      assert fields == [head] + tail;
    }
  }

  lemma PlainIsQuoteFree(fields: Fields)
    requires AllPlain(fields)
    ensures AllQuoteFree(fields) && AllTrimmed(fields)
    ensures forall i :: 0 <= i < |fields| ==>
              fields[i] != "" && !HasBlank(fields[i]) && '"' !in fields[i] && '\'' !in fields[i] && '\0' !in fields[i]
  {
    assert IsPlainChar('\0') == false;
    assert forall c :: IsBlank(c) ==> !IsPlainChar(c);
  }

  /** Reading plain words joined by single spaces gives the words back. */
  lemma ParseUndoesJoin(fields: Fields)
    requires AllPlain(fields)
    ensures ParseSpec(Join(fields, ' ')) == fields
  {
    PlainIsQuoteFree(fields);
    ParseUndoesPrint(fields, fields);
  }

  // ----- Normalising -----

  function TrimQuotesStart(s: string): string {
    if s != "" && IsQuote(s[0]) then TrimQuotesStart(s[1..]) else s
  }

  function TrimQuotesEnd(s: string): string {
    if s != "" && IsQuote(s[|s| - 1]) then TrimQuotesEnd(s[..|s| - 1]) else s
  }

  function TrimQuotes(s: string): string {
    TrimQuotesEnd(TrimQuotesStart(s))
  }

  lemma TrimQuotesIdentity(s: string)
    requires Trimmed(s)
    ensures TrimQuotes(s) == s
  {
  }

  predicate IsTransport(s: string) {
    s == "udp" || s == "tcp"
  }

  /** A `-m udp` or `-m tcp` pair, which the kernel adds by itself. */
  predicate IsImplicitMatch(fields: Fields, i: nat) {
    i + 1 < |fields| && fields[i] == "-m" && IsTransport(fields[i + 1])
  }

  function NormalizedField(fields: Fields, i: nat): string
    requires i < |fields|
  {
    if i > 0 && fields[i - 1] == "--comment" then TrimQuotes(fields[i]) else fields[i]
  }

  function NormalizeFrom(fields: Fields, i: nat): Fields
    decreases |fields| - i
  {
    if i >= |fields| then []
    else if IsImplicitMatch(fields, i) then NormalizeFrom(fields, i + 2)
    else [NormalizedField(fields, i)] + NormalizeFrom(fields, i + 1)
  }

  function Normalize(fields: Fields): Fields {
    NormalizeFrom(fields, 0)
  }

  method NormalizeSpecFields(fields: Fields) returns (out: Fields)
    ensures out == Normalize(fields)
  {
    out := [];
    var index := 0;
    while index < |fields|
      invariant out + NormalizeFrom(fields, index) == Normalize(fields)
    {
      if fields[index] == "-m" && index + 1 < |fields| && IsTransport(fields[index + 1]) {
        index := index + 2;
        continue;
      }
      var value := fields[index];
      if index > 0 && fields[index - 1] == "--comment" {
        value := TrimQuotes(value);
      }
      out := out + [value];
      index := index + 1;
    }
  }

  /** Normalisation without quotes to trim: only the implicit matches go. */
  function Drop(fields: Fields): (r: Fields)
    ensures |r| <= |fields|
  {
    if fields == [] then []
    else if IsImplicitMatch(fields, 0) then Drop(fields[2..])
    else [fields[0]] + Drop(fields[1..])
  }

  lemma {:induction false} NormalizeFromIsDrop(fields: Fields, i: nat)
    requires AllTrimmed(fields) && i <= |fields|
    ensures NormalizeFrom(fields, i) == Drop(fields[i..])
    decreases |fields| - i
  {
    if i < |fields| {
      var rest := fields[i..];
      assert IsImplicitMatch(fields, i) == IsImplicitMatch(rest, 0);
      if IsImplicitMatch(fields, i) {
        NormalizeFromIsDrop(fields, i + 2);
        assert rest[2..] == fields[i + 2..];
      } else {
        TrimQuotesIdentity(fields[i]);
        NormalizeFromIsDrop(fields, i + 1);
        assert rest[1..] == fields[i + 1..];
      }
    }
  }

  lemma NormalizeIsDrop(fields: Fields)
    requires AllTrimmed(fields)
    ensures Normalize(fields) == Drop(fields)
  {
    NormalizeFromIsDrop(fields, 0);
    assert fields[0..] == fields;
  }

  /** Skips the implicit matches at the front. */
  function SkipImplicit(fields: Fields): (r: Fields)
    ensures !IsImplicitMatch(r, 0)
    ensures |r| <= |fields|
  {
    if IsImplicitMatch(fields, 0) then SkipImplicit(fields[2..]) else fields
  }

  lemma {:induction false} DropHead(fields: Fields)
    ensures Drop(fields) == Drop(SkipImplicit(fields))
    ensures SkipImplicit(fields) == [] ==> Drop(fields) == []
    ensures SkipImplicit(fields) != [] ==> Drop(fields) != [] && Drop(fields)[0] == SkipImplicit(fields)[0]
  {
    if IsImplicitMatch(fields, 0) {
      DropHead(fields[2..]);
    }
  }

  // ----- Normalising twice -----

  /** A second pass would act on these neighbours: drop them, or trim the second. */
  predicate Clash(a: string, b: string) {
    (a == "-m" && IsTransport(b)) || (a == "--comment" && TrimQuotes(b) != b)
  }

  predicate Clashes(fields: Fields) {
    |fields| >= 2 && (Clash(fields[0], fields[1]) || Clashes(fields[1..]))
  }

  function NextKept(fields: Fields, i: nat): (next: nat)
    ensures i <= next
    decreases |fields| - i
  {
    if IsImplicitMatch(fields, i) then NextKept(fields, i + 2) else i
  }

  /**
   * From position i on, two fields that the first pass keeps clash, in the form it gives them, once the implicit
   * matches between them are gone.
   */
  predicate Unsettled(fields: Fields, i: nat)
    decreases |fields| - i
  {
    if i >= |fields| then false
    else if IsImplicitMatch(fields, i) then Unsettled(fields, i + 2)
    else
      var next := NextKept(fields, i + 1);
      || (next < |fields| && Clash(NormalizedField(fields, i), NormalizedField(fields, next)))
      || Unsettled(fields, i + 1)
  }

  lemma {:induction false} NormalizeNextKept(fields: Fields, i: nat)
    ensures NormalizeFrom(fields, i) == NormalizeFrom(fields, NextKept(fields, i))
    ensures NextKept(fields, i) < |fields| ==>
              NormalizeFrom(fields, i) != [] &&
              NormalizeFrom(fields, i)[0] == NormalizedField(fields, NextKept(fields, i))
    ensures NextKept(fields, i) >= |fields| ==> NormalizeFrom(fields, i) == []
    decreases |fields| - i
  {
    hide NormalizedField;
    if IsImplicitMatch(fields, i) {
      NormalizeNextKept(fields, i + 2);
    }
  }

  lemma {:induction false} UnsettledIsClashes(fields: Fields, i: nat)
    ensures Clashes(NormalizeFrom(fields, i)) <==> Unsettled(fields, i)
    decreases |fields| - i
  {
    hide NormalizedField, Clash;
    if i < |fields| {
      if IsImplicitMatch(fields, i) {
        UnsettledIsClashes(fields, i + 2);
      } else {
        UnsettledIsClashes(fields, i + 1);
        NormalizeNextKept(fields, i + 1);
        var out := [NormalizedField(fields, i)] + NormalizeFrom(fields, i + 1);
        assert out[1..] == NormalizeFrom(fields, i + 1);
      }
    }
  }

  /** Normalisation keeps this field, and as it is. */
  predicate StaysAt(fields: Fields, i: nat)
    requires i < |fields|
  {
    !IsImplicitMatch(fields, i) && NormalizedField(fields, i) == fields[i]
  }

  lemma {:induction false} NormalizeShrinks(fields: Fields, i: nat)
    requires i <= |fields|
    ensures |NormalizeFrom(fields, i)| <= |fields| - i
    decreases |fields| - i
  {
    if i < |fields| {
      NormalizeShrinks(fields, if IsImplicitMatch(fields, i) then i + 2 else i + 1);
    }
  }

  lemma ConsEqual<T>(a: T, x: seq<T>, b: T, y: seq<T>)
    ensures [a] + x == [b] + y <==> a == b && x == y
  {
    if [a] + x == [b] + y {
      assert ([a] + x)[0] == ([b] + y)[0] && ([a] + x)[1..] == ([b] + y)[1..];
    }
  }

  lemma {:induction false} NormalizeFixes(fields: Fields, i: nat)
    requires i <= |fields|
    ensures NormalizeFrom(fields, i) == fields[i..] <==> forall k :: i <= k < |fields| ==> StaysAt(fields, k)
    decreases |fields| - i
  {
    hide NormalizedField;
    if i == |fields| {
    } else if IsImplicitMatch(fields, i) {
      NormalizeShrinks(fields, i + 2);
      assert !StaysAt(fields, i);
    } else {
      NormalizeFixes(fields, i + 1);
      ConsEqual(NormalizedField(fields, i), NormalizeFrom(fields, i + 1), fields[i], fields[i + 1..]);
      assert fields[i..] == [fields[i]] + fields[i + 1..];
      assert StaysAt(fields, i) <==> NormalizedField(fields, i) == fields[i];
    }
  }

  lemma {:induction false} ClashesSomewhere(fields: Fields)
    ensures Clashes(fields) <==> exists k :: 0 <= k < |fields| - 1 && Clash(fields[k], fields[k + 1])
  {
    hide Clash;
    if |fields| >= 2 {
      var tail := fields[1..];
      ClashesSomewhere(tail);
      if k :| 0 <= k < |tail| - 1 && Clash(tail[k], tail[k + 1]) {
        assert Clash(fields[k + 1], fields[k + 1 + 1]);
      }
      if k :| 1 <= k < |fields| - 1 && Clash(fields[k], fields[k + 1]) {
        assert Clash(tail[k - 1], tail[k - 1 + 1]);
      }
    }
  }

  lemma ClashOrStays(fields: Fields)
    ensures (exists k :: 0 <= k < |fields| - 1 && Clash(fields[k], fields[k + 1]))
       <==> !forall k :: 0 <= k < |fields| ==> StaysAt(fields, k)
  {
    hide TrimQuotes;
    if k :| 0 <= k < |fields| - 1 && Clash(fields[k], fields[k + 1]) {
      assert !StaysAt(fields, k) || !StaysAt(fields, k + 1);
    }
    if k :| 0 <= k < |fields| && !StaysAt(fields, k) {
      if IsImplicitMatch(fields, k) {
        assert Clash(fields[k], fields[k + 1]);
      } else {
        assert Clash(fields[k - 1], fields[k - 1 + 1]);
      }
    }
  }

  /** Exactly when normalising twice changes nothing, for every list. */
  lemma NormalizeIsIdempotent(fields: Fields)
    ensures Normalize(Normalize(fields)) == Normalize(fields) <==> !Unsettled(fields, 0)
  {
    var out := Normalize(fields);
    hide NormalizeFrom, StaysAt, Clash, Clashes, Unsettled;
    UnsettledIsClashes(fields, 0);
    ClashesSomewhere(out);
    ClashOrStays(out);
    NormalizeFixes(out, 0);
    assert out[0..] == out;
  }

  /** A list on which normalisation is not idempotent. */
  lemma NormalizeTwiceDiffers()
    ensures Normalize(["-m", "-m", "udp", "udp"]) == ["-m", "udp"]
    ensures Normalize(["-m", "udp"]) == []
  {
    var fields := ["-m", "-m", "udp", "udp"];
    assert NormalizeFrom(fields, 4) == [];
    assert NormalizeFrom(fields, 3) == ["udp"];
  }

  // ----- Option-shaped lists -----

  /** Options that take a value are followed by one, and no value is itself `-m`. */
  predicate Shaped(fields: Fields) {
    forall i :: 0 <= i < |fields| && (fields[i] == "-m" || fields[i] == "-j" || fields[i] == "--comment") ==>
      i + 1 < |fields| && fields[i + 1] != "-m"
  }

  lemma ShapedNext(fields: Fields, i: nat)
    requires Shaped(fields) && AllTrimmed(fields) && i < |fields| && !IsImplicitMatch(fields, i)
    ensures var next := NextKept(fields, i + 1);
            next < |fields| ==> !Clash(fields[i], fields[next])
  {
    var next := NextKept(fields, i + 1);
    if next < |fields| {
      TrimQuotesIdentity(fields[next]);
      if fields[i] == "-m" {
        assert next == i + 1;
      }
    }
  }

  lemma NormalizedTrimmed(fields: Fields, i: nat)
    requires AllTrimmed(fields) && i < |fields|
    ensures NormalizedField(fields, i) == fields[i]
  {
    TrimQuotesIdentity(fields[i]);
  }

  /** Lists in which options are followed by their values settle at once. */
  lemma {:induction false} ShapedIsSettled(fields: Fields, i: nat)
    requires Shaped(fields) && AllTrimmed(fields)
    ensures !Unsettled(fields, i)
    decreases |fields| - i
  {
    hide Shaped, Clash, AllTrimmed, NormalizedField;
    if i >= |fields| {
    } else if IsImplicitMatch(fields, i) {
      ShapedIsSettled(fields, i + 2);
    } else {
      ShapedIsSettled(fields, i + 1);
      ShapedNext(fields, i);
      NormalizedTrimmed(fields, i);
      var next := NextKept(fields, i + 1);
      if next < |fields| {
        NormalizedTrimmed(fields, next);
      }
    }
  }

  predicate HasPair(fields: Fields, a: string, b: string) {
    exists i :: 0 <= i < |fields| - 1 && fields[i] == a && fields[i + 1] == b
  }

  lemma HasPairStep(fields: Fields, a: string, b: string)
    requires fields != []
    ensures HasPair(fields, a, b) <==>
            (|fields| >= 2 && fields[0] == a && fields[1] == b) || HasPair(fields[1..], a, b)
  {
    var tail := fields[1..];
    if HasPair(tail, a, b) {
      var i :| 0 <= i < |tail| - 1 && tail[i] == a && tail[i + 1] == b;
      assert fields[i + 1] == a && fields[i + 1 + 1] == b;
    }
    if HasPair(fields, a, b) {
      var i :| 0 <= i < |fields| - 1 && fields[i] == a && fields[i + 1] == b;
      if i > 0 {
        assert tail[i - 1] == a && tail[i - 1 + 1] == b;
      }
    }
  }

  /** Normalising a shaped list neither makes nor breaks a jump or comment pair. */
  lemma {:induction false} DropKeepsPairs(fields: Fields, a: string, b: string)
    requires Shaped(fields) && (a == "-j" || a == "--comment")
    ensures HasPair(Drop(fields), a, b) <==> HasPair(fields, a, b)
  {
    if fields != [] {
      HasPairStep(fields, a, b);
      var tail := fields[1..];
      assert forall i :: 0 <= i < |tail| ==> tail[i] == fields[i + 1];
      if IsImplicitMatch(fields, 0) {
        HasPairStep(tail, a, b);
        assert tail[1..] == fields[2..];
        assert forall i :: 0 <= i < |fields[2..]| ==> fields[2..][i] == fields[i + 2];
        DropKeepsPairs(fields[2..], a, b);
      } else {
        DropKeepsPairs(tail, a, b);
        var dropped := [fields[0]] + Drop(tail);
        HasPairStep(dropped, a, b);
        assert dropped[1..] == Drop(tail);
        DropHead(tail);
        if fields[0] == a {
          assert tail != [] && SkipImplicit(tail) == tail;
        }
      }
    }
  }

  lemma {:induction false} DropStaysPlain(fields: Fields)
    requires AllPlain(fields)
    ensures AllPlain(Drop(fields))
  {
    if fields != [] {
      if IsImplicitMatch(fields, 0) {
        DropStaysPlain(fields[2..]);
      } else {
        DropStaysPlain(fields[1..]);
      }
    }
  }

  /** Without implicit matches there is nothing to drop. */
  lemma {:induction false} DropNothing(fields: Fields)
    requires forall i :: 0 <= i < |fields| ==> !IsImplicitMatch(fields, i)
    ensures Drop(fields) == fields
  {
    if fields != [] {
      var tail := fields[1..];
      forall i | 0 <= i < |tail| ensures !IsImplicitMatch(tail, i) {
        assert !IsImplicitMatch(fields, i + 1);
      }
      DropNothing(tail);
      assert !IsImplicitMatch(fields, 0);
      assert fields == [fields[0]] + tail;
    }
  }

  // ----- Keys -----

  function Key(fields: Fields): string {
    Join(Normalize(fields), '\0')
  }

  /** Plain lists have the same key exactly when they normalise to the same fields. */
  lemma KeyIsInjective(a: Fields, b: Fields)
    requires AllPlain(a) && AllPlain(b) && Normalize(a) != [] && Normalize(b) != []
    ensures Key(a) == Key(b) <==> Normalize(a) == Normalize(b)
  {
    PlainIsQuoteFree(a);
    PlainIsQuoteFree(b);
    NormalizeIsDrop(a);
    NormalizeIsDrop(b);
    DropStaysPlain(a);
    DropStaysPlain(b);
    PlainIsQuoteFree(Drop(a));
    PlainIsQuoteFree(Drop(b));
    SplitJoin(Drop(a), '\0');
    SplitJoin(Drop(b), '\0');
  }

  /**
   * The key of a listed rule survives the trip through its normalised text: normalise, join by spaces,
   * tokenise again and key.
   */
  lemma KeySurvivesText(fields: Fields)
    requires AllPlain(fields) && Shaped(fields)
    ensures ParseSpec(Join(Normalize(fields), ' ')) == Normalize(fields)
    ensures Key(ParseSpec(Join(Normalize(fields), ' '))) == Key(fields)
  {
    PlainIsQuoteFree(fields);
    NormalizeIsDrop(fields);
    DropStaysPlain(fields);
    ParseUndoesJoin(Drop(fields));
    ShapedIsSettled(fields, 0);
    NormalizeIsIdempotent(fields);
  }

  // ----- What a key says about the text it was made from -----

  predicate SomeBlank(fields: Fields) {
    exists i :: 0 <= i < |fields| && ' ' in fields[i]
  }

  lemma SomeBlankConcat(a: Fields, b: Fields)
    ensures SomeBlank(a + b) <==> SomeBlank(a) || SomeBlank(b)
  {
    var all := a + b;
    if i :| 0 <= i < |a| && ' ' in a[i] {
      assert all[i] == a[i];
    }
    if i :| 0 <= i < |b| && ' ' in b[i] {
      assert all[|a| + i] == b[i];
    }
    if i :| 0 <= i < |all| && ' ' in all[i] {
      assert i < |a| ==> a[i] == all[i];
      assert i >= |a| ==> b[i - |a|] == all[i];
    }
  }

  /** A blank taken into a word stays in the token the word becomes. */
  lemma {:induction false} BlankStays(line: string, word: string, quote: Option<char>)
    requires ' ' in word
    ensures SomeBlank(Scan(line, word, quote))
  {
    if line == "" {
      assert Scan(line, word, quote)[0] == word;
    } else {
      var c, rest := line[0], line[1..];
      if quote == None && !IsQuote(c) && IsBlank(c) {
        SomeBlankConcat([word], Scan(rest, "", None));
        assert [word][0] == word;
      } else if quote == None && !IsQuote(c) {
        BlankStays(rest, word + [c], None);
      } else if quote == None {
        BlankStays(rest, word, Some(c));
      } else if c == quote.value {
        BlankStays(rest, word, None);
      } else {
        BlankStays(rest, word + [c], quote);
      }
    }
  }

  lemma {:induction false} ScanEmits(line: string, word: string)
    requires line != "" && !IsQuote(line[0]) && IsBlank(line[0])
    ensures Scan(line, word, None) == Scan("", word, None) + Scan(line[1..], "", None)
  {
  }

  /** A blank between two texts separates them, or ends up inside a token. */
  lemma {:induction false} BlankSeparates(a: string, rest: string, word: string, quote: Option<char>)
    requires quote.Some? ==> IsQuote(quote.value)
    ensures var all := Scan(a + [' '] + rest, word, quote);
            all == Scan(a, word, quote) + Scan(rest, "", None) || SomeBlank(all)
  {
    var line := a + [' '] + rest;
    if a == "" {
      assert line[0] == ' ' && line[1..] == rest;
      if quote.None? {
        ScanEmits(line, word);
      } else {
        BlankInside(line, word, quote.value);
      }
    } else {
      var c, tail := a[0], a[1..];
      assert line[0] == c && line[1..] == tail + [' '] + rest;
      if quote == None && !IsQuote(c) && IsBlank(c) {
        BlankSeparates(tail, rest, "", None);
        ScanEmits(line, word);
        ScanEmits(a, word);
        SomeBlankConcat(Scan("", word, None), Scan(tail + [' '] + rest, "", None));
      } else if quote == None && !IsQuote(c) {
        BlankSeparates(tail, rest, word + [c], None);
      } else if quote == None {
        BlankSeparates(tail, rest, word, Some(c));
      } else if c == quote.value {
        BlankSeparates(tail, rest, word, None);
      } else {
        BlankSeparates(tail, rest, word + [c], quote);
      }
    }
  }

  lemma BlankInside(line: string, word: string, quote: char)
    requires line != "" && line[0] == ' ' && IsQuote(quote)
    ensures SomeBlank(Scan(line, word, Some(quote)))
  {
    BlankStays(line[1..], word + [' '], Some(quote));
  }

  /** Without double quotes, apostrophes only open and close: none ends up in a token. */
  lemma {:induction false} ScanLeavesNoQuotes(line: string, word: string, quote: Option<char>)
    requires '"' !in line && QuoteFree(word) && (quote.Some? ==> quote.value == '\'')
    ensures AllQuoteFree(Scan(line, word, quote))
  {
    if line != "" {
      var c, rest := line[0], line[1..];
      if quote == None && !IsQuote(c) && IsBlank(c) {
        ScanLeavesNoQuotes(rest, "", None);
        ScanEmits(line, word);
      } else if quote == None && !IsQuote(c) {
        ScanLeavesNoQuotes(rest, word + [c], None);
      } else if quote == None {
        ScanLeavesNoQuotes(rest, word, Some(c));
      } else if c == quote.value {
        ScanLeavesNoQuotes(rest, word, None);
      } else {
        ScanLeavesNoQuotes(rest, word + [c], quote);
      }
    }
  }

  lemma PlainToken(word: string)
    requires IsPlain(word)
    ensures Scan(word, "", None) == [word]
  {
    assert AllPlain([word]);
    ParseUndoesJoin([word]);
  }

  lemma HasPairConcat(front: Fields, fields: Fields, a: string, b: string)
    requires HasPair(fields, a, b)
    ensures HasPair(front + fields, a, b)
  {
    var all := front + fields;
    var i :| 0 <= i < |fields| - 1 && fields[i] == a && fields[i + 1] == b;
    var j := |front| + i;
    assert all[j] == a && all[j + 1] == b;
  }

  lemma PairInFront(a: string, b: string, rest: Fields)
    ensures HasPair([a] + ([b] + rest), a, b)
  {
    var all := [a] + ([b] + rest);
    assert all[0] == a && all[0 + 1] == b;
  }

  /** Two plain words next to each other in a rule are read back next to each other, or some token has a blank. */
  lemma {:induction false} JoinKeepsPair(fields: Fields, a: string, b: string)
    requires HasPair(fields, a, b) && IsPlain(a) && IsPlain(b)
    ensures HasPair(ParseSpec(Join(fields, ' ')), a, b) || SomeBlank(ParseSpec(Join(fields, ' ')))
  {
    var head, tail := fields[0], fields[1..];
    HasPairStep(fields, a, b);
    BlankSeparates(head, Join(tail, ' '), "", None);
    hide Scan, HasPair, SomeBlank, IsPlain;
    var rest := ParseSpec(Join(tail, ' '));
    assert Join(fields, ' ') == head + [' '] + Join(tail, ' ');
    SomeBlankConcat(Scan(head, "", None), rest);
    if HasPair(tail, a, b) {
      JoinKeepsPair(tail, a, b);
      if HasPair(rest, a, b) {
        HasPairConcat(Scan(head, "", None), rest, a, b);
      }
    } else {
      PlainToken(a);
      PlainToken(b);
      FirstToken(tail, b);
      if !SomeBlank(rest) {
        var more :| rest == [b] + more;
        PairInFront(a, b, more);
      }
    }
  }

  /** A plain word in front is read back in front. */
  lemma FirstToken(fields: Fields, word: string)
    requires fields != [] && fields[0] == word && IsPlain(word)
    ensures SomeBlank(ParseSpec(Join(fields, ' '))) || exists more :: ParseSpec(Join(fields, ' ')) == [word] + more
  {
    PlainToken(word);
    if |fields| == 1 {
      assert ParseSpec(Join(fields, ' ')) == [word] + [];
    } else {
      BlankSeparates(word, Join(fields[1..], ' '), "", None);
      assert Join(fields, ' ') == word + [' '] + Join(fields[1..], ' ');
      hide Scan;
    }
  }

  /** Dropping implicit matches keeps a pair of words that are no part of one. */
  lemma {:induction false} DropKeepsOtherPairs(fields: Fields, a: string, b: string)
    requires HasPair(fields, a, b) && a != "-m" && b != "-m" && !IsTransport(a) && !IsTransport(b)
    ensures HasPair(Drop(fields), a, b)
  {
    HasPairStep(fields, a, b);
    var tail := fields[1..];
    if IsImplicitMatch(fields, 0) {
      HasPairStep(tail, a, b);
      assert tail[1..] == fields[2..];
      DropKeepsOtherPairs(fields[2..], a, b);
    } else if HasPair(tail, a, b) {
      DropKeepsOtherPairs(tail, a, b);
      HasPairConcat([fields[0]], Drop(tail), a, b);
    } else {
      assert tail[0] == b && !IsImplicitMatch(tail, 0);
      PairInFront(a, b, Drop(tail[1..]));
      assert Drop(fields) == [a] + Drop(tail) && Drop(tail) == [b] + Drop(tail[1..]);
    }
  }

  lemma SplitHead(c: char, tail: string, sep: char)
    ensures Split([c] + tail, sep) ==
            if c == sep then [""] + Split(tail, sep)
            else [[c] + Split(tail, sep)[0]] + Split(tail, sep)[1..]
  {
    assert ([c] + tail)[1..] == tail;
  }

  lemma ReplaceFirst<T>(first: T, parts: seq<T>, rest: seq<T>)
    requires parts != []
    ensures (parts + rest)[0] == parts[0]
    ensures [first] + (parts + rest)[1..] == ([first] + parts[1..]) + rest
  {
  }

  lemma Regroup(c: char, a: string, sep: char, rest: string)
    ensures ([c] + a) + [sep] + rest == [c] + (a + [sep] + rest)
    ensures "" + [sep] + rest == [sep] + rest
  {
  }

  /** Splitting a joined text, whatever the separator does inside the parts, splits the parts. */
  lemma {:induction false} SplitConcat(a: string, rest: string, sep: char)
    ensures Split(a + [sep] + rest, sep) == Split(a, sep) + Split(rest, sep)
  {
    if a == "" {
      Regroup(sep, a, sep, rest);
      SplitHead(sep, rest, sep);
    } else {
      var c, tail := a[0], a[1..];
      assert a == [c] + tail;
      SplitConcat(tail, rest, sep);
      hide Split;
      Regroup(c, tail, sep, rest);
      SplitHead(c, tail, sep);
      SplitHead(c, tail + [sep] + rest, sep);
      var parts := Split(tail, sep);
      ReplaceFirst([c] + parts[0], parts, Split(rest, sep));
      assert [""] + (parts + Split(rest, sep)) == ([""] + parts) + Split(rest, sep);
    }
  }

  lemma {:induction false} KeyKeepsPair(fields: Fields, a: string, b: string, sep: char)
    requires HasPair(fields, a, b) && sep !in a && sep !in b
    ensures HasPair(Split(Join(fields, sep), sep), a, b)
  {
    var head, tail := fields[0], fields[1..];
    HasPairStep(fields, a, b);
    SplitConcat(head, Join(tail, sep), sep);
    hide HasPair;
    assert Join(fields, sep) == head + [sep] + Join(tail, sep);
    if HasPair(tail, a, b) {
      KeyKeepsPair(tail, a, b, sep);
      HasPairConcat(Split(head, sep), Split(Join(tail, sep), sep), a, b);
    } else {
      SplitWhole(a, sep);
      SplitWhole(b, sep);
      if |tail| == 1 {
        PairInFront(a, b, []);
        assert [a] + ([b] + []) == [a] + [b];
      } else {
        SplitConcat(b, Join(tail[1..], sep), sep);
        PairInFront(a, b, Split(Join(tail[1..], sep), sep));
      }
    }
  }

  lemma {:induction false} JoinHasChar(fields: Fields, sep: char, i: nat, c: char)
    requires i < |fields| && c in fields[i]
    ensures c in Join(fields, sep)
  {
    if i > 0 {
      JoinHasChar(fields[1..], sep, i - 1, c);
    }
  }

  lemma {:induction false} DropKeepsBlanks(fields: Fields)
    requires SomeBlank(fields)
    ensures SomeBlank(Drop(fields))
  {
    assert fields != [];
    if IsImplicitMatch(fields, 0) {
      assert ' ' !in "-m" && ' ' !in "udp" && ' ' !in "tcp";
      assert fields == fields[..2] + fields[2..];
      SomeBlankConcat(fields[..2], fields[2..]);
      DropKeepsBlanks(fields[2..]);
    } else {
      assert fields == [fields[0]] + fields[1..];
      SomeBlankConcat([fields[0]], fields[1..]);
      SomeBlankConcat([fields[0]], Drop(fields[1..]));
      if SomeBlank(fields[1..]) {
        DropKeepsBlanks(fields[1..]);
      }
    }
  }

  /** A rule keyed like a plain rule has tokens without blanks, and its key falls apart into the plain rule. */
  lemma KeyedLikePlain(fields: Fields, plain: Fields)
    requires forall i :: 0 <= i < |fields| ==> '"' !in fields[i]
    requires AllPlain(plain) && plain != [] && Key(ParseSpec(Join(fields, ' '))) == Join(plain, '\0')
    ensures var tokens := ParseSpec(Join(fields, ' '));
            !SomeBlank(tokens) && Split(Join(Drop(tokens), '\0'), '\0') == plain
  {
    var tokens := ParseSpec(Join(fields, ' '));
    JoinChars(fields, ' ', '"');
    ScanLeavesNoQuotes(Join(fields, ' '), "", None);
    PlainIsQuoteFree(plain);
    hide Scan, SomeBlank, Normalize, Drop;
    QuoteFreeIsTrimmed(tokens);
    NormalizeIsDrop(tokens);
    if SomeBlank(tokens) {
      BlankInKey(tokens);
      JoinIsPlainOf(plain);
      assert false;
    }
    SplitJoin(plain, '\0');
  }

  lemma PlainHasNoNul(word: string)
    requires IsPlain(word)
    ensures '\0' !in word
  {
    assert !IsPlainChar('\0');
  }

  /**
   * If a rule's text is keyed like a plain rule, every plain pair of the rule that is no part of an implicit match
   * is a pair of that plain rule too.
   */
  lemma {:induction false} SameKeyKeepsPair(fields: Fields, plain: Fields, a: string, b: string)
    requires HasPair(fields, a, b) && IsPlain(a) && IsPlain(b)
    requires a != "-m" && b != "-m" && !IsTransport(a) && !IsTransport(b)
    requires forall i :: 0 <= i < |fields| ==> '"' !in fields[i]
    requires AllPlain(plain) && plain != [] && Key(ParseSpec(Join(fields, ' '))) == Join(plain, '\0')
    ensures HasPair(plain, a, b)
  {
    hide Scan, HasPair, SomeBlank, Normalize, Drop;
    var tokens := ParseSpec(Join(fields, ' '));
    KeyedLikePlain(fields, plain);
    JoinKeepsPair(fields, a, b);
    DropKeepsOtherPairs(tokens, a, b);
    PlainHasNoNul(a);
    PlainHasNoNul(b);
    KeyKeepsPair(Drop(tokens), a, b, '\0');
  }

  // ----- How often a word stands in a rule -----

  function Count(fields: Fields, word: string): nat {
    if fields == [] then 0
    else (if fields[0] == word then 1 else 0) + Count(fields[1..], word)
  }

  lemma {:induction false} CountConcat(a: Fields, b: Fields, word: string)
    ensures Count(a + b, word) == Count(a, word) + Count(b, word)
  {
    if a == [] {
      assert a + b == b;
    } else {
      CountConcat(a[1..], b, word);
      assert (a + b)[1..] == a[1..] + b;
    }
  }

  lemma {:induction false} CountsOnce(fields: Fields, word: string)
    ensures Count(fields, word) >= 1 <==> word in fields
  {
    if fields != [] {
      CountsOnce(fields[1..], word);
      assert fields == [fields[0]] + fields[1..];
    }
  }

  /** A word counts twice exactly when it stands in two places. */
  lemma {:induction false} CountsTwice(fields: Fields, word: string)
    ensures Count(fields, word) >= 2 <==> exists i, j :: 0 <= i < j < |fields| && fields[i] == word == fields[j]
  {
    if fields != [] {
      var tail := fields[1..];
      CountsOnce(tail, word);
      CountsTwice(tail, word);
      if i, j :| 0 <= i < j < |tail| && tail[i] == word == tail[j] {
        assert fields[i + 1] == word == fields[j + 1];
      }
      if i, j :| 0 <= i < j < |fields| && fields[i] == word == fields[j] {
        assert tail[j - 1] == word && (i > 0 ==> tail[i - 1] == word);
      }
      if fields[0] == word && word in tail {
        var j :| 0 <= j < |tail| && tail[j] == word;
        assert fields[0] == word == fields[j + 1];
      }
    }
  }

  lemma {:induction false} CountDrop(fields: Fields, word: string)
    requires word != "-m" && !IsTransport(word)
    ensures Count(Drop(fields), word) == Count(fields, word)
  {
    if fields != [] {
      if IsImplicitMatch(fields, 0) {
        CountDrop(fields[2..], word);
        assert fields[1..][1..] == fields[2..];
      } else {
        CountDrop(fields[1..], word);
        assert ([fields[0]] + Drop(fields[1..]))[1..] == Drop(fields[1..]);
      }
    }
  }

  lemma HeadCounts(fields: Fields, word: string)
    requires fields != [] && IsPlain(word)
    ensures Count(fields, word) <= Count(Scan(fields[0], "", None), word) + Count(fields[1..], word)
  {
    hide Scan;
    if fields[0] == word {
      PlainToken(word);
    }
  }

  /** Joined and read back, a plain word stands there at least as often, or some token has a blank. */
  lemma {:induction false} JoinKeepsCount(fields: Fields, word: string)
    requires IsPlain(word)
    ensures var tokens := ParseSpec(Join(fields, ' '));
            Count(tokens, word) >= Count(fields, word) || SomeBlank(tokens)
  {
    hide Scan, SomeBlank, IsPlain;
    if fields != [] {
      var head, tail := fields[0], fields[1..];
      HeadCounts(fields, word);
      if tail == [] {
        assert Join(fields, ' ') == head;
      } else {
        var first, rest := Scan(head, "", None), ParseSpec(Join(tail, ' '));
        assert Join(fields, ' ') == head + [' '] + Join(tail, ' ');
        BlankSeparates(head, Join(tail, ' '), "", None);
        JoinKeepsCount(tail, word);
        SomeBlankConcat(first, rest);
        CountConcat(first, rest, word);
      }
    }
  }

  lemma {:induction false} KeyKeepsCount(fields: Fields, word: string, sep: char)
    requires sep !in word
    ensures Count(Split(Join(fields, sep), sep), word) >= Count(fields, word)
  {
    if fields != [] {
      var head, tail := fields[0], fields[1..];
      if head == word {
        SplitWhole(word, sep);
      }
      if tail == [] {
        assert Join(fields, sep) == head;
      } else {
        KeyKeepsCount(tail, word, sep);
        SplitConcat(head, Join(tail, sep), sep);
        assert Join(fields, sep) == head + [sep] + Join(tail, sep);
        hide Split;
        CountConcat(Split(head, sep), Split(Join(tail, sep), sep), word);
      }
    }
  }

  /**
   * If a rule's text is keyed like a plain rule, a plain word that is no part of an implicit match stands in that
   * plain rule at least as often.
   */
  lemma {:induction false} SameKeyKeepsCount(fields: Fields, plain: Fields, word: string)
    requires IsPlain(word) && word != "-m" && !IsTransport(word)
    requires forall i :: 0 <= i < |fields| ==> '"' !in fields[i]
    requires AllPlain(plain) && plain != [] && Key(ParseSpec(Join(fields, ' '))) == Join(plain, '\0')
    ensures Count(fields, word) <= Count(plain, word)
  {
    hide Scan, SomeBlank, Normalize, Drop, Count;
    var tokens := ParseSpec(Join(fields, ' '));
    KeyedLikePlain(fields, plain);
    JoinKeepsCount(fields, word);
    CountDrop(tokens, word);
    PlainHasNoNul(word);
    KeyKeepsCount(Drop(tokens), word, '\0');
  }

  lemma QuoteFreeIsTrimmed(fields: Fields)
    requires AllQuoteFree(fields)
    ensures AllTrimmed(fields)
  {
    forall i | 0 <= i < |fields| ensures Trimmed(fields[i]) {
      assert QuoteFree(fields[i]);
    }
  }

  lemma BlankInKey(tokens: Fields)
    requires SomeBlank(tokens)
    ensures ' ' in Join(Drop(tokens), '\0')
  {
    DropKeepsBlanks(tokens);
    var i :| 0 <= i < |Drop(tokens)| && ' ' in Drop(tokens)[i];
    JoinHasChar(Drop(tokens), '\0', i, ' ');
  }

  lemma JoinIsPlainOf(plain: Fields)
    requires AllPlain(plain)
    ensures ' ' !in Join(plain, '\0')
  {
    forall i | 0 <= i < |plain| ensures ' ' !in plain[i] {
      assert IsPlain(plain[i]);
    }
    JoinChars(plain, '\0', ' ');
  }
}
