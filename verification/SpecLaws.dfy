// What reading and normalising a rule must do, said in the characters and words themselves.
module SpecLaws {
  import opened Sequences
  import opened Results
  import opened SpecText

  // ----- Reading a line -----

  /** A field in double quotes, in single quotes, or bare. */
  predicate Shows(text: string, field: string) {
    || (text == "\"" + field + "\"" && '"' !in field)
    || (text == "'" + field + "'" && '\'' !in field)
    || (text == field && forall i :: 0 <= i < |field| ==> field[i] !in {' ', '\t', '"', '\''})
  }

  predicate Gap(s: string) {
    forall i :: 0 <= i < |s| ==> s[i] == ' ' || s[i] == '\t'
  }

  /** Texts with a gap behind each. */
  function Laid(texts: seq<string>, gaps: seq<string>): string
    requires |texts| == |gaps|
  {
    if texts == [] then "" else texts[0] + gaps[0] + Laid(texts[1..], gaps[1..])
  }

  lemma ScanCons(c: char, rest: string, word: string, quote: Option<char>)
    ensures Scan([c] + rest, word, quote) ==
            match quote
            case Some(q) => if c == q then Scan(rest, word, None) else Scan(rest, word + [c], quote)
            case None =>
              if c == '"' || c == '\'' then Scan(rest, word, Some(c))
              else if c == ' ' || c == '\t' then (if word == "" then [] else [word]) + Scan(rest, "", None)
              else Scan(rest, word + [c], None)
  {
    assert ([c] + rest)[1..] == rest;
  }

  /** Up to the quote that closes it everything belongs to the word. */
  lemma {:induction false} ScanInside(field: string, q: char, rest: string, word: string)
    requires q !in field
    ensures Scan(field + [q] + rest, word, Some(q)) == Scan(rest, word + field, None)
  {
    hide Scan;
    if field == "" {
      assert field + [q] + rest == [q] + rest && word + field == word;
      ScanCons(q, rest, word, Some(q));
    } else {
      var c, tail := field[0], field[1..];
      assert field + [q] + rest == [c] + (tail + [q] + rest);
      ScanCons(c, tail + [q] + rest, word, Some(q));
      ScanInside(tail, q, rest, word + [c]);
      assert word + [c] + tail == word + field;
    }
  }

  lemma {:induction false} ScanPlainly(field: string, rest: string, word: string)
    requires forall i :: 0 <= i < |field| ==> field[i] !in {' ', '\t', '"', '\''}
    ensures Scan(field + rest, word, None) == Scan(rest, word + field, None)
  {
    hide Scan;
    if field == "" {
      assert field + rest == rest && word + field == word;
    } else {
      var c, tail := field[0], field[1..];
      assert field + rest == [c] + (tail + rest);
      ScanCons(c, tail + rest, word, None);
      ScanPlainly(tail, rest, word + [c]);
      assert word + [c] + tail == word + field;
    }
  }

  lemma ScanShown(text: string, field: string, rest: string)
    requires Shows(text, field)
    ensures Scan(text + rest, "", None) == Scan(rest, field, None)
  {
    hide Scan;
    assert "" + field == field;
    if text == "\"" + field + "\"" && '"' !in field {
      assert text + rest == ['"'] + (field + ['"'] + rest);
      ScanCons('"', field + ['"'] + rest, "", None);
      ScanInside(field, '"', rest, "");
    } else if text == "'" + field + "'" && '\'' !in field {
      assert text + rest == ['\''] + (field + ['\''] + rest);
      ScanCons('\'', field + ['\''] + rest, "", None);
      ScanInside(field, '\'', rest, "");
    } else {
      ScanPlainly(field, rest, "");
    }
  }

  lemma {:induction false} ScanGap(gap: string, rest: string)
    requires Gap(gap)
    ensures Scan(gap + rest, "", None) == Scan(rest, "", None)
  {
    hide Scan;
    if gap == "" {
      assert gap + rest == rest;
    } else {
      assert gap + rest == [gap[0]] + (gap[1..] + rest);
      ScanCons(gap[0], gap[1..] + rest, "", None);
      ScanGap(gap[1..], rest);
      assert [] + Scan(rest, "", None) == Scan(rest, "", None);
    }
  }

  /** A gap behind a word ends it. */
  lemma GapEnds(gap: string, rest: string, word: string)
    requires Gap(gap) && gap != "" && word != ""
    ensures Scan(gap + rest, word, None) == [word] + Scan(rest, "", None)
  {
    hide Scan;
    assert gap + rest == [gap[0]] + (gap[1..] + rest);
    ScanCons(gap[0], gap[1..] + rest, word, None);
    ScanGap(gap[1..], rest);
  }

  lemma LineEnds(word: string)
    requires word != ""
    ensures Scan("", word, None) == [word] && Scan("", "", None) == []
  {
  }

  /**
   * A line of fields, each in either kind of quotes or bare, with blanks and tabs between them and around, reads as
   * those fields.
   */
  lemma {:induction false} LaidFieldsAreRead(lead: string, texts: seq<string>, gaps: seq<string>, fields: Fields)
    requires |texts| == |gaps| == |fields| && Gap(lead)
    requires forall i :: 0 <= i < |fields| ==> fields[i] != "" && Shows(texts[i], fields[i]) && Gap(gaps[i])
    requires forall i :: 0 <= i < |fields| - 1 ==> gaps[i] != ""
    ensures ParseSpec(lead + Laid(texts, gaps)) == fields
    decreases |fields|
  {
    hide Scan, Shows;
    ScanGap(lead, Laid(texts, gaps));
    if fields == [] {
      LineEnds("x");
    } else {
      var rest := Laid(texts[1..], gaps[1..]);
      assert texts[0] + gaps[0] + rest == texts[0] + (gaps[0] + rest);
      ScanShown(texts[0], fields[0], gaps[0] + rest);
      LaidFieldsAreRead("", texts[1..], gaps[1..], fields[1..]);
      assert "" + rest == rest;
      HeadTail(fields);
      if gaps[0] == "" {
        assert |fields| == 1 && rest == "" && gaps[0] + rest == "";
        LineEnds(fields[0]);
      } else {
        GapEnds(gaps[0], rest, fields[0]);
      }
    }
  }

  /** A quote that is never closed takes the rest of the line as one field. */
  lemma {:induction false} OpenQuoteTakesTheRest(q: char, rest: string, word: string)
    requires q !in rest
    ensures Scan(rest, word, Some(q)) == Scan("", word + rest, None)
    ensures q == '"' || q == '\'' ==> ParseSpec([q] + rest) == if rest == "" then [] else [rest]
  {
    OpenQuoteKeeps(q, rest, word);
    OpenQuoteKeeps(q, rest, "");
    assert "" + rest == rest;
    if rest != "" {
      LineEnds(rest);
    }
    LineEnds("x");
    hide Scan;
    ScanCons(q, rest, "", None);
  }

  lemma {:induction false} OpenQuoteKeeps(q: char, rest: string, word: string)
    requires q !in rest
    ensures Scan(rest, word, Some(q)) == Scan("", word + rest, None)
  {
    if rest == "" {
      assert word + rest == word;
    } else {
      OpenQuoteKeeps(q, rest[1..], word + [rest[0]]);
      assert word + [rest[0]] + rest[1..] == word + rest;
    }
  }

  // ----- Normalising -----

  predicate QuotesOnly(s: string) {
    forall i :: 0 <= i < |s| ==> s[i] == '"' || s[i] == '\''
  }

  predicate BareEnds(s: string) {
    s != "" ==> s[0] != '"' && s[0] != '\'' && s[|s| - 1] != '"' && s[|s| - 1] != '\''
  }

  lemma {:induction false} FrontQuotesGo(front: string, s: string)
    requires QuotesOnly(front)
    ensures TrimQuotesStart(front + s) == TrimQuotesStart(s)
  {
    if front == "" {
      assert front + s == s;
    } else {
      FrontQuotesGo(front[1..], s);
      assert (front + s)[1..] == front[1..] + s;
    }
  }

  lemma {:induction false} BackQuotesGo(s: string, back: string)
    requires QuotesOnly(back)
    ensures TrimQuotesEnd(s + back) == TrimQuotesEnd(s)
  {
    if back == "" {
      assert s + back == s;
    } else {
      var n := |back| - 1;
      BackQuotesGo(s, back[..n]);
      assert (s + back)[..|s + back| - 1] == s + back[..n];
    }
  }

  /** Trimming takes quotes of either kind off both ends, and nothing else. */
  lemma TrimQuotesTakesEnds(front: string, s: string, back: string)
    requires QuotesOnly(front) && QuotesOnly(back) && BareEnds(s)
    ensures TrimQuotes(front + s + back) == s
  {
    assert front + s + back == front + (s + back);
    FrontQuotesGo(front, s + back);
    if s == "" {
      assert s + back == back && back + "" == back;
      FrontQuotesGo(back, "");
    } else {
      assert TrimQuotesStart(s + back) == s + back;
      BackQuotesGo(s, back);
    }
  }

  /** What normalising makes of the rest of a rule, given the field in front of it. */
  function NormalRest(before: string, rest: Fields): Fields
    decreases |rest|
  {
    if rest == [] then []
    else if |rest| >= 2 && rest[0] == "-m" && (rest[1] == "udp" || rest[1] == "tcp") then NormalRest(rest[1], rest[2..])
    else [if before == "--comment" then TrimQuotes(rest[0]) else rest[0]] + NormalRest(rest[0], rest[1..])
  }

  lemma NormalRestStep(before: string, rest: Fields)
    requires rest != []
    ensures NormalRest(before, rest) ==
            if |rest| >= 2 && rest[0] == "-m" && (rest[1] == "udp" || rest[1] == "tcp")
            then NormalRest(rest[1], rest[2..])
            else [if before == "--comment" then TrimQuotes(rest[0]) else rest[0]] + NormalRest(rest[0], rest[1..])
  {
  }

  lemma NothingIsNormal(before: string, fields: Fields)
    ensures NormalRest(before, []) == [] && NormalizeFrom(fields, |fields|) == []
  {
  }

  lemma {:induction false} NormalizeFromIsRest(fields: Fields, i: nat)
    requires i <= |fields|
    ensures NormalizeFrom(fields, i) == NormalRest(if i > 0 then fields[i - 1] else "", fields[i..])
    decreases |fields| - i
  {
    var before, rest := if i > 0 then fields[i - 1] else "", fields[i..];
    hide TrimQuotes, NormalRest;
    if i == |fields| {
      NothingIsNormal(before, fields);
    } else {
      NormalRestStep(before, rest);
      assert i + 1 < |fields| ==> rest[1] == fields[i + 1];
      if IsImplicitMatch(fields, i) {
        NormalizeFromIsRest(fields, i + 2);
        assert rest[2..] == fields[i + 2..];
      } else {
        NormalizeFromIsRest(fields, i + 1);
        assert rest[1..] == fields[i + 1..];
      }
    }
  }

  lemma NormalizeIsRest(fields: Fields)
    ensures Normalize(fields) == NormalRest("", fields)
  {
    NormalizeFromIsRest(fields, 0);
    assert fields[0..] == fields;
  }

  /** The field in front matters only if it is the comment option. */
  lemma BeforeMatters(a: string, b: string, rest: Fields)
    requires a != "--comment" && b != "--comment"
    ensures NormalRest(a, rest) == NormalRest(b, rest)
  {
  }

  lemma {:induction false} MatchVanishes(before: string, front: Fields, word: string, back: Fields)
    requires word == "udp" || word == "tcp"
    requires var last := if front == [] then before else front[|front| - 1]; last != "-m" && last != "--comment"
    ensures NormalRest(before, front + (["-m", word] + back)) == NormalRest(before, front + back)
    decreases |front|
  {
    hide NormalRest, TrimQuotes;
    var added, plain := front + (["-m", word] + back), front + back;
    if front == [] {
      assert added == ["-m", word] + back && plain == back;
      NormalRestStep(before, added);
      assert added[2..] == back;
      BeforeMatters(word, before, back);
    } else if |front| >= 2 && front[0] == "-m" && (front[1] == "udp" || front[1] == "tcp") {
      MatchVanishes(front[1], front[2..], word, back);
      NormalRestStep(before, added);
      NormalRestStep(before, plain);
      assert added[2..] == front[2..] + (["-m", word] + back) && plain[2..] == front[2..] + back;
      assert added[1] == front[1] == plain[1];
    } else {
      MatchVanishes(front[0], front[1..], word, back);
      NormalRestStep(before, added);
      NormalRestStep(before, plain);
      assert added[1..] == front[1..] + (["-m", word] + back) && plain[1..] == front[1..] + back;
      assert |front| >= 2 ==> added[1] == front[1] == plain[1];
    }
  }

  /**
   * A match the kernel adds by itself, `-m udp` or `-m tcp`, makes no difference to a rule's normal form wherever it
   * stands between options.
   */
  lemma ImplicitMatchVanishes(front: Fields, word: string, back: Fields)
    requires word == "udp" || word == "tcp"
    requires front != [] ==> front[|front| - 1] != "-m" && front[|front| - 1] != "--comment"
    ensures Normalize(front + (["-m", word] + back)) == Normalize(front + back)
  {
    hide NormalRest;
    NormalizeIsRest(front + (["-m", word] + back));
    NormalizeIsRest(front + back);
    MatchVanishes("", front, word, back);
  }

  lemma {:induction false} NormalRestKeeps(before: string, rest: Fields)
    requires forall i :: 0 <= i < |rest| - 1 && rest[i] == "-m" ==> rest[i + 1] != "udp" && rest[i + 1] != "tcp"
    ensures |NormalRest(before, rest)| == |rest|
    ensures forall i :: 0 <= i < |rest| ==>
              NormalRest(before, rest)[i] ==
              if (if i == 0 then before else rest[i - 1]) == "--comment" then TrimQuotes(rest[i]) else rest[i]
    decreases |rest|
  {
    hide TrimQuotes;
    if rest != [] {
      var tail := rest[1..];
      forall i | 0 <= i < |tail| - 1 && tail[i] == "-m" ensures tail[i + 1] != "udp" && tail[i + 1] != "tcp" {
        assert rest[i + 1] == tail[i] && rest[i + 1 + 1] == tail[i + 1];
      }
      NormalRestKeeps(rest[0], tail);
      assert rest[0] == "-m" && |rest| >= 2 ==> rest[0 + 1] != "udp" && rest[0 + 1] != "tcp";
    }
  }

  /** Without such matches every field stays in its place; only the values of comments lose their quotes. */
  lemma NormalizeKeepsFields(fields: Fields)
    requires forall i :: 0 <= i < |fields| - 1 && fields[i] == "-m" ==> fields[i + 1] != "udp" && fields[i + 1] != "tcp"
    ensures |Normalize(fields)| == |fields|
    ensures forall i :: 0 <= i < |fields| ==>
              Normalize(fields)[i] ==
              if i > 0 && fields[i - 1] == "--comment" then TrimQuotes(fields[i]) else fields[i]
  {
    NormalizeIsRest(fields);
    NormalRestKeeps("", fields);
  }
}
