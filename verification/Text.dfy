// The string operations the agent relies on: trimming, splitting, joining and decimal numbers.
module Text {

  // ----- Characters and trimming -----

  /** Unicode White_Space, the class that trimming removes. */
  predicate IsWhitespace(c: char) {
    var n := c as int;
    || 0x09 <= n <= 0x0D || n == 0x20 || n == 0x85 || n == 0xA0 || n == 0x1680
    || 0x2000 <= n <= 0x200A || n == 0x2028 || n == 0x2029 || n == 0x202F || n == 0x205F || n == 0x3000
  }

  function TrimStart(s: string): (r: string)
    ensures |r| <= |s| && (r != "" ==> !IsWhitespace(r[0]))
  {
    if s != "" && IsWhitespace(s[0]) then TrimStart(s[1..]) else s
  }

  function TrimEnd(s: string): (r: string)
    ensures r <= s && (r != "" ==> !IsWhitespace(r[|r| - 1]))
  {
    if s != "" && IsWhitespace(s[|s| - 1]) then TrimEnd(s[..|s| - 1]) else s
  }

  function Trim(s: string): (r: string)
    ensures r != "" ==> !IsWhitespace(r[0]) && !IsWhitespace(r[|r| - 1])
    ensures |r| <= |s|
  {
    TrimEnd(TrimStart(s))
  }

  predicate AllWhitespace(s: string) {
    forall i :: 0 <= i < |s| ==> IsWhitespace(s[i])
  }

  lemma {:induction false} TrimStartTakes(s: string)
    ensures exists front :: AllWhitespace(front) && s == front + TrimStart(s)
  {
    if s != "" && IsWhitespace(s[0]) {
      TrimStartTakes(s[1..]);
      var front :| AllWhitespace(front) && s[1..] == front + TrimStart(s[1..]);
      assert s == ([s[0]] + front) + TrimStart(s) && AllWhitespace([s[0]] + front);
    } else {
      assert AllWhitespace("") && s == "" + TrimStart(s);
    }
  }

  lemma {:induction false} TrimEndTakes(s: string)
    ensures exists back :: AllWhitespace(back) && s == TrimEnd(s) + back
  {
    if s != "" && IsWhitespace(s[|s| - 1]) {
      TrimEndTakes(s[..|s| - 1]);
      var back :| AllWhitespace(back) && s[..|s| - 1] == TrimEnd(s[..|s| - 1]) + back;
      assert s == TrimEnd(s) + (back + [s[|s| - 1]]) && AllWhitespace(back + [s[|s| - 1]]);
    } else {
      assert AllWhitespace("") && s == TrimEnd(s) + "";
    }
  }

  /** Trimming takes whitespace off both ends and nothing else. */
  lemma TrimTakesEnds(s: string) returns (front: string, back: string)
    ensures s == front + Trim(s) + back && AllWhitespace(front) && AllWhitespace(back)
    ensures Trim(s) != "" ==> !IsWhitespace(Trim(s)[0]) && !IsWhitespace(Trim(s)[|Trim(s)| - 1])
  {
    TrimStartTakes(s);
    TrimEndTakes(TrimStart(s));
    hide TrimStart, TrimEnd, AllWhitespace;
    front :| AllWhitespace(front) && s == front + TrimStart(s);
    back :| AllWhitespace(back) && TrimStart(s) == TrimEnd(TrimStart(s)) + back;
  }

  lemma {:induction false} SkipStart(front: string, s: string)
    requires AllWhitespace(front)
    ensures TrimStart(front + s) == TrimStart(s)
  {
    if front == "" {
      assert front + s == s;
    } else {
      SkipStart(front[1..], s);
      assert (front + s)[1..] == front[1..] + s;
    }
  }

  lemma {:induction false} SkipEnd(s: string, back: string)
    requires AllWhitespace(back)
    ensures TrimEnd(s + back) == TrimEnd(s)
  {
    if back == "" {
      assert s + back == s;
    } else {
      var n := |back| - 1;
      SkipEnd(s, back[..n]);
      assert (s + back)[..|s + back| - 1] == s + back[..n];
    }
  }

  lemma {:induction false} TrimmedAway(s: string)
    requires AllWhitespace(s)
    ensures TrimStart(s) == "" && Trim(s) == ""
  {
    if s != "" {
      TrimmedAway(s[1..]);
    }
  }

  lemma {:induction false} StartIsKept(s: string, back: string)
    requires !AllWhitespace(s)
    ensures TrimStart(s + back) == TrimStart(s) + back
  {
    if IsWhitespace(s[0]) {
      StartIsKept(s[1..], back);
      assert (s + back)[1..] == s[1..] + back;
    }
  }

  /** Whitespace around a text makes no difference. */
  lemma TrimAround(front: string, s: string, back: string)
    requires AllWhitespace(front) && AllWhitespace(back)
    ensures Trim(front + s + back) == Trim(s)
  {
    assert front + s + back == front + (s + back);
    SkipStart(front, s + back);
    if AllWhitespace(s) {
      TrimmedAway(s);
      TrimmedAway(s + back);
    } else {
      StartIsKept(s, back);
      SkipEnd(TrimStart(s), back);
    }
  }

  lemma TrimTwice(s: string)
    ensures Trim(Trim(s)) == Trim(s)
  {
    hide Trim;
    var front, back := TrimTakesEnds(s);
    TrimAround(front, Trim(s), back);
  }

  /** A text is blank when trimming leaves nothing of it. */
  lemma BlankIsWhitespace(s: string)
    ensures Trim(s) == "" <==> AllWhitespace(s)
  {
    if AllWhitespace(s) {
      TrimmedAway(s);
    }
    hide Trim;
    var front, back := TrimTakesEnds(s);
  }

  /** The code points with the White_Space property of Unicode. */
  const WHITE_SPACE: set<int> :=
    {9, 10, 11, 12, 13, 32, 133, 160, 5760, 8192, 8193, 8194, 8195, 8196, 8197, 8198, 8199, 8200, 8201, 8202,
     8232, 8233, 8239, 8287, 12288}

  /** Trimming leaves nothing exactly of texts of such characters. */
  lemma TrimIsUnicode(s: string)
    ensures Trim(s) == "" <==> forall i :: 0 <= i < |s| ==> s[i] as int in WHITE_SPACE
  {
    BlankIsWhitespace(s);
    hide Trim;
  }

  /** Drops every occurrence of one character. */
  function Without(s: string, c: char): (r: string)
    ensures c !in r
  {
    if s == "" then "" else (if s[0] == c then "" else [s[0]]) + Without(s[1..], c)
  }

  lemma WithoutAbsent(s: string, c: char)
    requires c !in s
    ensures Without(s, c) == s
  {
    if s != "" {
      assert s == [s[0]] + s[1..];
    }
  }

  lemma WithoutCons(first: char, rest: string, c: char)
    ensures Without([first] + rest, c) == (if first == c then "" else [first]) + Without(rest, c)
  {
    assert ([first] + rest)[1..] == rest;
  }

  lemma WithoutNothing(c: char)
    ensures Without("", c) == ""
  {
  }

  lemma {:induction false} WithoutConcat(a: string, b: string, c: char)
    ensures Without(a + b, c) == Without(a, c) + Without(b, c)
  {
    hide Without;
    if a == "" {
      WithoutNothing(c);
      assert a + b == b;
    } else {
      var tail := a[1..];
      WithoutConcat(tail, b, c);
      WithoutCons(a[0], tail, c);
      WithoutCons(a[0], tail + b, c);
      assert a == [a[0]] + tail && a + b == [a[0]] + (tail + b);
      var front := if a[0] == c then "" else [a[0]];
      assert (front + Without(tail, c)) + Without(b, c) == front + (Without(tail, c) + Without(b, c));
    }
  }

  lemma {:induction false} WithoutAll(s: string, c: char)
    requires forall i :: 0 <= i < |s| ==> s[i] == c
    ensures Without(s, c) == ""
  {
    if s != "" {
      WithoutAll(s[1..], c);
    }
  }

  /** The text with occurrences of one more character strewn in anywhere. */
  predicate Strewn(text: string, body: string, c: char) {
    if body == "" then text == ""
    else
      || (body[0] == c && Strewn(text, body[1..], c))
      || (text != "" && text[0] == body[0] && Strewn(text[1..], body[1..], c))
  }

  /** Dropping a character undoes strewing it in. */
  lemma {:induction false} WithoutUndoesStrewing(text: string, body: string, c: char)
    requires c !in text && Strewn(text, body, c)
    ensures Without(body, c) == text
  {
    if body != "" {
      if body[0] == c {
        assert text == "" || text[0] != body[0];
        WithoutUndoesStrewing(text, body[1..], c);
      } else {
        WithoutUndoesStrewing(text[1..], body[1..], c);
        assert text == [text[0]] + text[1..];
      }
    }
  }

  // ----- Splitting and joining -----

  function Split(s: string, sep: char): (parts: seq<string>)
    ensures |parts| >= 1
    ensures forall i :: 0 <= i < |parts| ==> sep !in parts[i]
  {
    if s == "" then [""]
    else
      var rest := Split(s[1..], sep);
      if s[0] == sep then [""] + rest else [[s[0]] + rest[0]] + rest[1..]
  }

  function Join(parts: seq<string>, sep: char): string {
    if parts == [] then ""
    else if |parts| == 1 then parts[0]
    else parts[0] + [sep] + Join(parts[1..], sep)
  }

  lemma {:induction false} SplitWhole(a: string, sep: char)
    requires sep !in a
    ensures Split(a, sep) == [a]
  {
    if a != "" {
      SplitWhole(a[1..], sep);
      assert a == [a[0]] + a[1..];
    }
  }

  lemma {:induction false} SplitAt(a: string, b: string, sep: char)
    requires sep !in a
    ensures Split(a + [sep] + b, sep) == [a] + Split(b, sep)
  {
    if a == "" {
      assert a + [sep] + b == [sep] + b;
    } else {
      SplitAt(a[1..], b, sep);
      assert (a + [sep] + b)[1..] == a[1..] + [sep] + b;
      assert a == [a[0]] + a[1..];
    }
  }

  /** Splitting undoes joining whenever no part contains the separator. */
  lemma {:induction false} SplitJoin(parts: seq<string>, sep: char)
    requires parts != []
    requires forall i :: 0 <= i < |parts| ==> sep !in parts[i]
    ensures Split(Join(parts, sep), sep) == parts
  {
    if |parts| == 1 {
      SplitWhole(parts[0], sep);
    } else {
      SplitJoin(parts[1..], sep);
      SplitAt(parts[0], Join(parts[1..], sep), sep);
      assert parts == [parts[0]] + parts[1..];
    }
  }

  /** Joining undoes splitting. */
  lemma {:induction false} JoinSplit(s: string, sep: char)
    ensures Join(Split(s, sep), sep) == s
  {
    if s != "" {
      JoinSplit(s[1..], sep);
      var rest := Split(s[1..], sep);
      assert s == [s[0]] + s[1..];
      if s[0] == sep {
        assert ([""] + rest)[1..] == rest;
      } else {
        var parts := [[s[0]] + rest[0]] + rest[1..];
        assert parts[1..] == rest[1..];
      }
    }
  }

  lemma JoinCons(head: string, tail: seq<string>, sep: char)
    requires tail != []
    ensures Join([head] + tail, sep) == head + [sep] + Join(tail, sep)
  {
    assert ([head] + tail)[1..] == tail;
  }

  /** A joined text uses the characters of its parts and the separator, nothing else. */
  lemma {:induction false} JoinChars(parts: seq<string>, sep: char, c: char)
    requires c != sep
    requires forall i :: 0 <= i < |parts| ==> c !in parts[i]
    ensures c !in Join(parts, sep)
  {
    if |parts| > 1 {
      JoinChars(parts[1..], sep, c);
    }
  }

  /** Two texts cut at their first separator agree piece by piece. */
  lemma {:induction false} CutAtFirst(a: string, b: string, c: string, d: string, sep: char)
    requires sep !in a && sep !in c
    requires a + [sep] + b == c + [sep] + d
    ensures a == c && b == d
  {
    var x, y := a + [sep] + b, c + [sep] + d;
    assert x[|a|] == sep && y[|c|] == sep;
    assert a == x[..|a|] && c == y[..|c|];
    assert b == x[|a| + 1..] && d == y[|c| + 1..];
  }

  lemma CutTwice(a: string, b: string, c: string, a': string, b': string, c': string, sep: char)
    requires sep !in a && sep !in a' && sep !in b && sep !in b'
    requires a + [sep] + b + [sep] + c == a' + [sep] + b' + [sep] + c'
    ensures a == a' && b == b' && c == c'
  {
    var rest, rest' := b + [sep] + c, b' + [sep] + c';
    assert a + [sep] + b + [sep] + c == a + [sep] + rest;
    assert a' + [sep] + b' + [sep] + c' == a' + [sep] + rest';
    CutAtFirst(a, rest, a', rest', sep);
    CutAtFirst(b, c, b', c', sep);
  }

  // ----- Plain words -----

  predicate IsPlainChar(c: char) {
    !IsWhitespace(c) && c != '"' && c != '\'' && c != '\0'
  }

  /** A nonempty word free of whitespace, quotes and NUL: it survives tokenising and key building. */
  predicate IsPlain(s: string) {
    s != "" && forall i :: 0 <= i < |s| ==> IsPlainChar(s[i])
  }

  predicate AllPlain(words: seq<string>) {
    forall i :: 0 <= i < |words| ==> IsPlain(words[i])
  }

  lemma {:induction false} JoinIsPlain(words: seq<string>, sep: char)
    requires words != [] && AllPlain(words) && IsPlainChar(sep)
    ensures IsPlain(Join(words, sep))
  {
    if |words| > 1 {
      JoinIsPlain(words[1..], sep);
    }
  }

  // ----- Decimal numbers -----

  predicate IsDigit(c: char) {
    '0' <= c <= '9'
  }

  predicate AllDigits(s: string) {
    s != "" && forall i :: 0 <= i < |s| ==> IsDigit(s[i])
  }

  function DigitsValue(s: string): (n: nat)
    requires forall i :: 0 <= i < |s| ==> IsDigit(s[i])
  {
    if s == "" then 0
    else
      var last := s[|s| - 1];
      assert IsDigit(last);
      10 * DigitsValue(s[..|s| - 1]) + (last as int - '0' as int)
  }

  function Decimal(n: nat): (s: string)
    ensures AllDigits(s)
  {
    var last := [('0' as int + n % 10) as char];
    if n < 10 then last else Decimal(n / 10) + last
  }

  lemma {:induction false} DecimalValue(n: nat)
    ensures DigitsValue(Decimal(n)) == n
  {
    var last := [('0' as int + n % 10) as char];
    if n < 10 {
      assert last[..0] == "";
    } else {
      DecimalValue(n / 10);
      assert Decimal(n)[..|Decimal(n)| - 1] == Decimal(n / 10);
    }
  }

  lemma DecimalInjective(m: nat, n: nat)
    requires Decimal(m) == Decimal(n)
    ensures m == n
  {
    DecimalValue(m);
    DecimalValue(n);
  }
}
