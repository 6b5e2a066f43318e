// Lexical path cleaning: a stack of components, and the walk through directories that it must preserve.
module PosixPath {
  import opened Sequences
  import opened Text

  // ----- Paths as walks -----

  /** Backslashes count as slashes. */
  function Slashed(path: string): (r: string)
    ensures |r| == |path| && '\\' !in r
    ensures '\\' !in path ==> r == path
  {
    seq(|path|, i requires 0 <= i < |path| => if path[i] == '\\' then '/' else path[i])
  }

  predicate IsAbsolute(path: string) {
    path != "" && (path[0] == '/' || path[0] == '\\')
  }

  function Components(path: string): seq<string> {
    Split(Slashed(path), '/')
  }

  type Directory = seq<string>

  /** Following one component from a directory; the parent of the root is the root. */
  function Follow(dir: Directory, part: string): Directory {
    if part == "" || part == "." then dir
    else if part == ".." then (if dir == [] then [] else dir[..|dir| - 1])
    else dir + [part]
  }

  function FollowAll(dir: Directory, parts: seq<string>): Directory {
    if parts == [] then dir else Follow(FollowAll(dir, parts[..|parts| - 1]), parts[|parts| - 1])
  }

  /** Where a path leads from a working directory. */
  function Walk(path: string, cwd: Directory): Directory {
    FollowAll(if IsAbsolute(path) then [] else cwd, Components(path))
  }

  // ----- Cleaning -----

  function PushPart(parts: seq<string>, part: string, absolute: bool): seq<string> {
    if part == "" || part == "." then parts
    else if part == ".." then
      if parts != [] && parts[|parts| - 1] != ".." then parts[..|parts| - 1]
      else if absolute then parts
      else parts + [part]
    else parts + [part]
  }

  function CleanParts(components: seq<string>, absolute: bool): seq<string> {
    if components == [] then []
    else PushPart(CleanParts(components[..|components| - 1], absolute), components[|components| - 1], absolute)
  }

  function Render(parts: seq<string>, absolute: bool): string {
    if absolute then "/" + Join(parts, '/')
    else if parts == [] then "."
    else Join(parts, '/')
  }

  function CleanPath(path: string): string {
    Render(CleanParts(Components(path), IsAbsolute(path)), IsAbsolute(path))
  }

  method CleanPosixPath(path: string) returns (cleaned: string)
    ensures cleaned == CleanPath(path)
  {
    var slashed := Slashed(path);
    var absolute := slashed != "" && slashed[0] == '/';
    var components := Split(slashed, '/');
    var parts: seq<string> := [];
    for i := 0 to |components|
      invariant parts == CleanParts(components[..i], absolute)
    {
      assert components[..i + 1][..i] == components[..i];
      var part := components[i];
      if part == "" || part == "." {
      } else if part == ".." {
        if parts != [] && parts[|parts| - 1] != ".." {
          parts := parts[..|parts| - 1];
        } else if !absolute {
          parts := parts + [part];
        }
      } else {
        parts := parts + [part];
      }
    }
    assert components[..|components|] == components;
    if absolute {
      cleaned := if parts == [] then "/" else "/" + Join(parts, '/');
    } else {
      cleaned := if parts == [] then "." else Join(parts, '/');
    }
  }

  // ----- The form of a cleaned path -----

  predicate IsName(part: string) {
    part != "" && part != "." && part != ".." && '/' !in part && '\\' !in part
  }

  /** `ups` parent steps followed by names; an absolute path has no parent step. */
  predicate Canonical(parts: seq<string>, ups: nat, absolute: bool) {
    && ups <= |parts|
    && (forall i :: 0 <= i < ups ==> parts[i] == "..")
    && (forall i :: ups <= i < |parts| ==> IsName(parts[i]))
    && (absolute ==> ups == 0)
  }

  lemma {:induction false} CleanPartsIsCanonical(components: seq<string>, absolute: bool) returns (ups: nat)
    requires forall i :: 0 <= i < |components| ==> '/' !in components[i] && '\\' !in components[i]
    ensures Canonical(CleanParts(components, absolute), ups, absolute)
  {
    if components == [] {
      ups := 0;
    } else {
      var n := |components| - 1;
      ups := CleanPartsIsCanonical(components[..n], absolute);
      var parts := CleanParts(components[..n], absolute);
      if components[n] == ".." && ups == |parts| && !absolute {
        ups := ups + 1;
      }
    }
  }

  lemma ComponentsAreClean(path: string)
    ensures forall i :: 0 <= i < |Components(path)| ==> '/' !in Components(path)[i] && '\\' !in Components(path)[i]
  {
    SplitKeepsOut(Slashed(path), '/', '\\');
  }

  lemma {:induction false} SplitKeepsOut(s: string, sep: char, c: char)
    requires c !in s
    ensures forall i :: 0 <= i < |Split(s, sep)| ==> c !in Split(s, sep)[i]
  {
    if s != "" {
      SplitKeepsOut(s[1..], sep, c);
    }
  }

  /** Cleaning components leads where the components lead. */
  lemma {:induction false} CleanPartsWalk(components: seq<string>, absolute: bool, dir: Directory)
    requires forall i :: 0 <= i < |components| ==> '/' !in components[i] && '\\' !in components[i]
    requires absolute ==> dir == []
    ensures FollowAll(dir, CleanParts(components, absolute)) == FollowAll(dir, components)
  {
    if components != [] {
      var n := |components| - 1;
      var part, parts := components[n], CleanParts(components[..n], absolute);
      CleanPartsWalk(components[..n], absolute, dir);
      var ups := CleanPartsIsCanonical(components[..n], absolute);
      if part == ".." && parts != [] && parts[|parts| - 1] != ".." {
        assert IsName(parts[|parts| - 1]);
      } else if part == ".." && absolute {
        assert ups == 0 && parts == [];
      } else {
        assert (parts + [part])[..|parts|] == parts;
      }
    }
  }

  // ----- Reading a cleaned path back -----

  lemma CanonicalHasNoSlash(parts: seq<string>, ups: nat, absolute: bool)
    requires Canonical(parts, ups, absolute)
    ensures forall i :: 0 <= i < |parts| ==> '/' !in parts[i] && '\\' !in parts[i] && parts[i] != ""
  {
  }

  lemma RenderedComponents(parts: seq<string>, ups: nat, absolute: bool)
    requires Canonical(parts, ups, absolute)
    ensures IsAbsolute(Render(parts, absolute)) == absolute
    ensures Components(Render(parts, absolute)) ==
            if absolute then [""] + (if parts == [] then [""] else parts)
            else if parts == [] then ["."] else parts
  {
    CanonicalHasNoSlash(parts, ups, absolute);
    hide Canonical;
    var text := Join(parts, '/');
    JoinChars(parts, '/', '\\');
    if absolute {
      SplitAt("", text, '/');
      assert "" + ['/'] + text == "/" + text;
      assert Slashed("/" + text) == "/" + text;
    } else if parts == [] {
      SplitWhole(".", '/');
      assert Slashed(".") == ".";
    }
    if parts == [] {
      assert Split("", '/') == [""];
    } else {
      SplitJoin(parts, '/');
      assert text != "" && text[0] == parts[0][0];
    }
  }

  lemma FollowEmptyFirst(dir: Directory, parts: seq<string>)
    ensures FollowAll(dir, [""] + parts) == FollowAll(dir, parts)
  {
    FollowAllConcat(dir, [""], parts);
    assert [""][..0] == [];
  }

  lemma FollowAllSnoc(dir: Directory, parts: seq<string>, last: string)
    ensures FollowAll(dir, parts + [last]) == Follow(FollowAll(dir, parts), last)
  {
    hide Follow;
    assert (parts + [last])[..|parts|] == parts;
  }

  lemma {:induction false} FollowAllConcat(dir: Directory, a: seq<string>, b: seq<string>)
    ensures FollowAll(dir, a + b) == FollowAll(FollowAll(dir, a), b)
  {
    if b == [] {
      AddNothing(a);
    } else {
      hide Follow, FollowAll;
      var init, last := b[..|b| - 1], b[|b| - 1];
      InitLast(b);
      ConcatTail(a, init, [last]);
      FollowAllConcat(dir, a, init);
      FollowAllSnoc(dir, a + init, last);
      FollowAllSnoc(FollowAll(dir, a), init, last);
    }
  }

  /** Walking a rendered path is following its parts. */
  lemma RenderedWalk(parts: seq<string>, ups: nat, absolute: bool, cwd: Directory)
    requires Canonical(parts, ups, absolute)
    ensures Walk(Render(parts, absolute), cwd) == FollowAll(if absolute then [] else cwd, parts)
  {
    RenderedComponents(parts, ups, absolute);
    var dir: Directory := if absolute then [] else cwd;
    if absolute {
      FollowEmptyFirst(dir, if parts == [] then [""] else parts);
    }
    if parts == [] {
      assert [""][..0] == [] && ["."][..0] == [];
    }
  }

  lemma CleanedForm(path: string) returns (parts: seq<string>, ups: nat)
    ensures parts == CleanParts(Components(path), IsAbsolute(path))
    ensures Canonical(parts, ups, IsAbsolute(path)) && CleanPath(path) == Render(parts, IsAbsolute(path))
  {
    parts := CleanParts(Components(path), IsAbsolute(path));
    ComponentsAreClean(path);
    ups := CleanPartsIsCanonical(Components(path), IsAbsolute(path));
  }

  /** Cleaning keeps the meaning of a path: from every directory the cleaned path leads to the same place. */
  lemma CleaningKeepsTheWalk(path: string, cwd: Directory)
    ensures Walk(CleanPath(path), cwd) == Walk(path, cwd)
  {
    var parts, ups := CleanedForm(path);
    ComponentsAreClean(path);
    RenderedWalk(parts, ups, IsAbsolute(path), cwd);
    CleanPartsWalk(Components(path), IsAbsolute(path), if IsAbsolute(path) then [] else cwd);
  }

  // ----- Idempotence -----

  lemma {:induction false} CanonicalStays(parts: seq<string>, ups: nat, absolute: bool)
    requires Canonical(parts, ups, absolute)
    ensures CleanParts(parts, absolute) == parts
  {
    if parts != [] {
      var n := |parts| - 1;
      var ups' := if ups <= n then ups else n;
      assert Canonical(parts[..n], ups', absolute);
      var last, init := parts[n], parts[..n];
      assert if ups <= n then IsName(last) else last == ".." && !absolute && (init == [] || init[n - 1] == "..");
      assert init + [last] == parts;
      CanonicalStays(init, ups', absolute);
      hide Canonical, IsName, CleanParts;
      assert PushPart(init, last, absolute) == init + [last];
      PushLast(parts, absolute);
    }
  }

  lemma PushLast(parts: seq<string>, absolute: bool)
    requires parts != []
    ensures CleanParts(parts, absolute)
         == PushPart(CleanParts(parts[..|parts| - 1], absolute), parts[|parts| - 1], absolute)
  {
  }

  lemma {:induction false} CleanEmptyFirst(parts: seq<string>, absolute: bool)
    ensures CleanParts([""] + parts, absolute) == CleanParts(parts, absolute)
  {
    var all := [""] + parts;
    if parts == [] {
      assert all[..0] == [];
    } else {
      var n := |parts| - 1;
      CleanEmptyFirst(parts[..n], absolute);
      assert all[..|all| - 1] == [""] + parts[..n];
    }
  }

  lemma RenderedIsClean(parts: seq<string>, ups: nat, absolute: bool)
    requires Canonical(parts, ups, absolute)
    ensures CleanPath(Render(parts, absolute)) == Render(parts, absolute)
  {
    RenderedComponents(parts, ups, absolute);
    CanonicalStays(parts, ups, absolute);
    if absolute {
      CleanEmptyFirst(if parts == [] then [""] else parts, absolute);
    }
    if parts == [] {
      assert [""][..0] == [] && ["."][..0] == [];
    }
  }

  lemma CleaningIsIdempotent(path: string)
    ensures CleanPath(CleanPath(path)) == CleanPath(path)
  {
    var parts, ups := CleanedForm(path);
    RenderedIsClean(parts, ups, IsAbsolute(path));
  }

  // ----- The cleaned path is a normal form of the meaning -----

  lemma {:induction false} FollowUps(dir: Directory, ups: seq<string>)
    requires forall i :: 0 <= i < |ups| ==> ups[i] == ".."
    ensures FollowAll(dir, ups) == dir[..if |dir| > |ups| then |dir| - |ups| else 0]
  {
    if ups == [] {
      assert dir[..|dir|] == dir;
    } else {
      FollowUps(dir, ups[..|ups| - 1]);
    }
  }

  lemma {:induction false} FollowNames(dir: Directory, names: seq<string>)
    requires forall i :: 0 <= i < |names| ==> IsName(names[i])
    ensures FollowAll(dir, names) == dir + names
  {
    if names == [] {
      assert dir + names == dir;
    } else {
      var n := |names| - 1;
      FollowNames(dir, names[..n]);
      assert dir + names[..n] + [names[n]] == dir + names;
    }
  }

  /** Following a canonical path climbs `ups` levels, then descends the names. */
  lemma {:induction false} FollowCanonical(dir: Directory, parts: seq<string>, ups: nat, absolute: bool)
    requires Canonical(parts, ups, absolute)
    ensures FollowAll(dir, parts) == dir[..if |dir| > ups then |dir| - ups else 0] + parts[ups..]
  {
    assert parts == parts[..ups] + parts[ups..];
    FollowAllConcat(dir, parts[..ups], parts[ups..]);
    FollowUps(dir, parts[..ups]);
    FollowNames(FollowAll(dir, parts[..ups]), parts[ups..]);
  }

  // No component contains a slash, so a directory entry made of one is like no other.
  const MARK := "/"

  function Marks(n: nat): (d: Directory)
    ensures |d| == n && forall i :: 0 <= i < n ==> d[i] == MARK
  {
    seq(n, _ => MARK)
  }

  lemma FollowFromMarks(parts: seq<string>, ups: nat, absolute: bool, n: nat)
    requires Canonical(parts, ups, absolute) && ups <= n
    ensures FollowAll(Marks(n), parts) == Marks(n - ups) + parts[ups..]
    ensures forall i :: 0 <= i < |parts[ups..]| ==> parts[ups..][i] != MARK
  {
    FollowCanonical(Marks(n), parts, ups, absolute);
    assert Marks(n)[..n - ups] == Marks(n - ups);
  }

  function LeadingMarks(dir: Directory): nat {
    if dir != [] && dir[0] == MARK then 1 + LeadingMarks(dir[1..]) else 0
  }

  lemma MarksCons(n: nat, names: seq<string>)
    requires n > 0
    ensures Marks(n) + names == [MARK] + (Marks(n - 1) + names)
  {
  }

  lemma LeadingMarksCons(dir: Directory)
    ensures LeadingMarks([MARK] + dir) == 1 + LeadingMarks(dir)
  {
    assert ([MARK] + dir)[1..] == dir;
  }

  lemma {:induction false} CountMarks(n: nat, names: seq<string>)
    requires forall i :: 0 <= i < |names| ==> names[i] != MARK
    ensures LeadingMarks(Marks(n) + names) == n
  {
    if n > 0 {
      hide LeadingMarks, Marks;
      CountMarks(n - 1, names);
      MarksCons(n, names);
      LeadingMarksCons(Marks(n - 1) + names);
    } else {
      assert Marks(0) + names == names;
    }
  }

  /** Marks followed by names can be read apart. */
  lemma MarksAreReadable(m: nat, a: seq<string>, n: nat, b: seq<string>)
    requires forall i :: 0 <= i < |a| ==> a[i] != MARK
    requires forall i :: 0 <= i < |b| ==> b[i] != MARK
    requires Marks(m) + a == Marks(n) + b
    ensures m == n && a == b
  {
    CountMarks(m, a);
    CountMarks(n, b);
    assert a == (Marks(m) + a)[m..] && b == (Marks(n) + b)[n..];
  }

  lemma UpsAndNames(parts: seq<string>, ups: nat, parts': seq<string>, absolute: bool)
    requires Canonical(parts, ups, absolute) && Canonical(parts', ups, absolute)
    requires parts[ups..] == parts'[ups..]
    ensures parts == parts'
  {
    assert parts == parts[..ups] + parts[ups..] && parts' == parts'[..ups] + parts'[ups..];
    assert parts[..ups] == parts'[..ups];
  }

  /**
   * Two paths clean to the same text exactly when they lead to the same place from every directory, so the
   * cleaned path is a normal form.
   */
  lemma CleanedTextDecidesTheWalk(p: string, q: string)
    ensures CleanPath(p) == CleanPath(q) <==> forall cwd :: Walk(p, cwd) == Walk(q, cwd)
  {
    if CleanPath(p) == CleanPath(q) {
      forall cwd ensures Walk(p, cwd) == Walk(q, cwd) {
        CleaningKeepsTheWalk(p, cwd);
        CleaningKeepsTheWalk(q, cwd);
      }
    }
    if forall cwd :: Walk(p, cwd) == Walk(q, cwd) {
      SameWalkSameText(p, q);
    }
  }

  /** Walking from a directory of marks shows the parent steps and the names. */
  lemma WalkFromMarks(path: string, parts: seq<string>, ups: nat, n: nat)
    requires Canonical(parts, ups, IsAbsolute(path)) && CleanPath(path) == Render(parts, IsAbsolute(path))
    requires ups <= n
    ensures ups <= |parts| && (IsAbsolute(path) ==> ups == 0)
    ensures Walk(path, Marks(n)) == Marks((if IsAbsolute(path) then 0 else n) - ups) + parts[ups..]
    ensures forall i :: 0 <= i < |parts[ups..]| ==> parts[ups..][i] != MARK
  {
    CleaningKeepsTheWalk(path, Marks(n));
    RenderedWalk(parts, ups, IsAbsolute(path), Marks(n));
    FollowFromMarks(parts, ups, IsAbsolute(path), if IsAbsolute(path) then 0 else n);
    hide Walk, CleanPath, FollowAll, Render, IsName;
    assert Marks(0) == [];
  }

  lemma SameWalkSameText(p: string, q: string)
    requires forall cwd :: Walk(p, cwd) == Walk(q, cwd)
    ensures CleanPath(p) == CleanPath(q)
  {
    hide Canonical, Walk, CleanPath, FollowAll, Render, IsAbsolute, CleanParts, Components, Marks;
    var pParts, pUps := CleanedForm(p);
    var qParts, qUps := CleanedForm(q);
    var n := pUps + qUps + 1;
    WalkFromMarks(p, pParts, pUps, n);
    WalkFromMarks(q, qParts, qUps, n);
    var pMarks, qMarks := (if IsAbsolute(p) then 0 else n) - pUps, (if IsAbsolute(q) then 0 else n) - qUps;
    assert Walk(p, Marks(n)) == Walk(q, Marks(n));
    MarksAreReadable(pMarks, pParts[pUps..], qMarks, qParts[qUps..]);
    assert IsAbsolute(p) == IsAbsolute(q) && pUps == qUps;
    UpsAndNames(pParts, pUps, qParts, IsAbsolute(p));
  }

  // ----- Configuration directories -----

  const DEFAULT_CONFIG_DIR := "/etc/kelinode"

  function NormalizeConfigDir(path: string): string {
    var trimmed := Trim(path);
    if trimmed == "" then DEFAULT_CONFIG_DIR else CleanPath(trimmed)
  }

  /** A blank directory stands for the default one. */
  lemma BlankDirIsDefault(path: string)
    requires AllWhitespace(path)
    ensures NormalizeConfigDir(path) == "/etc/kelinode"
  {
    TrimmedAway(path);
  }

  /** Each component costs its length and one separator. */
  function Size(parts: seq<string>): nat {
    if parts == [] then 0 else Size(parts[..|parts| - 1]) + |parts[|parts| - 1]| + 1
  }

  lemma {:induction false} SizeConcat(a: seq<string>, b: seq<string>)
    ensures Size(a + b) == Size(a) + Size(b)
  {
    if b == [] {
      assert a + b == a;
    } else {
      var n := |b| - 1;
      SizeConcat(a, b[..n]);
      assert (a + b)[..|a| + n] == a + b[..n];
    }
  }

  lemma {:induction false} JoinSize(parts: seq<string>, sep: char)
    requires parts != []
    ensures |Join(parts, sep)| + 1 == Size(parts)
  {
    var head, tail := [parts[0]], parts[1..];
    assert parts == head + tail && head[..0] == [];
    SizeConcat(head, tail);
    if tail != [] {
      JoinSize(tail, sep);
    }
  }

  lemma {:induction false} CleanPartsShrinks(components: seq<string>, absolute: bool)
    ensures Size(CleanParts(components, absolute)) <= Size(components)
  {
    if components != [] {
      CleanPartsShrinks(components[..|components| - 1], absolute);
      var parts := CleanParts(components[..|components| - 1], absolute);
      assert (parts + [components[|components| - 1]])[..|parts|] == parts;
    }
  }

  /** Cleaning never lengthens a nonempty path. */
  lemma CleaningShrinks(path: string)
    requires path != ""
    ensures 0 < |CleanPath(path)| <= |path|
  {
    var components, parts := Components(path), CleanParts(Components(path), IsAbsolute(path));
    JoinSplit(Slashed(path), '/');
    JoinSize(components, '/');
    if IsAbsolute(path) {
      SplitAt("", Slashed(path)[1..], '/');
      assert Slashed(path) == "" + ['/'] + Slashed(path)[1..];
      assert components == [""] + components[1..] && [""][..0] == [];
      CleanEmptyFirst(components[1..], true);
      CleanPartsShrinks(components[1..], true);
      SizeConcat([""], components[1..]);
    } else {
      CleanPartsShrinks(components, false);
    }
    if parts != [] {
      JoinSize(parts, '/');
    }
    CleanedIsNotEmpty(path);
  }

  lemma CleanedIsNotEmpty(path: string)
    ensures CleanPath(path) != ""
  {
    var parts, ups := CleanedForm(path);
    CanonicalHasNoSlash(parts, ups, IsAbsolute(path));
  }

  lemma DefaultParts()
    ensures Canonical(["etc", "kelinode"], 0, true)
    ensures Render(["etc", "kelinode"], true) == DEFAULT_CONFIG_DIR
  {
    var parts := ["etc", "kelinode"];
    assert parts[1..] == ["kelinode"];
    assert Join(parts, '/') == "etc/kelinode";
  }

  lemma DefaultIsClean()
    ensures CleanPath(DEFAULT_CONFIG_DIR) == DEFAULT_CONFIG_DIR
  {
    hide CleanPath;
    DefaultParts();
    RenderedIsClean(["etc", "kelinode"], 0, true);
  }

  lemma TrimFixed(s: string)
    requires s != ""
    ensures |Trim(s)| == |s| <==> Trim(s) == s
    ensures Trim(s) == s <==> !IsWhitespace(s[0]) && !IsWhitespace(s[|s| - 1])
  {
    if IsWhitespace(s[0]) {
      assert |TrimStart(s)| < |s|;
    }
  }

  lemma CleanedEndsDecide(path: string)
    ensures NormalizeConfigDir(path) != ""
    ensures NormalizeConfigDir(NormalizeConfigDir(path)) == NormalizeConfigDir(path) <==>
            var dir := NormalizeConfigDir(path);
            !IsWhitespace(dir[0]) && !IsWhitespace(dir[|dir| - 1])
  {
    var dir := NormalizeConfigDir(path);
    if Trim(path) == "" {
      DefaultIsClean();
    } else {
      CleaningIsIdempotent(Trim(path));
      CleanedIsNotEmpty(Trim(path));
    }
    assert CleanPath(dir) == dir;
    hide CleanPath;
    TrimFixed(dir);
    if Trim(dir) != dir && Trim(dir) != "" {
      CleaningShrinks(Trim(dir));
    }
    if Trim(dir) == "" {
      assert IsWhitespace(dir[0]) || IsWhitespace(dir[|dir| - 1]);
      assert !IsWhitespace(DEFAULT_CONFIG_DIR[0]) && !IsWhitespace(DEFAULT_CONFIG_DIR[|DEFAULT_CONFIG_DIR| - 1]);
    }
  }

  predicate StartsBlank(s: string) {
    s != "" && IsWhitespace(s[0])
  }

  predicate EndsBlank(s: string) {
    s != "" && IsWhitespace(s[|s| - 1])
  }

  /** What is left of the path's components neither opens nor closes it with whitespace. */
  predicate KeepsItsEnds(parts: seq<string>, absolute: bool) {
    parts != [] ==> !EndsBlank(parts[|parts| - 1]) && (absolute || !StartsBlank(parts[0]))
  }

  lemma {:induction false} JoinOpensAndCloses(parts: seq<string>, sep: char)
    requires parts != [] && forall i :: 0 <= i < |parts| ==> parts[i] != ""
    ensures var text, last := Join(parts, sep), parts[|parts| - 1];
            text != "" && text[0] == parts[0][0] && text[|text| - 1] == last[|last| - 1]
  {
    if |parts| > 1 {
      JoinOpensAndCloses(parts[1..], sep);
    }
  }

  lemma RenderedEnds(parts: seq<string>, ups: nat, absolute: bool)
    requires Canonical(parts, ups, absolute)
    ensures var dir := Render(parts, absolute);
            && dir != ""
            && (!IsWhitespace(dir[0]) && !IsWhitespace(dir[|dir| - 1]) <==> KeepsItsEnds(parts, absolute))
  {
    CanonicalHasNoSlash(parts, ups, absolute);
    assert !IsWhitespace('/') && !IsWhitespace('.');
    hide Canonical, IsWhitespace;
    if parts != [] {
      JoinOpensAndCloses(parts, '/');
    }
  }

  /**
   * Normalising a configuration directory trims first, so it is not idempotent in general; it is exactly when, after
   * trimming, the components that survive cleaning neither close the path with whitespace nor, in a relative path,
   * open it with whitespace.
   */
  lemma NormalizeConfigDirIdempotent(path: string)
    ensures var trimmed := Trim(path);
            NormalizeConfigDir(NormalizeConfigDir(path)) == NormalizeConfigDir(path) <==>
            trimmed == "" || KeepsItsEnds(CleanParts(Components(trimmed), IsAbsolute(trimmed)), IsAbsolute(trimmed))
  {
    hide CleanPath, CleanParts, Components, Render, KeepsItsEnds, Canonical, Trim, IsWhitespace;
    CleanedEndsDecide(path);
    var trimmed := Trim(path);
    if trimmed == "" {
      DefaultKeepsItsEnds();
    } else {
      var parts, ups := CleanedForm(trimmed);
      RenderedEnds(parts, ups, IsAbsolute(trimmed));
    }
  }

  lemma DefaultKeepsItsEnds()
    ensures !IsWhitespace(DEFAULT_CONFIG_DIR[0]) && !IsWhitespace(DEFAULT_CONFIG_DIR[|DEFAULT_CONFIG_DIR| - 1])
  {
  }

  lemma CleaningOneName(name: string)
    requires name != "" && name != "." && name != ".." && '/' !in name && '\\' !in name
    ensures CleanPath(name) == name
  {
    SplitWhole(name, '/');
    var parts := [name];
    assert parts[..0] == [] && CleanParts([], false) == [];
    assert Components(name) == parts && !IsAbsolute(name);
    assert CleanParts(parts, false) == [] + [name];
  }

  lemma CleaningDotName(name: string)
    requires name != "" && name != "." && name != ".." && '/' !in name && '\\' !in name
    ensures CleanPath("./" + name) == name
  {
    var path, parts := "./" + name, [".", name];
    assert path == "." + ['/'] + name;
    SplitAt(".", name, '/');
    SplitWhole(name, '/');
    assert Slashed(path) == path && Components(path) == ["."] + [name] && !IsAbsolute(path);
    assert Components(path) == parts && parts[..1] == ["."] && ["."][..0] == [];
    assert CleanParts(["."], false) == [];
    assert CleanParts(parts, false) == [] + [name];
  }

  lemma TrimmedEnds()
    ensures Trim("./ x") == "./ x" && Trim(" x") == "x"
  {
    assert !IsWhitespace('.') && !IsWhitespace('x');
    TrimFixed("./ x");
    assert TrimStart(" x") == "x" by {
      assert " x"[1..] == "x";
    }
  }

  /** A directory that changes when normalised again. */
  lemma NormalizeConfigDirTwice()
    ensures NormalizeConfigDir("./ x") == " x" && NormalizeConfigDir(" x") == "x"
  {
    hide CleanPath, Trim;
    TrimmedEnds();
    assert "./" + " x" == "./ x";
    CleaningDotName(" x");
    CleaningOneName("x");
  }
}
