/** Folder-name and folder-path sanitising (internal/util/path_validation.go). */
module PathValidation {
  import opened Strings
  import opened Paths

  /** The class `[\\/:*?"<>|]`. */
  predicate FolderUnsafe(c: char) {
    c == '\\' || c == '/' || c == ':' || c == '*' || c == '?' || c == '"' || c == '<' || c == '>' || c == '|'
  }

  predicate IsDash(c: char) { c == '-' }

  /** The Windows device names, compared upper-cased. */
  const Reserved: set<string> := {
    "CON", "PRN", "AUX", "NUL",
    "COM1", "COM2", "COM3", "COM4", "COM5", "COM6", "COM7", "COM8", "COM9",
    "LPT1", "LPT2", "LPT3", "LPT4", "LPT5", "LPT6", "LPT7", "LPT8", "LPT9"}

  predicate SpaceOrDot(c: char) { c == ' ' || c == '.' }

  /** No control character and no character of `[\\/:*?"<>|]`. */
  ghost predicate SafeChars(s: string) {
    forall i :: 0 <= i < |s| ==> !IsControl(s[i]) && !FolderUnsafe(s[i])
  }

  /** No dash at either end. */
  ghost predicate NoEdgeDash(s: string) {
    |s| > 0 ==> s[0] != '-' && s[|s| - 1] != '-'
  }

  /** The steps of `SanitizeFolderName` before the reserved-name check, in the
      order the code applies them: controls removed, unsafe characters
      replaced, spaces and dots trimmed, dash runs collapsed, dashes trimmed. */
  function Cleaned(name: string): string {
    var s1 := RemoveWhere(name, IsControl);
    var s2 := ReplaceWhere(s1, FolderUnsafe, '-');
    var s3 := TrimWhile(s2, SpaceOrDot);
    var s4 := CollapseRuns(s3, '-');
    TrimWhile(s4, IsDash)
  }

  lemma CleanedFacts(name: string)
    ensures SafeChars(Cleaned(name))
    ensures NoDoubleRun(Cleaned(name), '-')
    ensures NoEdgeDash(Cleaned(name))
  {
    var s1 := RemoveWhere(name, IsControl);
    var s2 := ReplaceWhere(s1, FolderUnsafe, '-');
    var s3 := TrimWhile(s2, SpaceOrDot);
    var s4 := CollapseRuns(s3, '-');
    var s5 := TrimWhile(s4, IsDash);
    ReplacedSafe(name);
    TrimmedChars(s2, SpaceOrDot);
    CollapseLeavesNoDoubleRun(s3, '-');
    CollapseKeepsChars(s3, '-');
    TrimmedChars(s4, IsDash);
    TrimmedNoDoubleDash(s4, IsDash);
    SafeCharsKept(s2, s5);
    var l := TrimLeftWhile(s4, IsDash);
    assert |s5| > 0 ==> s5[0] == l[0];
  }

  /** Control characters removed and unsafe ones replaced leave safe characters. */
  lemma ReplacedSafe(name: string)
    ensures SafeChars(ReplaceWhere(RemoveWhere(name, IsControl), FolderUnsafe, '-'))
  {
    var s1 := RemoveWhere(name, IsControl);
    var s2 := ReplaceWhere(s1, FolderUnsafe, '-');
    forall i | 0 <= i < |s2| ensures !IsControl(s2[i]) && !FolderUnsafe(s2[i]) {
      assert s1[i] in s1;
    }
  }

  /** Characters taken from a safe string are safe. */
  lemma SafeCharsKept(s: string, t: string)
    requires SafeChars(s) && forall c :: c in t ==> c in s
    ensures SafeChars(t)
  {
    forall i | 0 <= i < |t| ensures !IsControl(t[i]) && !FolderUnsafe(t[i]) {
      assert t[i] in t;
      var k :| 0 <= k < |s| && s[k] == t[i];
    }
  }

  lemma TrimmedNoDoubleDash(s: string, cut: char -> bool)
    requires NoDoubleRun(s, '-')
    ensures NoDoubleRun(TrimWhile(s, cut), '-')
  {
    var l := TrimLeftWhile(s, cut);
    assert l == s[|s| - |l|..];
    NoDoubleRunSlice(s, |s| - |l|, |s|, '-');
    var r := TrimRightWhile(l, cut);
    assert r == l[..|r|];
    NoDoubleRunSlice(l, 0, |r|, '-');
  }

  /** Appending `_` keeps every property the cleaning steps established. */
  lemma UnderscoreKeepsFacts(s: string)
    requires SafeChars(s) && NoDoubleRun(s, '-') && NoEdgeDash(s)
    ensures SafeChars(s + "_") && NoDoubleRun(s + "_", '-') && NoEdgeDash(s + "_")
  {
    var r := s + "_";
    forall i, j | 0 <= i < j < |r| && j == i + 1 ensures !(r[i] == '-' && r[j] == '-') {
      if j < |s| { assert r[i] == s[i] && r[j] == s[j]; }
    }
    forall i | 0 <= i < |r| ensures !IsControl(r[i]) && !FolderUnsafe(r[i]) {
      if i < |s| { assert r[i] == s[i]; }
    }
  }

  /** `SanitizeFolderName` */
  function SanitizeFolderName(name: string): (r: string)
    ensures name == "" ==> r == ""
    ensures SafeChars(r) && NoDoubleRun(r, '-') && NoEdgeDash(r)
  {
    if name == "" then ""
    else
      var s := Cleaned(name);
      CleanedFacts(name);
      if ToUpper(s) in Reserved then
        UnderscoreKeepsFacts(s);
        s + "_"
      else s
  }

  /** A name that already meets the rules (safe characters, no run of
      dashes, no space, dot or dash at either end) and is no device name comes
      back unchanged. */
  lemma OrdinaryNameKept(s: string)
    requires s != "" && SafeChars(s) && NoDoubleRun(s, '-') && NoEdgeJunk(s)
    requires ToUpper(s) !in Reserved
    ensures SanitizeFolderName(s) == s
  {
    assert RemoveWhere(s, IsControl) == s;
    assert ReplaceWhere(s, FolderUnsafe, '-') == s;
    TrimIdentity(s, SpaceOrDot);
    CollapseIdentity(s, '-');
    TrimIdentity(s, IsDash);
  }

  /** Every character of a reserved name is an ASCII letter or digit. */
  lemma ReservedIsAlnum(n: string)
    requires ToUpper(n) in Reserved
    ensures forall i :: 0 <= i < |n| ==> IsLetter(n[i]) || IsDigit(n[i])
  {
    var u := ToUpper(n);
    forall i | 0 <= i < |n| ensures IsLetter(n[i]) || IsDigit(n[i]) {
      assert u[i] == UpperChar(n[i]);
      assert IsUpperAscii(u[i]) || IsDigit(u[i]);
    }
  }

  /** A name that upper-cases to a reserved device name comes back with "_"
      appended and is otherwise untouched. */
  lemma ReservedNameGetsUnderscore(n: string)
    requires ToUpper(n) in Reserved
    ensures SanitizeFolderName(n) == n + "_"
  {
    ReservedIsAlnum(n);
    var s1 := RemoveWhere(n, IsControl);
    assert s1 == n;
    var s2 := ReplaceWhere(s1, FolderUnsafe, '-');
    assert s2 == n;
    TrimIdentity(n, SpaceOrDot);
    assert NoDoubleRun(n, '-');
    CollapseIdentity(n, '-');
    TrimIdentity(n, IsDash);
    assert Cleaned(n) == n;
  }

  /** A name made only of control characters, characters of `[\\/:*?"<>|]` and
      dashes sanitises to "". */
  lemma OnlyInvalidCharactersGiveEmpty(name: string)
    requires forall i :: 0 <= i < |name| ==> IsControl(name[i]) || FolderUnsafe(name[i]) || name[i] == '-'
    ensures SanitizeFolderName(name) == ""
  {
    OnlyInvalidCharactersCleanToEmpty(name);
    assert ToUpper("") == "";
  }

  lemma OnlyInvalidCharactersCleanToEmpty(name: string)
    requires forall i :: 0 <= i < |name| ==> IsControl(name[i]) || FolderUnsafe(name[i]) || name[i] == '-'
    ensures Cleaned(name) == ""
  {
    var s1 := RemoveWhere(name, IsControl);
    var s2 := ReplaceWhere(s1, FolderUnsafe, '-');
    forall i | 0 <= i < |s2| ensures s2[i] == '-' {
      assert s1[i] in s1;
      var k :| 0 <= k < |name| && name[k] == s1[i];
    }
    var s3 := TrimWhile(s2, SpaceOrDot);
    TrimmedChars(s2, SpaceOrDot);
    var s4 := CollapseRuns(s3, '-');
    CollapseKeepsChars(s3, '-');
    forall i | 0 <= i < |s4| ensures IsDash(s4[i]) {
      assert s4[i] in s4;
      assert s4[i] in s2;
    }
    TrimAllCut(s4, IsDash);
  }

  /** A name made only of spaces and dots sanitises to "". */
  lemma OnlySpacesAndDotsGiveEmpty(name: string)
    requires forall i :: 0 <= i < |name| ==> SpaceOrDot(name[i])
    ensures SanitizeFolderName(name) == ""
  {
    var s1 := RemoveWhere(name, IsControl);
    assert s1 == name;
    var s2 := ReplaceWhere(s1, FolderUnsafe, '-');
    assert s2 == name;
    TrimAllCut(s2, SpaceOrDot);
    assert CollapseRuns("", '-') == "";
    TrimAllCut("", IsDash);
    assert ToUpper("") == "";
  }

  /** The steps before dash trimming leave "-..-" as it is. */
  lemma DashShieldedSteps(n: string)
    requires n == "-..-"
    ensures TrimWhile(ReplaceWhere(RemoveWhere(n, IsControl), FolderUnsafe, '-'), SpaceOrDot) == n
  {
    assert forall i :: 0 <= i < |n| ==> DashOrDot(n[i]);
    DashesAndDotsUntouched(n);
    TrimIdentity(n, SpaceOrDot);
  }

  predicate DashOrDot(c: char) { c == '-' || c == '.' }

  /** Dashes and dots are neither removed nor replaced. */
  lemma DashesAndDotsUntouched(n: string)
    requires forall i :: 0 <= i < |n| ==> DashOrDot(n[i])
    ensures RemoveWhere(n, IsControl) == n && ReplaceWhere(n, FolderUnsafe, '-') == n
  {
  }

  lemma DashShieldedCollapse()
    ensures CollapseRuns("-..-", '-') == "-..-"
  {
    var n := "-..-";
    assert CollapseRuns(n[3..], '-') == "-";
    assert CollapseRuns(n[2..], '-') == ".-";
    assert CollapseRuns(n[1..], '-') == "..-";
  }

  lemma DashShieldedTrim()
    ensures TrimWhile("-..-", IsDash) == ".."
  {
    assert TrimLeftWhile("-..-", IsDash) == "..-";
    assert TrimRightWhile("..-", IsDash) == "..";
  }

  /** The trimming of spaces and dots happens before the dashes are trimmed,
      so dots shielded by dashes survive: "-..-" becomes "..", which names the
      parent directory, and sanitising that again gives "". */
  lemma DashShieldedDotsSurvive()
    ensures SanitizeFolderName("-..-") == ".."
    ensures SanitizeFolderName("..") == ""
  {
    DashShieldedSanitized();
    OnlySpacesAndDotsGiveEmpty("..");
  }

  lemma DashShieldedSanitized()
    ensures SanitizeFolderName("-..-") == ".."
  {
    DashShieldedCleaned();
    ShortNameNotReserved("..");
  }

  lemma DashShieldedCleaned()
    ensures Cleaned("-..-") == ".."
  {
    DashShieldedSteps("-..-");
    DashShieldedCollapse();
    DashShieldedTrim();
  }

  /** Every reserved name has three or four characters. */
  lemma ShortNameNotReserved(n: string)
    requires |n| < 3
    ensures ToUpper(n) !in Reserved
  {
    assert forall r :: r in Reserved ==> |r| >= 3;
  }

  // ----- SanitizeFolderPath -----

  predicate IsBackslash(c: char) { c == '\\' }

  /** `strings.ReplaceAll(p, "\\", "/")` */
  function Normalize(p: string): (r: string)
    ensures |r| == |p| && '\\' !in r
    ensures forall i :: 0 <= i < |p| ==> (r[i] == '/' <==> p[i] == '/' || p[i] == '\\')
  {
    ReplaceWhere(p, IsBackslash, '/')
  }

  /** The loop of `SanitizeFolderPath`: empty components are skipped, the
      others are sanitised and kept in order, even when they sanitise to "". */
  function SanitizeComponents(parts: seq<string>): (r: seq<string>)
    ensures |r| <= |parts|
    ensures forall i :: 0 <= i < |r| ==> SafeChars(r[i])
    ensures (forall i :: 0 <= i < |parts| ==> parts[i] == "") ==> r == []
  {
    if |parts| == 0 then []
    else
      var rest := SanitizeComponents(parts[1..]);
      if parts[0] == "" then rest
      else
        var x := SanitizeFolderName(parts[0]);
        ConsSafeChars(x, rest);
        [x] + rest
  }

  lemma ConsSafeChars(x: string, rest: seq<string>)
    requires SafeChars(x) && forall i :: 0 <= i < |rest| ==> SafeChars(rest[i])
    ensures forall i :: 0 <= i < |[x] + rest| ==> SafeChars(([x] + rest)[i])
  {
  }

  /** `SanitizeFolderPath` */
  function SanitizeFolderPath(p: string): (r: string)
    ensures p == "" ==> r == ""
    ensures forall i :: 0 <= i < |r| ==> r[i] == '/' || (!IsControl(r[i]) && !FolderUnsafe(r[i]))
  {
    if p == "" then ""
    else
      var cleaned := Trim(Clean(Normalize(p)), {'/', '\\'});
      if cleaned == "" then ""
      else
        var comps := SanitizeComponents(Split(cleaned, '/'));
        if |comps| == 0 then ""
        else
          JoinKeeps(comps, '/', c => !IsControl(c) && !FolderUnsafe(c));
          Join(comps, '/')
  }

  /** Joining keeps a property every part's characters have. */
  lemma {:induction false} JoinKeeps(parts: seq<string>, sep: char, ok: char -> bool)
    requires forall k, i :: 0 <= k < |parts| && 0 <= i < |parts[k]| ==> ok(parts[k][i])
    ensures forall i :: 0 <= i < |Join(parts, sep)| ==> Join(parts, sep)[i] == sep || ok(Join(parts, sep)[i])
    decreases |parts|
  {
    if |parts| > 1 {
      JoinKeeps(parts[1..], sep, ok);
      var j := Join(parts, sep);
      var rest := Join(parts[1..], sep);
      assert j == parts[0] + [sep] + rest;
      forall i | 0 <= i < |j| ensures j[i] == sep || ok(j[i]) {
        if i > |parts[0]| { assert j[i] == rest[i - |parts[0]| - 1]; }
      }
    }
  }

  /** Splitting a string of separators only gives empty parts. */
  lemma {:induction false} SplitOnlySeparators(s: string, sep: char)
    requires forall i :: 0 <= i < |s| ==> s[i] == sep
    ensures forall i :: 0 <= i < |Split(s, sep)| ==> Split(s, sep)[i] == ""
    decreases |s|
  {
    if |s| > 0 {
      assert IndexOf(s, sep) == 0;
      SplitOnlySeparators(s[1..], sep);
      assert Split(s, sep) == [""] + Split(s[1..], sep);
    }
  }

  /** Cleaning keeps no empty element. */
  lemma {:induction false} CleanEmptyElems(elems: seq<string>, rooted: bool)
    requires forall i :: 0 <= i < |elems| ==> elems[i] == ""
    ensures CleanElems(elems, rooted) == []
    decreases |elems|
  {
    if |elems| > 0 {
      CleanEmptyElems(elems[..|elems| - 1], rooted);
    }
  }

  /** A path made only of separators, '/' or '\\', sanitises to "". */
  lemma OnlySeparatorsGiveEmpty(p: string)
    requires forall i :: 0 <= i < |p| ==> p[i] == '/' || p[i] == '\\'
    ensures SanitizeFolderPath(p) == ""
  {
    if p != "" {
      var n := Normalize(p);
      SplitOnlySeparators(n, '/');
      CleanEmptyElems(Split(n, '/'), true);
      assert Clean(n) == "/";
      assert Trim("/", {'/', '\\'}) == "";
    }
  }

  /** Backslashes are separators: a path and its '/'-normalised form
      sanitise alike. */
  lemma BackslashIsSeparator(p: string)
    ensures SanitizeFolderPath(p) == SanitizeFolderPath(Normalize(p))
  {
    assert Normalize(Normalize(p)) == Normalize(p);
  }

  lemma SplitDotDotX()
    ensures Split("../x", '/') == ["..", "x"]
  {
    assert IndexOf("../x", '/') == 2;
    assert "../x"[3..] == "x" && "../x"[..2] == "..";
    assert IndexOf("x", '/') == -1;
    assert Split("x", '/') == ["x"];
  }

  lemma CleanDotDotX()
    ensures Clean("../x") == "../x"
  {
    SplitDotDotX();
    DotDotXElems(["..", "x"]);
    JoinDotDotX(["..", "x"]);
  }

  lemma DotDotXElems(e: seq<string>)
    requires e == ["..", "x"]
    ensures CleanElems(e, false) == e
  {
    assert e[..1] == [".."];
    assert CleanElems([".."], false) == [".."];
  }

  lemma JoinDotDotX(e: seq<string>)
    requires e == ["..", "x"]
    ensures Join(e, '/') == "../x"
  {
    assert e[1..] == ["x"];
  }

  lemma PlainNameCleaned()
    ensures Cleaned("x") == "x"
  {
    assert RemoveWhere("x", IsControl) == "x";
    assert ReplaceWhere("x", FolderUnsafe, '-') == "x";
    TrimIdentity("x", SpaceOrDot);
    assert CollapseRuns("x", '-') == "x";
    TrimIdentity("x", IsDash);
  }

  lemma PlainNameKept()
    ensures SanitizeFolderName("x") == "x"
  {
    PlainNameCleaned();
    ShortNameNotReserved("x");
  }

  /** A ".." that survives cleaning becomes an empty component, which is kept,
      so the result starts with a separator. */
  lemma DotDotBecomesEmptyComponent()
    ensures SanitizeFolderPath("../x") == "/x"
  {
    DotDotPathCleaned();
    DotDotComponents();
    JoinEmptyX();
    var cleaned := Trim(Clean(Normalize("../x")), {'/', '\\'});
    assert cleaned == "../x";
    var comps := SanitizeComponents(Split(cleaned, '/'));
    assert comps == ["", "x"];
  }

  /** `SanitizeFolderPath` with the emptiness test moved after the name is
      sanitised, so a component that sanitises to "" is dropped like an empty
      one and the result keeps the relative form the trim of separators
      establishes. */
  function RelativeFolderPath(p: string): (r: string)
    ensures p == "" ==> r == ""
    ensures forall i :: 0 <= i < |r| ==> r[i] == '/' || (!IsControl(r[i]) && !FolderUnsafe(r[i]))
    ensures |r| > 0 ==> r[0] != '/' && r[|r| - 1] != '/'
  {
    if p == "" then ""
    else
      var cleaned := Trim(Clean(Normalize(p)), {'/', '\\'});
      if cleaned == "" then ""
      else
        var comps := NonEmptyParts(SanitizeComponents(Split(cleaned, '/')));
        if |comps| == 0 then ""
        else
          NonEmptySafeParts(SanitizeComponents(Split(cleaned, '/')), comps);
          JoinKeeps(comps, '/', c => !IsControl(c) && !FolderUnsafe(c));
          JoinEnds(comps, '/');
          Join(comps, '/')
  }

  /** The parts kept from safe components are safe, so neither end of their
      join is a separator. */
  lemma NonEmptySafeParts(parts: seq<string>, kept: seq<string>)
    requires forall i :: 0 <= i < |parts| ==> SafeChars(parts[i])
    requires forall i :: 0 <= i < |kept| ==> kept[i] != "" && kept[i] in parts
    ensures forall k, i :: 0 <= k < |kept| && 0 <= i < |kept[k]| ==> !IsControl(kept[k][i]) && !FolderUnsafe(kept[k][i])
    ensures forall k :: 0 <= k < |kept| ==> kept[k][0] != '/' && kept[k][|kept[k]| - 1] != '/'
  {
    forall k | 0 <= k < |kept| ensures SafeChars(kept[k]) {
      var j :| 0 <= j < |parts| && parts[j] == kept[k];
    }
  }

  /** With the corrected test "../x" sanitises to "x". */
  lemma RelativeDotDotDropped()
    ensures RelativeFolderPath("../x") == "x"
  {
    DotDotPathCleaned();
    DotDotComponents();
    DotDotKept();
    var cleaned := Trim(Clean(Normalize("../x")), {'/', '\\'});
    assert cleaned == "../x";
    var comps := NonEmptyParts(SanitizeComponents(Split(cleaned, '/')));
    assert comps == ["x"];
  }

  lemma DotDotKept()
    ensures NonEmptyParts(["", "x"]) == ["x"] && Join(["x"], '/') == "x"
  {
    assert ["", "x"][1..] == ["x"];
    assert ["x"][1..] == [];
  }

  lemma JoinEmptyX()
    ensures Join(["", "x"], '/') == "/x"
  {
    assert ["", "x"][1..] == ["x"];
  }

  lemma DotDotPathCleaned()
    ensures Trim(Clean(Normalize("../x")), {'/', '\\'}) == "../x"
  {
    NormalizeDotDotX();
    CleanDotDotX();
    TrimSetIdentity("../x", {'/', '\\'});
  }

  lemma NormalizeDotDotX()
    ensures Normalize("../x") == "../x"
  {
    var n := Normalize("../x");
    assert n[0] == '.' && n[1] == '.' && n[2] == '/' && n[3] == 'x';
  }

  lemma TrimSetIdentity(s: string, cutset: set<char>)
    requires |s| > 0 ==> s[0] !in cutset && s[|s| - 1] !in cutset
    ensures Trim(s, cutset) == s
  {
    TrimIdentity(s, c => c in cutset);
  }

  lemma DotDotComponents()
    ensures SanitizeComponents(Split("../x", '/')) == ["", "x"]
  {
    SplitDotDotX();
    OnlySpacesAndDotsGiveEmpty("..");
    PlainNameKept();
    assert ["..", "x"][1..] == ["x"];
    assert ["x"][1..] == [];
  }

  // ----- Paths of plain components -----

  /** A component the path sanitiser leaves as it is: non-empty and fixed by
      `SanitizeFolderName`. */
  ghost predicate Plain(c: string) {
    c != "" && SanitizeFolderName(c) == c
  }

  ghost predicate AllPlain(cs: seq<string>) {
    forall i :: 0 <= i < |cs| ==> Plain(cs[i])
  }

  /** No part holds a character of `[\\/:*?"<>|]`. */
  ghost predicate SafeParts(cs: seq<string>) {
    forall k, i :: 0 <= k < |cs| && 0 <= i < |cs[k]| ==> !FolderUnsafe(cs[k][i])
  }

  lemma DotsSanitizeToEmpty()
    ensures SanitizeFolderName(".") == "" && SanitizeFolderName("..") == ""
  {
    OnlySpacesAndDotsGiveEmpty(".");
    OnlySpacesAndDotsGiveEmpty("..");
  }

  /** A plain component is a normal path element with safe characters. */
  lemma PlainIsNormal(c: string)
    requires Plain(c)
    ensures Normal(c) && SafeChars(c)
  {
    DotsSanitizeToEmpty();
  }

  lemma PlainParts(cs: seq<string>)
    requires AllPlain(cs)
    ensures AllNormal(cs) && SafeParts(cs)
  {
    forall k | 0 <= k < |cs| ensures Normal(cs[k]) && SafeChars(cs[k]) { PlainIsNormal(cs[k]); }
  }

  /** Plain components pass the component loop unchanged. */
  lemma {:induction false} PlainComponentsKept(cs: seq<string>)
    requires AllPlain(cs)
    ensures SanitizeComponents(cs) == cs
    decreases |cs|
  {
    if |cs| > 0 {
      PlainComponentsKept(cs[1..]);
      var x := cs[0];
      assert x != "" && SanitizeFolderName(x) == x;
      assert SanitizeComponents(cs) == [x] + SanitizeComponents(cs[1..]);
      HeadTail(cs);
    } else {
      assert cs == [];
    }
  }

  lemma HeadTail(cs: seq<string>)
    requires |cs| > 0
    ensures [cs[0]] + cs[1..] == cs
  {
  }

  /** A path without a backslash is its own normal form. */
  lemma NormalizeIdentity(p: string)
    requires '\\' !in p
    ensures Normalize(p) == p
  {
  }

  /** The '/'-join of safe parts: no backslash, and neither end a separator. */
  lemma SafeJoinFacts(cs: seq<string>)
    requires |cs| > 0 && AllNormal(cs) && SafeParts(cs)
    ensures var j := Join(cs, Sep);
      |j| > 0 && '\\' !in j && j[0] !in {'/', '\\'} && j[|j| - 1] !in {'/', '\\'}
  {
    JoinKeeps(cs, Sep, c => !FolderUnsafe(c));
    JoinEnds(cs, Sep);
  }

  /** Once normalising, cleaning and trimming the separators leave the
      '/'-join of components the component loop keeps, the path sanitises to that join. */
  lemma FromCleaned(p: string, cs: seq<string>)
    requires p != "" && |cs| > 0 && AllNormal(cs) && SafeParts(cs) && SanitizeComponents(cs) == cs
    requires Trim(Clean(Normalize(p)), {'/', '\\'}) == Join(cs, Sep)
    ensures SanitizeFolderPath(p) == Join(cs, Sep)
  {
    SafeJoinFacts(cs);
    SplitJoin(cs, Sep);
  }

  /** Trimming the separators drops one leading '/'. */
  lemma TrimSlashOff(j: string)
    requires |j| > 0 && j[0] !in {'/', '\\'} && j[|j| - 1] !in {'/', '\\'}
    ensures Trim(j, {'/', '\\'}) == j
    ensures Trim("/" + j, {'/', '\\'}) == j
  {
    TrimSetOneOff(j, {'/', '\\'}, '/');
  }

  /** The relative forms `j` and `j/` of a join of safe normal parts reduce
      to `j` before the component loop. */
  lemma RelativeFormsCleaned(cs: seq<string>)
    requires |cs| > 0 && AllNormal(cs) && SafeParts(cs)
    ensures var j := Join(cs, Sep);
      Trim(Clean(Normalize(j)), {'/', '\\'}) == j && Trim(Clean(Normalize(j + "/")), {'/', '\\'}) == j
  {
    var j := Join(cs, Sep);
    SafeJoinFacts(cs);
    CleanRelative(cs);
    TrimSlashOff(j);
    NormalizeIdentity(j);
    NormalizeIdentity(j + "/");
  }

  /** The rooted forms `/j` and `/j/` reduce to `j` before the component
      loop. */
  lemma RootedFormsCleaned(cs: seq<string>)
    requires |cs| > 0 && AllNormal(cs) && SafeParts(cs)
    ensures var j := Join(cs, Sep);
      Trim(Clean(Normalize("/" + j)), {'/', '\\'}) == j && Trim(Clean(Normalize("/" + j + "/")), {'/', '\\'}) == j
  {
    var j := Join(cs, Sep);
    SafeJoinFacts(cs);
    CleanAbsPath(cs);
    TrimSlashOff(j);
    NormalizeIdentity("/" + j);
    NormalizeIdentity("/" + j + "/");
  }

  /** Plain components joined by '/' sanitise to themselves, and a leading
      or a trailing '/' (or both) is dropped. */
  lemma PlainPathKept(cs: seq<string>)
    requires |cs| > 0 && AllPlain(cs)
    ensures SanitizeFolderPath(Join(cs, Sep)) == Join(cs, Sep)
    ensures SanitizeFolderPath("/" + Join(cs, Sep)) == Join(cs, Sep)
    ensures SanitizeFolderPath(Join(cs, Sep) + "/") == Join(cs, Sep)
    ensures SanitizeFolderPath("/" + Join(cs, Sep) + "/") == Join(cs, Sep)
  {
    var j := Join(cs, Sep);
    PlainParts(cs);
    PlainComponentsKept(cs);
    RelativeFormsCleaned(cs);
    RootedFormsCleaned(cs);
    FromCleaned(j, cs);
    FromCleaned("/" + j, cs);
    FromCleaned(j + "/", cs);
    FromCleaned("/" + j + "/", cs);
  }

  /** A plain component in front of components the loop keeps is kept too. */
  lemma KeptCons(x: string, rest: seq<string>)
    requires Plain(x) && SanitizeComponents(rest) == rest
    ensures SanitizeComponents([x] + rest) == [x] + rest
  {
    ConsParts(x, rest);
  }

  lemma ConsParts(x: string, rest: seq<string>)
    ensures ([x] + rest)[0] == x && ([x] + rest)[1..] == rest
  {
  }

  /** Safe normal `a` and `c`, as the parts of `a/c`. */
  lemma SafePair(a: string, c: string)
    requires Normal(a) && Normal(c) && SafeChars(a) && SafeChars(c)
    ensures AllNormal([a, c]) && SafeParts([a, c]) && Join([a, c], Sep) == a + "/" + c
    ensures [a] + ([c] + []) == [a, c]
  {
    JoinTwo(a, c);
  }

  /** Safe normal `a`, `b` and `c`, as the parts of `a/b/c`. */
  lemma SafeTriple(a: string, b: string, c: string)
    requires Normal(a) && Normal(b) && Normal(c) && SafeChars(a) && SafeChars(b) && SafeChars(c)
    ensures AllNormal([a, b, c]) && SafeParts([a, b, c]) && Join([a, b, c], Sep) == a + "/" + b + "/" + c
    ensures [a] + ([b] + ([c] + [])) == [a, b, c]
  {
    JoinThree(a, b, c);
  }

  /** Plain `a` and `c` are kept by the component loop. */
  lemma PlainPair(a: string, c: string)
    requires Plain(a) && Plain(c)
    ensures SanitizeComponents([a] + ([c] + [])) == [a] + ([c] + [])
  {
    KeptCons(c, []);
    KeptCons(a, [c] + []);
  }

  /** Plain `a`, `b` and `c` are kept by the component loop. */
  lemma PlainTriple(a: string, b: string, c: string)
    requires Plain(a) && Plain(b) && Plain(c)
    ensures SanitizeComponents([a] + ([b] + ([c] + []))) == [a] + ([b] + ([c] + []))
  {
    PlainPair(b, c);
    KeptCons(a, [b] + ([c] + []));
  }

  /** A string of safe characters holds no backslash. */
  lemma NoBackslash(s: string)
    requires SafeChars(s)
    ensures '\\' !in s
  {
  }

  /** `a/./b/../c` reaches the component loop as `a/c`. */
  lemma DotSegmentsCleaned(a: string, b: string, c: string)
    requires Normal(a) && Normal(b) && Normal(c) && SafeChars(a) && SafeChars(b) && SafeChars(c)
    ensures Trim(Clean(Normalize(a + "/./" + b + "/../" + c)), {'/', '\\'}) == a + "/" + c
  {
    NoBackslash(a);
    NoBackslash(b);
    NoBackslash(c);
    NormalizeIdentity(a + "/./" + b + "/../" + c);
    CleanDotSegments(a, b, c);
    SafePair(a, c);
    SafeJoinFacts([a, c]);
    TrimSlashOff(a + "/" + c);
  }

  /** `a///b////c` reaches the component loop as `a/b/c`. */
  lemma SeparatorRunsCleaned(a: string, b: string, c: string)
    requires Normal(a) && Normal(b) && Normal(c) && SafeChars(a) && SafeChars(b) && SafeChars(c)
    ensures Trim(Clean(Normalize(a + "///" + b + "////" + c)), {'/', '\\'}) == a + "/" + b + "/" + c
  {
    NoBackslash(a);
    NoBackslash(b);
    NoBackslash(c);
    NormalizeIdentity(a + "///" + b + "////" + c);
    CleanSeparatorRuns(a, b, c);
    SafeTriple(a, b, c);
    SafeJoinFacts([a, b, c]);
    TrimSlashOff(a + "/" + b + "/" + c);
  }

  /** "." components are dropped and ".." cancels the component before it:
      `a/./b/../c` sanitises to `a/c`. */
  lemma DotSegmentsResolved(a: string, b: string, c: string)
    requires Plain(a) && Plain(b) && Plain(c)
    ensures SanitizeFolderPath(a + "/./" + b + "/../" + c) == a + "/" + c
  {
    PlainIsNormal(a);
    PlainIsNormal(b);
    PlainIsNormal(c);
    DotSegmentsCleaned(a, b, c);
    SafePair(a, c);
    PlainPair(a, c);
    FromCleaned(a + "/./" + b + "/../" + c, [a, c]);
  }

  /** Runs of separators count as one: `a///b////c` sanitises to
      `a/b/c`. */
  lemma SeparatorRunsCollapse(a: string, b: string, c: string)
    requires Plain(a) && Plain(b) && Plain(c)
    ensures SanitizeFolderPath(a + "///" + b + "////" + c) == a + "/" + b + "/" + c
  {
    PlainIsNormal(a);
    PlainIsNormal(b);
    PlainIsNormal(c);
    SeparatorRunsCleaned(a, b, c);
    SafeTriple(a, b, c);
    PlainTriple(a, b, c);
    FromCleaned(a + "///" + b + "////" + c, [a, b, c]);
  }

  /** A lower-case ASCII word of four letters or more is plain: no device
      name is longer than four characters, and the four-character ones end
      in a digit. */
  lemma LowerWordPlain(s: string)
    requires |s| >= 4 && forall i :: 0 <= i < |s| ==> IsLowerAscii(s[i])
    ensures Plain(s)
  {
    var u := ToUpper(s);
    assert u[|s| - 1] == UpperChar(s[|s| - 1]);
    assert forall r :: r in Reserved ==> |r| < 4 || (|r| == 4 && IsDigit(r[3]));
    OrdinaryNameKept(s);
  }

  // ----- The corrected folder name -----

  /** Characters a folder name must not start or end with. */
  predicate EdgeJunk(c: char) { c == ' ' || c == '.' || c == '-' }

  ghost predicate NoEdgeJunk(s: string) {
    |s| > 0 ==> !EdgeJunk(s[0]) && !EdgeJunk(s[|s| - 1])
  }

  /** The cleaning steps with the trim of spaces, dots and dashes done once,
      after the dash runs are collapsed, so no dot is shielded by a dash. */
  function SafeCleaned(name: string): string {
    var s1 := RemoveWhere(name, IsControl);
    var s2 := ReplaceWhere(s1, FolderUnsafe, '-');
    TrimWhile(CollapseRuns(s2, '-'), EdgeJunk)
  }

  lemma SafeCleanedFacts(name: string)
    ensures SafeChars(SafeCleaned(name))
    ensures NoDoubleRun(SafeCleaned(name), '-')
    ensures NoEdgeJunk(SafeCleaned(name))
  {
    var s1 := RemoveWhere(name, IsControl);
    var s2 := ReplaceWhere(s1, FolderUnsafe, '-');
    var s3 := CollapseRuns(s2, '-');
    var s4 := TrimWhile(s3, EdgeJunk);
    ReplacedSafe(name);
    CollapseLeavesNoDoubleRun(s2, '-');
    CollapseKeepsChars(s2, '-');
    TrimmedChars(s3, EdgeJunk);
    TrimmedNoDoubleDash(s3, EdgeJunk);
    SafeCharsKept(s2, s4);
    var l := TrimLeftWhile(s3, EdgeJunk);
    assert |s4| > 0 ==> s4[0] == l[0];
  }

  /** The name `SanitizeFolderName` evidently means to produce: the same
      character rules, and no space, dot or dash at either end, so it can never
      be "." or "..". */
  function SafeFolderName(name: string): (r: string)
    ensures name == "" ==> r == ""
    ensures SafeChars(r) && NoDoubleRun(r, '-') && NoEdgeJunk(r)
    ensures r != "." && r != ".."
  {
    if name == "" then ""
    else
      var s := SafeCleaned(name);
      SafeCleanedFacts(name);
      if ToUpper(s) in Reserved then
        ReservedIsAlnum(s);
        UnderscoreKeepsFacts(s);
        s + "_"
      else s
  }

  /** A name that already meets the rules is left alone by the cleaning steps. */
  lemma SafeCleanedIdentity(s: string)
    requires SafeChars(s) && NoDoubleRun(s, '-') && NoEdgeJunk(s)
    ensures SafeCleaned(s) == s
  {
    assert RemoveWhere(s, IsControl) == s;
    assert ReplaceWhere(s, FolderUnsafe, '-') == s;
    CollapseIdentity(s, '-');
    TrimIdentity(s, EdgeJunk);
  }

  /** Sanitising a sanitised name changes nothing. */
  lemma SafeFolderNameIdempotent(name: string)
    ensures SafeFolderName(SafeFolderName(name)) == SafeFolderName(name)
  {
    var r := SafeFolderName(name);
    if r != "" {
      var s := SafeCleaned(name);
      SafeCleanedFacts(name);
      if ToUpper(s) in Reserved {
        assert r == s + "_";
        SuffixedNameIsFixed(s);
      } else {
        assert r == s;
        CleanNameIsFixed(s);
      }
    }
  }

  /** A clean name that is no device name is its own sanitised form. */
  lemma CleanNameIsFixed(s: string)
    requires s != "" && SafeChars(s) && NoDoubleRun(s, '-') && NoEdgeJunk(s)
    requires ToUpper(s) !in Reserved
    ensures SafeFolderName(s) == s
  {
    SafeCleanedIdentity(s);
  }

  /** A device name with "_" appended is its own sanitised form. */
  lemma SuffixedNameIsFixed(s: string)
    requires SafeChars(s) && NoDoubleRun(s, '-') && NoEdgeJunk(s)
    requires ToUpper(s) in Reserved
    ensures SafeFolderName(s + "_") == s + "_"
  {
    var r := s + "_";
    ReservedIsAlnum(s);
    UnderscoreKeepsFacts(s);
    UnderscoreNotReserved(s);
    assert NoEdgeJunk(r);
    CleanNameIsFixed(r);
  }

  /** No device name contains '_', so a name ending in it is not reserved. */
  lemma UnderscoreNotReserved(s: string)
    ensures ToUpper(s + "_") !in Reserved
  {
    var r := s + "_";
    assert !(IsLetter(r[|s|]) || IsDigit(r[|s|]));
    if ToUpper(r) in Reserved {
      ReservedIsAlnum(r);
    }
  }

  /** Reserved names are handled as before. */
  lemma SafeReservedNameGetsUnderscore(n: string)
    requires ToUpper(n) in Reserved
    ensures SafeFolderName(n) == n + "_"
  {
    ReservedIsAlnum(n);
    assert SafeChars(n) && NoDoubleRun(n, '-') && NoEdgeJunk(n);
    SafeCleanedIdentity(n);
  }

  /** The input that defeats `SanitizeFolderName` yields "". */
  lemma SafeFolderNameDropsShieldedDots()
    ensures SafeFolderName("-..-") == ""
  {
    SafeCleanedShielded("-..-");
    ShortNameNotReserved("");
  }

  lemma SafeCleanedShielded(n: string)
    requires n == "-..-"
    ensures SafeCleaned(n) == ""
  {
    assert forall i :: 0 <= i < |n| ==> DashOrDot(n[i]);
    DashesAndDotsUntouched(n);
    DashShieldedCollapse();
    TrimAllCut(n, EdgeJunk);
  }
}
