/** `sanitizePath` of the web interface
    (internal/assets/web/static/js/path-utils.js), which cleans the custom
    folder path typed into the plugin and subscription forms before it is
    sent to the server. A JavaScript string is a sequence of characters and
    `null` is `None`. */
module PathUtils {
  import opened Results
  import opened Strings

  /** What `String.prototype.trim` removes: the ECMAScript white space and
      line terminator characters. */
  predicate IsJsSpace(c: char) {
    var n := c as int;
    n == 0x09 || n == 0x0A || n == 0x0B || n == 0x0C || n == 0x0D || n == 0x20
    || n == 0xA0 || n == 0x1680 || (0x2000 <= n <= 0x200A) || n == 0x2028 || n == 0x2029
    || n == 0x202F || n == 0x205F || n == 0x3000 || n == 0xFEFF
  }

  predicate IsSlash(c: char) { c == '/' }

  predicate IsDot(c: char) { c == '.' }

  /** The class `[<>:"|?*\x00-\x1f]`. */
  predicate Forbidden(c: char) {
    c == '<' || c == '>' || c == ':' || c == '"' || c == '|' || c == '?' || c == '*' || c as int < 0x20
  }

  /** `path.trim()` with the leading and trailing runs of '/' removed. */
  function Stripped(path: string): string {
    TrimWhile(TrimWhile(path, IsJsSpace), IsSlash)
  }

  /** The stripped path with runs of '/' collapsed and forbidden characters
      removed: what the leading dots are then cut from. */
  function Cleaned(path: string): string {
    RemoveWhere(CollapseRuns(Stripped(path), '/'), Forbidden)
  }

  /** `sanitizePath`: `None` for the empty string, for a path that is empty
      once trimmed, and for one that is empty once the forbidden characters
      and the leading dots are gone. */
  function SanitizePath(path: string): (r: Option<string>)
    ensures path == "" ==> r.None?
    ensures r.Some? ==> r.value != "" && r.value[0] != '.'
    ensures r.Some? ==> forall i :: 0 <= i < |r.value| ==> !Forbidden(r.value[i])
    ensures r.Some? ==> forall c :: c in r.value ==> c in path
  {
    if path == "" then None
    else
      var s1 := Stripped(path);
      if s1 == "" then None
      else
        var s4 := TrimLeftWhile(Cleaned(path), IsDot);
        if s4 == "" then None
        else
          CharsSurvive(path);
          assert forall i :: 0 <= i < |s4| ==> s4[i] in s4;
          Some(s4)
  }

  /** Every character left after the cleaning steps comes from the input. */
  lemma CharsSurvive(path: string)
    ensures forall c :: c in TrimLeftWhile(Cleaned(path), IsDot) ==> c in path && !Forbidden(c)
  {
    var s0 := TrimWhile(path, IsJsSpace);
    var s1 := Stripped(path);
    var s2 := CollapseRuns(s1, '/');
    var s3 := RemoveWhere(s2, Forbidden);
    var s4 := TrimLeftWhile(s3, IsDot);
    TrimmedChars(path, IsJsSpace);
    TrimmedChars(s0, IsSlash);
    CollapseKeepsChars(s1, '/');
    forall c | c in s4 ensures c in s3 {
      var i :| 0 <= i < |s4| && s4[i] == c;
      assert s4 == s3[|s3| - |s4|..];
      assert s3[|s3| - |s4| + i] == c;
    }
  }

  /** A character that is none of white space, '/', '.' or a forbidden
      character is never removed, so the path is not `None` and keeps it. */
  lemma PlainCharacterKept(path: string, i: nat)
    requires i < |path|
    requires !IsJsSpace(path[i]) && !IsSlash(path[i]) && !IsDot(path[i]) && !Forbidden(path[i])
    ensures SanitizePath(path).Some? && path[i] in SanitizePath(path).value
  {
    var x := path[i];
    var s0 := TrimWhile(path, IsJsSpace);
    var s1 := Stripped(path);
    var s2 := CollapseRuns(s1, '/');
    var s3 := RemoveWhere(s2, Forbidden);
    TrimKeeps(path, IsJsSpace, x);
    TrimKeeps(s0, IsSlash, x);
    CollapseKeepsOthers(s1, '/', x);
    RemoveKeeps(s2, Forbidden, x);
    TrimLeftKeeps(s3, IsDot, x);
    SanitizeSteps(path, s3, TrimLeftWhile(s3, IsDot));
  }

  /** A path of white space only is `None`. */
  lemma BlankGivesNone(path: string)
    requires forall i :: 0 <= i < |path| ==> IsJsSpace(path[i])
    ensures SanitizePath(path).None?
  {
    TrimAllCut(path, IsJsSpace);
  }

  /** A path of slashes only is `None`. */
  lemma SlashesGiveNone(path: string)
    requires forall i :: 0 <= i < |path| ==> IsSlash(path[i])
    ensures SanitizePath(path).None?
  {
    TrimIdentity(path, IsJsSpace);
    TrimAllCut(path, IsSlash);
  }

  /** The cleaning steps leave alone a path that is trimmed, has no '/' at
      either end, no "//" and no forbidden character. */
  lemma CleanedUnchanged(path: string)
    requires path != ""
    requires !IsJsSpace(path[0]) && !IsJsSpace(path[|path| - 1])
    requires path[0] != '/' && path[|path| - 1] != '/'
    requires NoDoubleRun(path, '/')
    requires forall i :: 0 <= i < |path| ==> !Forbidden(path[i])
    ensures Stripped(path) == path && Cleaned(path) == path
  {
    TrimIdentity(path, IsJsSpace);
    TrimIdentity(path, IsSlash);
    CollapseIdentity(path, '/');
  }

  /** A path that is already trimmed, has no '/' at either end, no "//", no
      forbidden character and does not start with '.' comes back unchanged. */
  lemma CleanPathUnchanged(path: string)
    requires path != ""
    requires !IsJsSpace(path[0]) && !IsJsSpace(path[|path| - 1])
    requires path[0] != '/' && path[|path| - 1] != '/'
    requires NoDoubleRun(path, '/')
    requires forall i :: 0 <= i < |path| ==> !Forbidden(path[i])
    requires path[0] != '.'
    ensures SanitizePath(path) == Some(path)
  {
    CleanedUnchanged(path);
  }

  /** Once the trimmed path is non-empty, the result is the cleaned path
      without its leading dots, or `None` if nothing is left. */
  lemma SanitizeSteps(path: string, cleaned: string, result: string)
    requires path != "" && Stripped(path) != ""
    requires Cleaned(path) == cleaned && TrimLeftWhile(cleaned, IsDot) == result
    ensures SanitizePath(path) == if result == "" then None else Some(result)
  {
  }

  /** Cutting the leading dots of "../etc" leaves the slash that followed
      them: a path meant to stay inside the library becomes absolute. */
  lemma ParentPathBecomesAbsolute()
    ensures SanitizePath("../etc") == Some("/etc")
  {
    ParentPathCleaned();
    ParentPathDots("../etc");
    SanitizeSteps("../etc", "../etc", "/etc");
  }

  lemma ParentPathCleaned()
    ensures Stripped("../etc") != "" && Cleaned("../etc") == "../etc"
  {
    CleanedUnchanged("../etc");
  }

  lemma ParentPathDots(p: string)
    requires p == "../etc"
    ensures TrimLeftWhile(p, IsDot) == "/etc"
  {
    assert p[0] == '.' && p[1] == '.' && p[2] == '/';
    TrimLeftStep(p, IsDot);
    TrimLeftStep(p[1..], IsDot);
    assert p[1..][1..] == p[2..] == "/etc";
    TrimLeftStop(p[2..], IsDot);
  }

  lemma ParentPathDotsAndSlashes(p: string)
    requires p == "../etc"
    ensures TrimLeftWhile(p, DotOrSlash) == "etc"
  {
    assert p[0] == '.' && p[1] == '.' && p[2] == '/' && p[3] == 'e';
    TrimLeftStep(p, DotOrSlash);
    TrimLeftStep(p[1..], DotOrSlash);
    assert p[1..][1..] == p[2..];
    TrimLeftStep(p[2..], DotOrSlash);
    assert p[2..][1..] == p[3..] == "etc";
    TrimLeftStop(p[3..], DotOrSlash);
  }

  lemma TrimLeftStep(s: string, cut: char -> bool)
    requires |s| > 0 && cut(s[0])
    ensures TrimLeftWhile(s, cut) == TrimLeftWhile(s[1..], cut)
  {
  }

  lemma TrimLeftStop(s: string, cut: char -> bool)
    requires |s| > 0 && !cut(s[0])
    ensures TrimLeftWhile(s, cut) == s
  {
  }

  /** Removing a control character can expose white space at the start, so
      sanitising twice is not the same as sanitising once. */
  lemma NotIdempotent()
    ensures SanitizePath([1 as char] + " a") == Some(" a")
    ensures SanitizePath(" a") == Some("a")
  {
    var p := [1 as char] + " a";
    ControlCharCleaned(p);
    SanitizeSteps(p, " a", " a");
    SpaceACleaned();
    SanitizeSteps(" a", "a", "a");
  }

  lemma ControlCharCleaned(p: string)
    requires p == [1 as char] + " a"
    ensures Stripped(p) == p && Cleaned(p) == " a" && TrimLeftWhile(" a", IsDot) == " a"
  {
    TrimIdentity(p, IsJsSpace);
    TrimIdentity(p, IsSlash);
    assert NoDoubleRun(p, '/');
    CollapseIdentity(p, '/');
    assert p[1..] == " a" && p[2..] == "a";
    assert RemoveWhere(p[2..], Forbidden) == "a";
    assert RemoveWhere(p[1..], Forbidden) == " a";
  }

  lemma SpaceACleaned()
    ensures Stripped(" a") == "a" && Cleaned(" a") == "a" && TrimLeftWhile("a", IsDot) == "a"
  {
    assert TrimLeftWhile(" a", IsJsSpace) == "a";
    TrimIdentity("a", IsSlash);
    CollapseIdentity("a", '/');
  }

  // ----- The corrected path -----

  predicate DotOrSlash(c: char) { c == '.' || c == '/' }

  /** `sanitizePath` with the slashes that the leading dots uncover cut too,
      so the result is always relative. */
  function SanitizePathRelative(path: string): (r: Option<string>)
    ensures path == "" ==> r.None?
    ensures r.Some? ==> r.value != "" && r.value[0] != '.' && r.value[0] != '/'
    ensures r.Some? ==> forall i :: 0 <= i < |r.value| ==> !Forbidden(r.value[i])
    ensures r.Some? ==> forall c :: c in r.value ==> c in path
  {
    if path == "" then None
    else
      var s1 := Stripped(path);
      if s1 == "" then None
      else
        var s3 := Cleaned(path);
        var s4 := TrimLeftWhile(s3, DotOrSlash);
        if s4 == "" then None
        else
          RelativeCharsSurvive(path);
          assert forall i :: 0 <= i < |s4| ==> s4[i] in s4;
          Some(s4)
  }

  /** Every character left after cutting dots and slashes comes from the input. */
  lemma RelativeCharsSurvive(path: string)
    ensures forall c :: c in TrimLeftWhile(Cleaned(path), DotOrSlash) ==> c in path && !Forbidden(c)
  {
    var s3 := Cleaned(path);
    CharsSurvive(path);
    TrimLeftNested(s3);
    SuffixChars(TrimLeftWhile(s3, IsDot), TrimLeftWhile(s3, DotOrSlash));
  }

  lemma SuffixChars(s: string, suffix: string)
    requires HasSuffix(s, suffix)
    ensures forall c :: c in suffix ==> c in s
  {
    forall c | c in suffix ensures c in s {
      var i :| 0 <= i < |suffix| && suffix[i] == c;
      assert s[|s| - |suffix| + i] == c;
    }
  }

  /** Cutting dots and slashes from the left cuts at least the leading dots. */
  lemma TrimLeftNested(s: string)
    ensures HasSuffix(TrimLeftWhile(s, IsDot), TrimLeftWhile(s, DotOrSlash))
  {
    var d := TrimLeftWhile(s, IsDot);
    var e := TrimLeftWhile(s, DotOrSlash);
    assert |e| <= |d|;
    assert e == d[|d| - |e|..];
  }

  /** The relative sanitiser cuts "../etc" to "etc". */
  lemma ParentPathStaysRelative()
    ensures SanitizePathRelative("../etc") == Some("etc")
  {
    ParentPathCleaned();
    ParentPathDotsAndSlashes("../etc");
  }

  /** The two sanitisers agree whenever `sanitizePath` gives `None` or a path
      that does not start with '/'. */
  lemma RelativeAgrees(path: string)
    requires SanitizePath(path).None? || SanitizePath(path).value[0] != '/'
    ensures SanitizePathRelative(path) == SanitizePath(path)
  {
    if path != "" && Stripped(path) != "" {
      TrimLeftWiden(Cleaned(path), IsDot, DotOrSlash);
    }
  }
}
