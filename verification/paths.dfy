/** Go's `path/filepath` functions for '/'-separated paths (the separator on
    the platforms the server runs on). */
module Paths {
  import opened Strings

  const Sep: char := '/'

  /** Number of separators in a path, the depth measure used by the scanner. */
  function SepCount(p: string): (n: nat)
    ensures n <= |p|
    ensures n == 0 <==> Sep !in p
  {
    if |p| == 0 then 0 else (if p[0] == Sep then 1 else 0) + SepCount(p[1..])
  }

  /** `filepath.Base`: the last element, ignoring trailing separators. */
  function Base(p: string): (r: string)
    ensures |r| > 0
    ensures r != [Sep] ==> Sep !in r
  {
    if |p| == 0 then "."
    else
      var t := TrimRightWhile(p, c => c == Sep);
      if |t| == 0 then [Sep]
      else
        var i := LastIndexOf(t, Sep);
        t[i + 1..]
  }

  /** One step of `filepath.Clean`'s lexical processing: `out` holds the
      elements kept so far. */
  function CleanStep(out: seq<string>, elem: string, rooted: bool): (r: seq<string>)
    ensures forall e :: e in r ==> e in out || (e == elem && e != "" && e != ".")
    ensures rooted && ".." in r ==> ".." in out
  {
    if elem == "" || elem == "." then out
    else if elem == ".." then
      if |out| > 0 && out[|out| - 1] != ".." then out[..|out| - 1]
      else if rooted then out
      else out + [".."]
    else out + [elem]
  }

  function CleanElems(elems: seq<string>, rooted: bool): (out: seq<string>)
    ensures forall e :: e in out ==> e != "" && e != "."
    ensures rooted ==> ".." !in out
  {
    if |elems| == 0 then []
    else CleanStep(CleanElems(elems[..|elems| - 1], rooted), elems[|elems| - 1], rooted)
  }

  /** `filepath.Clean`: the shortest equivalent path by purely lexical
      processing — empty and "." elements dropped, ".." cancelling the element
      before it (or dropped at the root), "." for an empty relative result. */
  function Clean(p: string): string {
    var rooted := |p| > 0 && p[0] == Sep;
    var out := CleanElems(Split(p, Sep), rooted);
    if rooted then [Sep] + Join(out, Sep)
    else if |out| == 0 then "."
    else Join(out, Sep)
  }

  /** `filepath.Dir`: everything before the last element, cleaned. */
  function Dir(p: string): string {
    var i := LastIndexOf(p, Sep);
    Clean(p[..i + 1])
  }

  /** `filepath.Ext`: the suffix from the last '.' of the last element, or "". */
  function Ext(p: string): (r: string)
    ensures r == "" || (r[0] == '.' && HasSuffix(p, r) && Sep !in r)
  {
    if |p| == 0 || p[|p| - 1] == Sep then ""
    else if p[|p| - 1] == '.' then "."
    else
      var e := Ext(p[..|p| - 1]);
      if e == "" then "" else e + [p[|p| - 1]]
  }

  // ---------------------------------------------------------------------------
  // Clean absolute paths, as `filepath.WalkDir` produces them from a clean root
  // ---------------------------------------------------------------------------

  /** A path element that `Clean` keeps as it is. */
  predicate Normal(e: string) {
    e != "" && e != "." && e != ".." && Sep !in e
  }

  predicate AllNormal(elems: seq<string>) {
    forall i :: 0 <= i < |elems| ==> Normal(elems[i])
  }

  /** The absolute path with the given elements; "/" for none. */
  function AbsPath(elems: seq<string>): (p: string)
    ensures |p| > 0 && p[0] == Sep
  {
    [Sep] + Join(elems, Sep)
  }

  lemma {:induction false} JoinAppend(parts: seq<string>, x: string, sep: char)
    requires |parts| > 0
    ensures Join(parts + [x], sep) == Join(parts, sep) + [sep] + x
    decreases |parts|
  {
    if |parts| > 1 {
      assert (parts + [x])[1..] == parts[1..] + [x];
      JoinAppend(parts[1..], x, sep);
    }
  }

  lemma {:induction false} LastIndexOfBefore(a: string, c: char, b: string)
    requires c !in b
    ensures LastIndexOf(a + [c] + b, c) == |a|
    decreases |b|
  {
    if |b| > 0 {
      assert (a + [c] + b)[..|a + [c] + b| - 1] == a + [c] + b[..|b| - 1];
      LastIndexOfBefore(a, c, b[..|b| - 1]);
    }
  }

  /** `Split` undoes `Join` when no part holds the separator. */
  lemma {:induction false} SplitJoin(parts: seq<string>, sep: char)
    requires |parts| > 0
    requires forall i :: 0 <= i < |parts| ==> sep !in parts[i]
    ensures Split(Join(parts, sep), sep) == parts
    decreases |parts|
  {
    if |parts| > 1 {
      var head := parts[0];
      var rest := Join(parts[1..], sep);
      var s := head + [sep] + rest;
      assert Join(parts, sep) == s;
      IndexOfAfter(head, sep, rest);
      assert s[..|head|] == head;
      assert s[|head| + 1..] == rest;
      SplitAt(s, sep);
      SplitJoin(parts[1..], sep);
      assert parts == [head] + parts[1..];
    }
  }

  /** One step of `Split`: the part before the first separator, then the rest split. */
  lemma SplitAt(s: string, sep: char)
    requires IndexOf(s, sep) >= 0
    ensures Split(s, sep) == [s[..IndexOf(s, sep)]] + Split(s[IndexOf(s, sep) + 1..], sep)
  {
  }

  /** `Clean` keeps normal elements and drops empty ones. */
  lemma {:induction false} CleanElemsNormal(elems: seq<string>, rooted: bool)
    requires AllNormal(elems)
    ensures CleanElems([""] + elems, rooted) == elems
    ensures CleanElems([""] + elems + [""], rooted) == elems
    decreases |elems|
  {
    if |elems| > 0 {
      var init := elems[..|elems| - 1];
      assert ([""] + elems)[..|elems|] == [""] + init;
      CleanElemsNormal(init, rooted);
      assert init + [elems[|elems| - 1]] == elems;
    }
    assert ([""] + elems + [""])[..|elems| + 1] == [""] + elems;
  }

  /** Normal elements are all kept by the cleaning of the elements. */
  lemma {:induction false} CleanElemsAllNormal(elems: seq<string>, rooted: bool)
    requires AllNormal(elems)
    ensures CleanElems(elems, rooted) == elems
    decreases |elems|
  {
    if |elems| > 0 {
      var init := elems[..|elems| - 1];
      CleanElemsAllNormal(init, rooted);
      assert init + [elems[|elems| - 1]] == elems;
    }
  }

  /** Cleaning one more element is one more step. */
  lemma CleanElemsSnoc(e: seq<string>, x: string, rooted: bool)
    ensures CleanElems(e + [x], rooted) == CleanStep(CleanElems(e, rooted), x, rooted)
  {
    assert (e + [x])[..|e|] == e;
  }

  /** A join of non-empty parts starts with the first part's first character
      and ends with the last part's last character. */
  lemma {:induction false} JoinEnds(parts: seq<string>, sep: char)
    requires |parts| > 0 && forall i :: 0 <= i < |parts| ==> parts[i] != ""
    ensures var j := Join(parts, sep);
      |j| > 0 && j[0] == parts[0][0] && j[|j| - 1] == parts[|parts| - 1][|parts[|parts| - 1]| - 1]
    decreases |parts|
  {
    if |parts| > 1 {
      JoinEnds(parts[1..], sep);
    }
  }

  /** A relative path of normal elements is its own cleaned form, and so is
      it with a trailing separator dropped. */
  lemma CleanRelative(elems: seq<string>)
    requires |elems| > 0 && AllNormal(elems)
    ensures Clean(Join(elems, Sep)) == Join(elems, Sep)
    ensures Clean(Join(elems, Sep) + [Sep]) == Join(elems, Sep)
  {
    var j := Join(elems, Sep);
    JoinEnds(elems, Sep);
    SplitJoin(elems, Sep);
    CleanElemsAllNormal(elems, false);
    JoinAppend(elems, "", Sep);
    assert j + [Sep] + "" == j + [Sep];
    SplitJoin(elems + [""], Sep);
    CleanElemsSnoc(elems, "", false);
    assert (j + [Sep])[0] == j[0];
  }

  /** `filepath.Clean` drops "." and lets ".." cancel the element before it:
      `a/./b/../c` cleans to `a/c`. */
  lemma CleanDotSegments(a: string, b: string, c: string)
    requires Normal(a) && Normal(b) && Normal(c)
    ensures Clean(a + "/./" + b + "/../" + c) == a + "/" + c
  {
    var parts := [a, ".", b, "..", c];
    var p := a + "/./" + b + "/../" + c;
    JoinDotSegments(a, b, c);
    SplitJoin(parts, Sep);
    assert Split(p, Sep) == parts;
    CleanFiveSteps(a, b, c);
    assert p[0] == a[0] != Sep;
    JoinTwo(a, c);
  }

  /** `filepath.Clean` treats a run of separators as one: `a///b////c`
      cleans to `a/b/c`. */
  lemma CleanSeparatorRuns(a: string, b: string, c: string)
    requires Normal(a) && Normal(b) && Normal(c)
    ensures Clean(a + "///" + b + "////" + c) == a + "/" + b + "/" + c
  {
    var parts := [a, "", "", b, "", "", "", c];
    var p := a + "///" + b + "////" + c;
    JoinSeparatorRuns(a, b, c);
    SplitJoin(parts, Sep);
    assert Split(p, Sep) == parts;
    CleanEightSteps(a, b, c);
    assert p[0] == a[0] != Sep;
    JoinThree(a, b, c);
  }

  lemma JoinTwo(a: string, b: string)
    ensures Join([a, b], Sep) == a + "/" + b
  {
    assert [a, b][1..] == [b];
  }

  lemma JoinThree(a: string, b: string, c: string)
    ensures Join([a, b, c], Sep) == a + "/" + b + "/" + c
  {
    assert [a, b, c][1..] == [b, c];
    JoinTwo(b, c);
  }

  lemma JoinDotSegments(a: string, b: string, c: string)
    ensures Join([a, ".", b, "..", c], Sep) == a + "/./" + b + "/../" + c
  {
    var parts := [a, ".", b, "..", c];
    assert parts[1..] == [".", b, "..", c] && parts[2..] == [b, "..", c];
    assert parts[3..] == ["..", c] && parts[4..] == [c];
    assert Join(parts[4..], Sep) == c;
    assert Join(parts[3..], Sep) == "../" + c;
    assert Join(parts[2..], Sep) == b + "/../" + c;
    assert Join(parts[1..], Sep) == "./" + b + "/../" + c;
  }

  lemma CleanFiveSteps(a: string, b: string, c: string)
    requires Normal(a) && Normal(b) && Normal(c)
    ensures CleanElems([a, ".", b, "..", c], false) == [a, c]
  {
    CleanElemsSnoc([], a, false);
    assert [] + [a] == [a];
    CleanElemsSnoc([a], ".", false);
    assert [a] + ["."] == [a, "."];
    CleanElemsSnoc([a, "."], b, false);
    assert [a, "."] + [b] == [a, ".", b];
    assert [a] + [b] == [a, b];
    CleanElemsSnoc([a, ".", b], "..", false);
    assert [a, ".", b] + [".."] == [a, ".", b, ".."];
    assert [a, b][..1] == [a];
    CleanElemsSnoc([a, ".", b, ".."], c, false);
    assert [a, ".", b, ".."] + [c] == [a, ".", b, "..", c];
    assert [a] + [c] == [a, c];
  }

  lemma JoinSeparatorRuns(a: string, b: string, c: string)
    ensures Join([a, "", "", b, "", "", "", c], Sep) == a + "///" + b + "////" + c
  {
    var parts := [a, "", "", b, "", "", "", c];
    assert parts[7..] == [c] && parts[6..] == ["", c] && parts[5..] == ["", "", c];
    assert parts[4..] == ["", "", "", c] && parts[3..] == [b, "", "", "", c];
    assert parts[2..] == ["", b, "", "", "", c] && parts[1..] == ["", "", b, "", "", "", c];
    assert Join(parts[6..], Sep) == "/" + c;
    assert Join(parts[5..], Sep) == "//" + c;
    assert Join(parts[4..], Sep) == "///" + c;
    assert Join(parts[3..], Sep) == b + "////" + c;
    assert Join(parts[2..], Sep) == "/" + b + "////" + c;
    assert Join(parts[1..], Sep) == "//" + b + "////" + c;
  }

  lemma CleanEightSteps(a: string, b: string, c: string)
    requires Normal(a) && Normal(b) && Normal(c)
    ensures CleanElems([a, "", "", b, "", "", "", c], false) == [a, b, c]
  {
    CleanElemsSnoc([], a, false);
    assert [] + [a] == [a];
    CleanElemsSnoc([a], "", false);
    assert [a] + [""] == [a, ""];
    CleanElemsSnoc([a, ""], "", false);
    assert [a, ""] + [""] == [a, "", ""];
    CleanElemsSnoc([a, "", ""], b, false);
    assert [a, "", ""] + [b] == [a, "", "", b];
    assert [a] + [b] == [a, b];
    CleanElemsSnoc([a, "", "", b], "", false);
    assert [a, "", "", b] + [""] == [a, "", "", b, ""];
    CleanElemsSnoc([a, "", "", b, ""], "", false);
    assert [a, "", "", b, ""] + [""] == [a, "", "", b, "", ""];
    CleanElemsSnoc([a, "", "", b, "", ""], "", false);
    assert [a, "", "", b, "", ""] + [""] == [a, "", "", b, "", "", ""];
    CleanElemsSnoc([a, "", "", b, "", "", ""], c, false);
    assert [a, "", "", b, "", "", ""] + [c] == [a, "", "", b, "", "", "", c];
    assert [a, b] + [c] == [a, b, c];
  }

  lemma AbsPathAsJoin(elems: seq<string>)
    requires |elems| > 0
    ensures AbsPath(elems) == Join([""] + elems, Sep)
    ensures AbsPath(elems) + [Sep] == Join([""] + elems + [""], Sep)
  {
    var parts := [""] + elems;
    assert parts[1..] == elems;
    assert Join(parts, Sep) == "" + [Sep] + Join(elems, Sep);
    JoinAppend(parts, "", Sep);
  }

  lemma NoSepInNormal(elems: seq<string>)
    requires AllNormal(elems)
    ensures forall i :: 0 <= i < |[""] + elems| ==> Sep !in ([""] + elems)[i]
    ensures forall i :: 0 <= i < |[""] + elems + [""]| ==> Sep !in ([""] + elems + [""])[i]
  {
  }

  /** A clean absolute path is a fixed point of `Clean`, with or without a
      trailing separator. */
  lemma CleanAbsPath(elems: seq<string>)
    requires AllNormal(elems)
    ensures Clean(AbsPath(elems)) == AbsPath(elems)
    ensures Clean(AbsPath(elems) + [Sep]) == AbsPath(elems)
  {
    if |elems| > 0 {
      AbsPathAsJoin(elems);
      NoSepInNormal(elems);
      CleanElemsNormal(elems, true);
      SplitJoin([""] + elems + [""], Sep);
      SplitJoin([""] + elems, Sep);
    } else {
      CleanRoot();
    }
  }

  lemma CleanRoot()
    ensures Clean("/") == "/" && Clean("//") == "/"
  {
    assert Join(["", ""], Sep) == "/";
    assert Join(["", "", ""], Sep) == "//";
    SplitJoin(["", ""], Sep);
    SplitJoin(["", "", ""], Sep);
    assert CleanElems(["", ""], true) == [];
    assert CleanElems(["", "", ""], true) == [];
  }

  /** Appending one element: the new separator goes before it. */
  lemma AbsPathAppend(elems: seq<string>, name: string)
    ensures |elems| > 0 ==> AbsPath(elems + [name]) == AbsPath(elems) + [Sep] + name
    ensures |elems| == 0 ==> AbsPath(elems + [name]) == [Sep] + name
  {
    if |elems| > 0 {
      JoinAppend(elems, name, Sep);
    } else {
      assert elems + [name] == [name];
    }
  }

  /** On clean absolute paths `Dir` and `Base` split off the last element. */
  lemma DirBaseAbsPath(elems: seq<string>, name: string)
    requires AllNormal(elems) && Normal(name)
    ensures Base(AbsPath(elems + [name])) == name
    ensures Dir(AbsPath(elems + [name])) == AbsPath(elems)
  {
    AbsPathAppend(elems, name);
    var a := if |elems| > 0 then AbsPath(elems) else "";
    SplitLastElement(a, name);
    CleanAbsPath(elems);
    if |elems| == 0 {
      CleanAbsPath([]);
      assert a + [Sep] == AbsPath([]);
    }
  }

  /** A path ending in a separator and a plain name: `Base` is the name and
      `Dir` cleans what comes up to that separator. */
  lemma SplitLastElement(a: string, name: string)
    requires Normal(name)
    ensures Base(a + [Sep] + name) == name
    ensures Dir(a + [Sep] + name) == Clean(a + [Sep])
  {
    var p := a + [Sep] + name;
    LastIndexOfBefore(a, Sep, name);
    assert p[|p| - 1] == name[|name| - 1];
    assert TrimRightWhile(p, c => c == Sep) == p;
    assert p[|a| + 1..] == name;
    assert p[..|a| + 1] == a + [Sep];
  }

  lemma {:induction false} SepCountConcat(a: string, b: string)
    ensures SepCount(a + b) == SepCount(a) + SepCount(b)
    decreases |a|
  {
    if |a| > 0 {
      assert (a + b)[1..] == a[1..] + b;
      SepCountConcat(a[1..], b);
    } else {
      assert a + b == b;
    }
  }

  /** A clean absolute path has one separator per element, and "/" has one. */
  lemma {:induction false} SepCountAbsPath(elems: seq<string>)
    requires AllNormal(elems)
    ensures SepCount(AbsPath(elems)) == if |elems| == 0 then 1 else |elems|
    decreases |elems|
  {
    if |elems| > 0 {
      var init := elems[..|elems| - 1];
      var last := elems[|elems| - 1];
      assert init + [last] == elems;
      SepCountAbsPath(init);
      AbsPathAppend(init, last);
      assert SepCount(last) == 0;
      if |init| > 0 {
        SepCountConcat(AbsPath(init) + [Sep], last);
        SepCountConcat(AbsPath(init), [Sep]);
      } else {
        SepCountConcat([Sep], last);
      }
    }
  }

  /** The non-empty parts, in order: `filepath.Join` skips empty elements
      before it joins the rest and cleans the result, and that cleaning,
      which reads "." and ".." as steps, is not part of this function. */
  function NonEmptyParts(parts: seq<string>): (r: seq<string>)
    ensures |r| <= |parts|
    ensures forall i :: 0 <= i < |r| ==> r[i] != "" && r[i] in parts
    ensures (forall i :: 0 <= i < |parts| ==> parts[i] != "") ==> r == parts
  {
    if |parts| == 0 then []
    else
      var rest := NonEmptyParts(parts[1..]);
      assert forall q :: q in parts[1..] ==> q in parts;
      if parts[0] == "" then rest
      else
        assert parts == [parts[0]] + parts[1..];
        [parts[0]] + rest
  }
}
