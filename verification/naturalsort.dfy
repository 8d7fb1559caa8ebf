/** Natural ordering of names (internal/util/naturalsort.go): a name splits
    into maximal runs of digits and of non-digits; a run that `strconv.Atoi`
    accepts compares by value, any other run compares as lower-cased text. */
module NaturalSort {
  import opened Strings
  import opened Sorting
  import Strconv

  /** A non-empty run of only digits or only non-digits. */
  predicate Run(p: string) {
    |p| > 0 && forall k :: 0 <= k < |p| ==> IsDigit(p[k]) == IsDigit(p[0])
  }

  function Concat(parts: seq<string>): string {
    if |parts| == 0 then "" else parts[0] + Concat(parts[1..])
  }

  /** The end of the run of characters of class `digit` starting at `i`. */
  function RunEnd(s: string, i: nat, digit: bool): (j: nat)
    requires i <= |s|
    ensures i <= j <= |s|
    ensures forall k :: i <= k < j ==> IsDigit(s[k]) == digit
    ensures j < |s| ==> IsDigit(s[j]) != digit
    decreases |s| - i
  {
    if i == |s| || IsDigit(s[i]) != digit then i else RunEnd(s, i + 1, digit)
  }

  /** `tokenizer.FindAllString(s, -1)` for `(\d+|\D+)`: the runs of `s`, in
      order, each maximal. */
  function Runs(s: string): (r: seq<string>)
    ensures Concat(r) == s
    ensures forall i :: 0 <= i < |r| ==> Run(r[i])
    ensures |s| > 0 ==> |r| > 0 && Run(r[0]) && r[0][0] == s[0]
    ensures forall i, j :: 0 <= i < j < |r| && j == i + 1 ==>
      Run(r[i]) && Run(r[j]) && IsDigit(r[i][|r[i]| - 1]) != IsDigit(r[j][0])
    decreases |s|
  {
    if |s| == 0 then []
    else
      var j := RunEnd(s, 0, IsDigit(s[0]));
      var rest := Runs(s[j..]);
      RunsCons(s, j, rest);
      [s[..j]] + rest
  }

  /** A maximal first run in front of the runs of the rest gives the runs of
      the whole string. */
  lemma RunsCons(s: string, j: nat, rest: seq<string>)
    requires 0 < j <= |s| && j == RunEnd(s, 0, IsDigit(s[0]))
    requires Concat(rest) == s[j..]
    requires forall i :: 0 <= i < |rest| ==> Run(rest[i])
    requires |s[j..]| > 0 ==> |rest| > 0 && Run(rest[0]) && rest[0][0] == s[j..][0]
    requires forall i, k :: 0 <= i < k < |rest| && k == i + 1 ==>
      Run(rest[i]) && Run(rest[k]) && IsDigit(rest[i][|rest[i]| - 1]) != IsDigit(rest[k][0])
    ensures var r := [s[..j]] + rest;
      && Concat(r) == s
      && (forall i :: 0 <= i < |r| ==> Run(r[i]))
      && Run(r[0]) && r[0][0] == s[0]
      && (forall i, k :: 0 <= i < k < |r| && k == i + 1 ==>
            Run(r[i]) && Run(r[k]) && IsDigit(r[i][|r[i]| - 1]) != IsDigit(r[k][0]))
  {
    var r := [s[..j]] + rest;
    assert s[..j] + s[j..] == s;
    assert r[1..] == rest;
  }

  /** One step of `Runs`: the first run, then the runs of the rest. */
  lemma RunsStep(s: string)
    requires |s| > 0
    ensures var j := RunEnd(s, 0, IsDigit(s[0]));
      Runs(s) == [s[..j]] + Runs(s[j..])
  {
  }

  /** `naturalSortToken`: a parsed number, or lower-cased text. */
  datatype Token = Num(n: int) | Text(s: string)

  /** A digit run is a number exactly when it fits in an int64; it then has
      its decimal value. A longer digit run, and every non-digit run, is text. */
  function TokenOf(p: string): (r: Token)
    ensures Run(p) && IsDigit(p[0]) && Strconv.DigitsValue(p) <= Strconv.MaxInt64 ==> r == Num(Strconv.DigitsValue(p))
    ensures Run(p) && IsDigit(p[0]) && Strconv.DigitsValue(p) > Strconv.MaxInt64 ==> r == Text(p)
    ensures Run(p) && !IsDigit(p[0]) ==> r == Text(ToLower(p))
  {
    AtoiOfRun(p);
    var a := Strconv.Atoi(p);
    if a.ok then Num(a.value) else Text(ToLower(p))
  }

  /** `tokenize` */
  function Tokenize(s: string): (t: seq<Token>)
    ensures |t| == |Runs(s)|
  {
    var runs := Runs(s);
    seq(|runs|, i requires 0 <= i < |runs| => TokenOf(runs[i]))
  }

  /** The loop of `NaturalSortLess` over the common tokens, then the length. */
  function TokensLess(t1: seq<Token>, t2: seq<Token>): (r: bool)
    ensures t1 == t2 ==> !r
    decreases |t1|
  {
    if |t1| == 0 || |t2| == 0 then |t1| < |t2|
    else match (t1[0], t2[0])
      case (Num(_), Text(_)) => true
      case (Text(_), Num(_)) => false
      case (Num(a), Num(b)) => if a != b then a < b else TokensLess(t1[1..], t2[1..])
      case (Text(a), Text(b)) => if a != b then Less(a, b) else TokensLess(t1[1..], t2[1..])
  }

  /** `NaturalSortLess` */
  function NaturalLess(s1: string, s2: string): (r: bool)
    ensures ToLower(s1) == ToLower(s2) ==> !r
  {
    TokenizeIgnoresCase(s1);
    TokenizeIgnoresCase(s2);
    TokensLess(Tokenize(s1), Tokenize(s2))
  }

  // ---------------------------------------------------------------------------
  // Tokens
  // ---------------------------------------------------------------------------

  /** How `strconv.Atoi` reads a run. */
  lemma AtoiOfRun(p: string)
    ensures Run(p) && IsDigit(p[0]) ==>
      && Strconv.AllDigits(p) && ToLower(p) == p
      && (Strconv.Atoi(p).ok <==> Strconv.DigitsValue(p) <= Strconv.MaxInt64)
      && (Strconv.Atoi(p).ok ==> Strconv.Atoi(p).value == Strconv.DigitsValue(p))
    ensures Run(p) && !IsDigit(p[0]) ==> !Strconv.Atoi(p).ok
  {
    if Run(p) {
      if IsDigit(p[0]) {
        assert Strconv.AllDigits(p);
        Strconv.AtoiDigits(p);
        assert ToLower(p) == p;
      } else {
        NonDigitRunIsNotANumber(p);
      }
    }
  }

  lemma NonDigitRunIsNotANumber(p: string)
    requires Run(p) && !IsDigit(p[0])
    ensures !Strconv.Atoi(p).ok
  {
    if p[0] == '-' || p[0] == '+' {
      if |p| > 1 {
        assert !IsDigit(p[1..][0]);
      }
    }
  }

  /** Lower-casing keeps every character's class, so it keeps the runs. */
  lemma {:induction false} RunEndIgnoresCase(s: string, i: nat, digit: bool)
    requires i <= |s|
    ensures RunEnd(ToLower(s), i, digit) == RunEnd(s, i, digit)
    decreases |s| - i
  {
    if i < |s| && IsDigit(s[i]) == digit {
      RunEndIgnoresCase(s, i + 1, digit);
    }
  }

  lemma {:induction false} RunsIgnoreCase(s: string)
    ensures |Runs(ToLower(s))| == |Runs(s)|
    ensures forall i :: 0 <= i < |Runs(s)| ==> Runs(ToLower(s))[i] == ToLower(Runs(s)[i])
    decreases |s|
  {
    if |s| > 0 {
      var ls := ToLower(s);
      var j := RunEnd(s, 0, IsDigit(s[0]));
      RunEndIgnoresCase(s, 0, IsDigit(s[0]));
      assert IsDigit(ls[0]) == IsDigit(s[0]);
      LowerSlices(s, j);
      RunsIgnoreCase(s[j..]);
      RunsStep(s);
      RunsStep(ls);
      ConsLower(s[..j], Runs(s[j..]), Runs(ls[j..]));
    }
  }

  lemma LowerSlices(s: string, j: nat)
    requires j <= |s|
    ensures ToLower(s)[..j] == ToLower(s[..j]) && ToLower(s)[j..] == ToLower(s[j..])
  {
  }

  /** Lower-casing element by element commutes with putting one in front. */
  lemma ConsLower(x: string, runs: seq<string>, lower: seq<string>)
    requires |lower| == |runs| && forall i :: 0 <= i < |runs| ==> lower[i] == ToLower(runs[i])
    ensures var a := [x] + runs; var b := [ToLower(x)] + lower;
      |b| == |a| && forall i :: 0 <= i < |a| ==> b[i] == ToLower(a[i])
  {
  }

  lemma TokenOfIgnoresCase(p: string)
    requires Run(p)
    ensures TokenOf(ToLower(p)) == TokenOf(p)
  {
    assert Run(ToLower(p));
    if IsDigit(p[0]) {
      assert ToLower(p) == p;
    } else {
      ToLowerIdempotent(p);
    }
  }

  /** Upper and lower case give the same tokens. */
  lemma TokenizeIgnoresCase(s: string)
    ensures Tokenize(ToLower(s)) == Tokenize(s)
  {
    RunsIgnoreCase(s);
    var runs := Runs(s);
    var lruns := Runs(ToLower(s));
    var t := Tokenize(s);
    var lt := Tokenize(ToLower(s));
    forall i | 0 <= i < |runs| ensures lt[i] == t[i] {
      assert lruns[i] == ToLower(runs[i]);
      TokenOfIgnoresCase(runs[i]);
    }
  }

  // ---------------------------------------------------------------------------
  // The order
  // ---------------------------------------------------------------------------

  lemma {:induction false} TokensLessAsymmetric(t1: seq<Token>, t2: seq<Token>)
    requires TokensLess(t1, t2)
    ensures !TokensLess(t2, t1)
    decreases |t1|
  {
    if |t1| > 0 && |t2| > 0 {
      match (t1[0], t2[0])
      case (Num(a), Num(b)) =>
        if a == b { TokensLessAsymmetric(t1[1..], t2[1..]); }
      case (Text(a), Text(b)) =>
        if a != b { LessAsymmetric(a, b); } else { TokensLessAsymmetric(t1[1..], t2[1..]); }
      case _ =>
    }
  }

  /** The order of two leading tokens that differ: numbers before text,
      numbers by value, text by `<`. */
  predicate HeadLess(x: Token, y: Token) {
    match (x, y)
    case (Num(a), Num(b)) => a < b
    case (Num(_), Text(_)) => true
    case (Text(_), Num(_)) => false
    case (Text(a), Text(b)) => Less(a, b)
  }

  /** `TokensLess` decides on the first tokens unless they are equal. */
  lemma TokensLessStep(t1: seq<Token>, t2: seq<Token>)
    requires |t1| > 0 && |t2| > 0
    ensures TokensLess(t1, t2) <==>
      HeadLess(t1[0], t2[0]) || (t1[0] == t2[0] && TokensLess(t1[1..], t2[1..]))
  {
    match (t1[0], t2[0])
    case (Text(a), Text(b)) =>
      if a == b { LessIrreflexive(a); }
    case _ =>
  }

  lemma HeadLessTransitive(x: Token, y: Token, z: Token)
    requires HeadLess(x, y) && HeadLess(y, z)
    ensures HeadLess(x, z)
  {
    if x.Text? && y.Text? && z.Text? {
      LessTransitive(x.s, y.s, z.s);
    }
  }

  lemma {:induction false} TokensLessTransitive(t1: seq<Token>, t2: seq<Token>, t3: seq<Token>)
    requires TokensLess(t1, t2) && TokensLess(t2, t3)
    ensures TokensLess(t1, t3)
    decreases |t1|
  {
    if |t1| > 0 && |t2| > 0 && |t3| > 0 {
      TokensLessStep(t1, t2);
      TokensLessStep(t2, t3);
      TokensLessStep(t1, t3);
      if t1[0] == t2[0] && t2[0] == t3[0] {
        TokensLessTransitive(t1[1..], t2[1..], t3[1..]);
      } else if HeadLess(t1[0], t2[0]) && HeadLess(t2[0], t3[0]) {
        HeadLessTransitive(t1[0], t2[0], t3[0]);
      }
    }
  }

  /** `NaturalSortLess` is a valid `sort.Slice` comparator. */
  lemma NaturalLessAsymmetric()
    ensures Asymmetric(NaturalLess)
  {
    forall a, b | NaturalLess(a, b) ensures !NaturalLess(b, a) {
      TokensLessAsymmetric(Tokenize(a), Tokenize(b));
    }
  }

  /** `NaturalSortLess` is transitive, so sorting by it is consistent. */
  lemma NaturalLessTransitive()
    ensures Transitive(NaturalLess)
  {
    forall a, b, c | NaturalLess(a, b) && NaturalLess(b, c) ensures NaturalLess(a, c) {
      TokensLessTransitive(Tokenize(a), Tokenize(b), Tokenize(c));
    }
  }

  /** If all common tokens are equal, fewer tokens come first. */
  lemma {:induction false} FewerTokensFirst(t1: seq<Token>, t2: seq<Token>)
    requires |t1| < |t2| && t1 == t2[..|t1|]
    ensures TokensLess(t1, t2) && !TokensLess(t2, t1)
    decreases |t1|
  {
    if |t1| > 0 {
      assert t1[1..] == t2[1..][..|t1| - 1];
      FewerTokensFirst(t1[1..], t2[1..]);
    }
  }

  /** At the first differing position a number precedes text. */
  lemma {:induction false} NumberBeforeText(common: seq<Token>, n: int, s: string, t1: seq<Token>, t2: seq<Token>)
    ensures TokensLess(common + [Num(n)] + t1, common + [Text(s)] + t2)
    decreases |common|
  {
    if |common| > 0 {
      assert (common + [Num(n)] + t1)[1..] == common[1..] + [Num(n)] + t1;
      assert (common + [Text(s)] + t2)[1..] == common[1..] + [Text(s)] + t2;
      NumberBeforeText(common[1..], n, s, t1, t2);
    }
  }

  /** Equal leading tokens, then numbers: the smaller value comes first. */
  lemma {:induction false} SmallerNumberFirst(common: seq<Token>, a: int, b: int, t1: seq<Token>, t2: seq<Token>)
    requires a < b
    ensures TokensLess(common + [Num(a)] + t1, common + [Num(b)] + t2)
    decreases |common|
  {
    if |common| > 0 {
      assert (common + [Num(a)] + t1)[1..] == common[1..] + [Num(a)] + t1;
      assert (common + [Num(b)] + t2)[1..] == common[1..] + [Num(b)] + t2;
      SmallerNumberFirst(common[1..], a, b, t1, t2);
    }
  }

  /** `RunEnd` finds the first character of the other class. */
  lemma {:induction false} RunEndAt(s: string, i: nat, j: nat, digit: bool)
    requires i <= j <= |s|
    requires forall k :: i <= k < j ==> IsDigit(s[k]) == digit
    requires j < |s| ==> IsDigit(s[j]) != digit
    ensures RunEnd(s, i, digit) == j
    decreases j - i
  {
    if i < j {
      RunEndAt(s, i + 1, j, digit);
    }
  }

  lemma RunsOfChTwo()
    ensures Runs("ch 2") == ["ch ", "2"]
  {
    RunEndAt("ch 2", 0, 3, false);
    RunEndAt("2", 0, 1, true);
    assert "ch 2"[3..] == "2" && "ch 2"[..3] == "ch " && "2"[1..] == "" && "2"[..1] == "2";
    RunsStep("2");
    assert Runs("") == [];
    assert Runs("2") == ["2"];
    RunsStep("ch 2");
  }

  lemma RunsOfChTen()
    ensures Runs("ch 10") == ["ch ", "10"]
  {
    RunEndAt("ch 10", 0, 3, false);
    RunEndAt("10", 0, 2, true);
    assert "ch 10"[3..] == "10" && "ch 10"[..3] == "ch " && "10"[2..] == "" && "10"[..2] == "10";
    RunsStep("10");
    assert Runs("") == [];
    assert Runs("10") == ["10"];
    RunsStep("ch 10");
  }

  lemma TextCh()
    ensures TokenOf("ch ") == Text("ch ")
  {
    assert ToLower("ch ") == "ch ";
  }

  lemma NumberRun(p: string, n: nat)
    requires Run(p) && IsDigit(p[0]) && Strconv.DigitsValue(p) == n && n <= Strconv.MaxInt64
    ensures TokenOf(p) == Num(n)
  {
  }

  lemma TokensOfChTwo()
    ensures Tokenize("ch 2") == [Text("ch ")] + [Num(2)] + []
  {
    RunsOfChTwo();
    TextCh();
    NumberRun("2", 2);
  }

  lemma TokensOfChTen()
    ensures Tokenize("ch 10") == [Text("ch ")] + [Num(10)] + []
  {
    RunsOfChTen();
    TextCh();
    assert Strconv.DigitsValue("10") == 10 by {
      assert "10"[..1] == "1";
      assert "1"[..0] == "";
    }
    NumberRun("10", 10);
  }

  /** "ch 2" sorts before "ch 10": the runs compare by value, not by text. */
  lemma ChapterTwoBeforeTen()
    ensures NaturalLess("ch 2", "ch 10")
  {
    TokensOfChTwo();
    TokensOfChTen();
    SmallerNumberFirst([Text("ch ")], 2, 10, [], []);
  }

  /** "file" sorts before "file1". */
  lemma FileBeforeFileOne()
    ensures NaturalLess("file", "file1") && !NaturalLess("file1", "file")
  {
    RunEndAt("file", 0, 4, false);
    assert "file"[4..] == "" && "file"[..4] == "file";
    RunsStep("file");
    RunEndAt("file1", 0, 4, false);
    RunEndAt("1", 0, 1, true);
    assert "file1"[4..] == "1" && "file1"[..4] == "file" && "1"[1..] == "";
    RunsStep("file1");
    RunsStep("1");
    FewerTokensFirst(Tokenize("file"), Tokenize("file1"));
  }
}
