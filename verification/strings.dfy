/** Character and string helpers with the meaning Go's `strings` package gives
    them. Strings are sequences of Unicode code points; comparing code points
    orders strings exactly as Go compares their UTF-8 bytes.
    Case mapping covers ASCII letters only (see README, "Left out"). */
module Strings {

  predicate IsDigit(c: char) { '0' <= c <= '9' }

  predicate IsUpperAscii(c: char) { 'A' <= c <= 'Z' }

  predicate IsLowerAscii(c: char) { 'a' <= c <= 'z' }

  /** `unicode.IsLetter`, restricted to ASCII letters. */
  predicate IsLetter(c: char) { IsUpperAscii(c) || IsLowerAscii(c) }

  /** `unicode.IsSpace`: the Latin-1 spaces plus Unicode's White_Space set. */
  predicate IsSpace(c: char) {
    c == ' ' || c == '\t' || c == '\n' || c == '\r' || c == '\U{000B}' || c == '\U{000C}'
    || c == '\U{0085}' || c == '\U{00A0}' || c == '\U{1680}'
    || ('\U{2000}' <= c <= '\U{200A}') || c == '\U{2028}' || c == '\U{2029}'
    || c == '\U{202F}' || c == '\U{205F}' || c == '\U{3000}'
  }

  /** ASCII control characters, the class `[\x00-\x1f\x7f]`. */
  predicate IsControl(c: char) { c as int < 0x20 || c as int == 0x7f }

  function LowerChar(c: char): char {
    if IsUpperAscii(c) then (c as int + 32) as char else c
  }

  function UpperChar(c: char): char {
    if IsLowerAscii(c) then (c as int - 32) as char else c
  }

  /** `strings.ToLower` */
  function ToLower(s: string): (r: string)
    ensures |r| == |s|
    ensures forall i :: 0 <= i < |s| ==> r[i] == LowerChar(s[i])
  {
    seq(|s|, i requires 0 <= i < |s| => LowerChar(s[i]))
  }

  /** `strings.ToUpper` */
  function ToUpper(s: string): (r: string)
    ensures |r| == |s|
    ensures forall i :: 0 <= i < |s| ==> r[i] == UpperChar(s[i])
  {
    seq(|s|, i requires 0 <= i < |s| => UpperChar(s[i]))
  }

  lemma ToLowerIdempotent(s: string)
    ensures ToLower(ToLower(s)) == ToLower(s)
  {
  }

  lemma ToLowerConcat(a: string, b: string)
    ensures ToLower(a + b) == ToLower(a) + ToLower(b)
  {
  }

  /** `strings.HasPrefix` */
  predicate HasPrefix(s: string, prefix: string) {
    |prefix| <= |s| && s[..|prefix|] == prefix
  }

  /** `strings.HasSuffix` */
  predicate HasSuffix(s: string, suffix: string) {
    |suffix| <= |s| && s[|s| - |suffix|..] == suffix
  }

  /** `strings.Contains`: `sub` occurs somewhere in `s`. */
  predicate Contains(s: string, sub: string)
    decreases |s|
  {
    HasPrefix(s, sub) || (|s| > 0 && Contains(s[1..], sub))
  }

  /** A witness position makes `Contains` true. */
  lemma {:induction false} ContainsAt(s: string, sub: string, i: nat)
    requires i + |sub| <= |s| && s[i..i + |sub|] == sub
    ensures Contains(s, sub)
    decreases i
  {
    if i > 0 {
      assert s[1..][i - 1..i - 1 + |sub|] == s[i..i + |sub|];
      ContainsAt(s[1..], sub, i - 1);
    }
  }

  /** If a character of `sub` never occurs in `s`, then `sub` does not occur in `s`. */
  lemma {:induction false} NotContainsByChar(s: string, sub: string, c: char)
    requires c in sub && c !in s
    ensures !Contains(s, sub)
    decreases |s|
  {
    if |s| > 0 {
      NotContainsByChar(s[1..], sub, c);
    }
  }

  /** Position of the first `c` in `s`, or -1: `strings.IndexByte`. */
  function IndexOf(s: string, c: char): (i: int)
    ensures -1 <= i < |s|
    ensures i == -1 <==> c !in s
    ensures i >= 0 ==> s[i] == c && c !in s[..i]
  {
    if |s| == 0 then -1
    else if s[0] == c then 0
    else
      var j := IndexOf(s[1..], c);
      if j < 0 then -1 else j + 1
  }

  /** `IndexOf` finds the separator right after a prefix free of it. */
  lemma {:induction false} IndexOfAfter(a: string, c: char, b: string)
    requires c !in a
    ensures IndexOf(a + [c] + b, c) == |a|
    decreases |a|
  {
    if |a| > 0 {
      assert (a + [c] + b)[1..] == a[1..] + [c] + b;
      IndexOfAfter(a[1..], c, b);
    }
  }

  /** Position of the last `c` in `s`, or -1: `strings.LastIndex` for one character. */
  function LastIndexOf(s: string, c: char): (i: int)
    ensures -1 <= i < |s|
    ensures i == -1 <==> c !in s
    ensures i >= 0 ==> s[i] == c && c !in s[i + 1..]
  {
    if |s| == 0 then -1
    else if s[|s| - 1] == c then |s| - 1
    else LastIndexOf(s[..|s| - 1], c)
  }

  /** `strings.Split(s, string(sep))`: the pieces between separators, always at least one. */
  function Split(s: string, sep: char): (parts: seq<string>)
    ensures |parts| >= 1
    ensures forall p :: p in parts ==> sep !in p
    ensures Join(parts, sep) == s
    decreases |s|
  {
    var i := IndexOf(s, sep);
    if i < 0 then [s]
    else
      assert s == s[..i] + [sep] + s[i + 1..];
      [s[..i]] + Split(s[i + 1..], sep)
  }

  /** `strings.Join(parts, string(sep))` */
  function Join(parts: seq<string>, sep: char): string
  {
    if |parts| == 0 then ""
    else if |parts| == 1 then parts[0]
    else parts[0] + [sep] + Join(parts[1..], sep)
  }

  /** The end of the span of characters satisfying `p` that starts at `i`. */
  function SpanEnd(s: string, i: nat, p: char -> bool): (j: nat)
    requires i <= |s|
    ensures i <= j <= |s|
    ensures forall k :: i <= k < j ==> p(s[k])
    ensures j < |s| ==> !p(s[j])
    decreases |s| - i
  {
    if i == |s| || !p(s[i]) then i else SpanEnd(s, i + 1, p)
  }

  /** Drops the leading characters that satisfy `cut`. */
  function TrimLeftWhile(s: string, cut: char -> bool): (r: string)
    ensures HasSuffix(s, r)
    ensures |r| > 0 ==> !cut(r[0])
    ensures forall i :: 0 <= i < |s| - |r| ==> cut(s[i])
  {
    if |s| > 0 && cut(s[0]) then TrimLeftWhile(s[1..], cut) else s
  }

  /** Drops the trailing characters that satisfy `cut`. */
  function TrimRightWhile(s: string, cut: char -> bool): (r: string)
    ensures HasPrefix(s, r)
    ensures |r| > 0 ==> !cut(r[|r| - 1])
    ensures forall i :: |r| <= i < |s| ==> cut(s[i])
  {
    if |s| > 0 && cut(s[|s| - 1]) then TrimRightWhile(s[..|s| - 1], cut) else s
  }

  /** `strings.Trim(s, cutset)` for a predicate-described cutset. */
  function TrimWhile(s: string, cut: char -> bool): string {
    TrimRightWhile(TrimLeftWhile(s, cut), cut)
  }

  /** Trimming introduces no character. */
  lemma TrimmedChars(s: string, cut: char -> bool)
    ensures forall c :: c in TrimWhile(s, cut) ==> c in s
  {
    var l := TrimLeftWhile(s, cut);
    var r := TrimRightWhile(l, cut);
    assert l == s[|s| - |l|..];
    assert r == l[..|r|];
    forall c | c in r ensures c in s {
      var i :| 0 <= i < |r| && r[i] == c;
      assert s[|s| - |l| + i] == c;
    }
  }

  /** A string whose ends are not cut is left as it is by trimming. */
  lemma TrimIdentity(s: string, cut: char -> bool)
    requires |s| > 0 ==> !cut(s[0]) && !cut(s[|s| - 1])
    ensures TrimWhile(s, cut) == s
  {
  }

  /** A string made only of cut characters trims to nothing. */
  lemma TrimAllCut(s: string, cut: char -> bool)
    requires forall i :: 0 <= i < |s| ==> cut(s[i])
    ensures TrimWhile(s, cut) == ""
  {
  }

  /** A character that is not cut survives trimming from the left. */
  lemma TrimLeftKeeps(s: string, cut: char -> bool, x: char)
    requires x in s && !cut(x)
    ensures x in TrimLeftWhile(s, cut)
  {
    var l := TrimLeftWhile(s, cut);
    var i :| 0 <= i < |s| && s[i] == x;
    assert l == s[|s| - |l|..];
    assert l[i - (|s| - |l|)] == x;
  }

  /** A character that is not cut survives trimming. */
  lemma TrimKeeps(s: string, cut: char -> bool, x: char)
    requires x in s && !cut(x)
    ensures x in TrimWhile(s, cut)
  {
    TrimLeftKeeps(s, cut, x);
    var l := TrimLeftWhile(s, cut);
    var r := TrimRightWhile(l, cut);
    var i :| 0 <= i < |l| && l[i] == x;
    assert r == l[..|r|];
    assert r[i] == x;
  }

  /** Trimming from the left with a wider cut stops at the same place when
      the narrow trim stops at a character the wider cut keeps. */
  lemma {:induction false} TrimLeftWiden(s: string, narrow: char -> bool, wide: char -> bool)
    requires forall c :: narrow(c) ==> wide(c)
    requires |TrimLeftWhile(s, narrow)| == 0 || !wide(TrimLeftWhile(s, narrow)[0])
    ensures TrimLeftWhile(s, wide) == TrimLeftWhile(s, narrow)
    decreases |s|
  {
    if |s| > 0 && narrow(s[0]) {
      TrimLeftWiden(s[1..], narrow, wide);
    }
  }

  /** `strings.Trim(s, cutset)` */
  function Trim(s: string, cutset: set<char>): string {
    TrimWhile(s, c => c in cutset)
  }

  /** Trimming a set leaves a string whose ends are outside the set, and
      drops one cut character put in front of it. */
  lemma TrimSetOneOff(s: string, cutset: set<char>, x: char)
    requires |s| > 0 && s[0] !in cutset && s[|s| - 1] !in cutset && x in cutset
    ensures Trim(s, cutset) == s
    ensures Trim([x] + s, cutset) == s
  {
    var cut := c => c in cutset;
    assert ([x] + s)[1..] == s;
    assert TrimLeftWhile([x] + s, cut) == TrimLeftWhile(s, cut) == s;
    TrimIdentity(s, cut);
  }

  /** `strings.TrimLeft(s, cutset)` */
  function TrimLeft(s: string, cutset: set<char>): string {
    TrimLeftWhile(s, c => c in cutset)
  }

  /** `strings.TrimSpace` */
  function TrimSpace(s: string): string {
    TrimWhile(s, IsSpace)
  }

  /** `strings.TrimSuffix` */
  function TrimSuffix(s: string, suffix: string): (r: string)
    ensures HasSuffix(s, suffix) ==> r + suffix == s
    ensures !HasSuffix(s, suffix) ==> r == s
  {
    if HasSuffix(s, suffix) then s[..|s| - |suffix|] else s
  }

  /** Replaces every character satisfying `bad` with `with`. */
  function ReplaceWhere(s: string, bad: char -> bool, with: char): (r: string)
    ensures |r| == |s|
    ensures forall i :: 0 <= i < |s| ==> r[i] == (if bad(s[i]) then with else s[i])
  {
    seq(|s|, i requires 0 <= i < |s| => if bad(s[i]) then with else s[i])
  }

  /** Removes every character satisfying `bad`, keeping the others in order. */
  function RemoveWhere(s: string, bad: char -> bool): (r: string)
    ensures |r| <= |s|
    ensures forall c :: c in r ==> c in s && !bad(c)
    ensures (forall i :: 0 <= i < |s| ==> !bad(s[i])) ==> r == s
  {
    if |s| == 0 then ""
    else if bad(s[0]) then RemoveWhere(s[1..], bad)
    else [s[0]] + RemoveWhere(s[1..], bad)
  }

  /** A character that is not removed is kept. */
  lemma {:induction false} RemoveKeeps(s: string, bad: char -> bool, x: char)
    requires x in s && !bad(x)
    ensures x in RemoveWhere(s, bad)
    decreases |s|
  {
    if s[0] != x {
      assert x in s[1..];
      RemoveKeeps(s[1..], bad, x);
    }
  }

  /** Go's `<` on strings: byte-wise order of the UTF-8 encodings, which equals
      the lexicographic order of the code points. */
  predicate Less(a: string, b: string)
    decreases |a|
  {
    if |a| == 0 then |b| > 0
    else if |b| == 0 then false
    else if a[0] != b[0] then a[0] < b[0]
    else Less(a[1..], b[1..])
  }

  lemma {:induction false} LessIrreflexive(a: string)
    ensures !Less(a, a)
    decreases |a|
  {
    if |a| > 0 {
      LessIrreflexive(a[1..]);
    }
  }

  lemma {:induction false} LessAsymmetric(a: string, b: string)
    requires Less(a, b)
    ensures !Less(b, a)
    decreases |a|
  {
    if |a| > 0 && |b| > 0 && a[0] == b[0] {
      LessAsymmetric(a[1..], b[1..]);
    }
  }

  lemma {:induction false} LessTransitive(a: string, b: string, c: string)
    requires Less(a, b) && Less(b, c)
    ensures Less(a, c)
    decreases |a|
  {
    if |a| > 0 && |b| > 0 && |c| > 0 && a[0] == b[0] && b[0] == c[0] {
      LessTransitive(a[1..], b[1..], c[1..]);
    }
  }

  /** Two different strings are ordered one way or the other. */
  lemma {:induction false} LessTotal(a: string, b: string)
    requires a != b
    ensures Less(a, b) || Less(b, a)
    decreases |a|
  {
    if |a| > 0 && |b| > 0 && a[0] == b[0] {
      assert a == [a[0]] + a[1..] && b == [b[0]] + b[1..];
      LessTotal(a[1..], b[1..]);
    }
  }

  /** Number of bytes in the UTF-8 encoding of one code point. */
  function Utf8Width(c: char): nat {
    if c as int < 0x80 then 1
    else if c as int < 0x800 then 2
    else if c as int < 0x10000 then 3
    else 4
  }

  /** Go's `len(s)`: the length in bytes of the UTF-8 encoding. */
  function ByteLen(s: string): nat {
    if |s| == 0 then 0 else ByteLen(s[..|s| - 1]) + Utf8Width(s[|s| - 1])
  }

  /** An ASCII string has one byte per character. */
  lemma {:induction false} AsciiLen(s: string)
    requires forall i :: 0 <= i < |s| ==> s[i] as int < 0x80
    ensures ByteLen(s) == |s|
    decreases |s|
  {
    if |s| > 0 {
      AsciiLen(s[..|s| - 1]);
    }
  }

  /** No two `c` in a row. */
  ghost predicate NoDoubleRun(s: string, c: char) {
    forall i, j :: 0 <= i < j < |s| && j == i + 1 ==> !(s[i] == c && s[j] == c)
  }

  /** Every run of `c` becomes one `c` (a regexp `c+` replaced by `c`). */
  function CollapseRuns(s: string, c: char): (r: string)
    ensures |r| <= |s|
    decreases |s|
  {
    if |s| < 2 then s
    else if s[0] == c && s[1] == c then CollapseRuns(s[1..], c)
    else [s[0]] + CollapseRuns(s[1..], c)
  }

  /** Collapsing leaves no two `c` in a row. */
  lemma {:induction false} CollapseLeavesNoDoubleRun(s: string, c: char)
    ensures NoDoubleRun(CollapseRuns(s, c), c)
    decreases |s|
  {
    if |s| >= 2 {
      CollapseLeavesNoDoubleRun(s[1..], c);
      CollapseKeepsEnds(s[1..], c);
      if !(s[0] == c && s[1] == c) {
        var rest := CollapseRuns(s[1..], c);
        var r := [s[0]] + rest;
        forall i, j | 0 <= i < j < |r| && j == i + 1 ensures !(r[i] == c && r[j] == c) {
          if i > 0 { assert r[i] == rest[i - 1] && r[j] == rest[j - 1]; }
        }
      }
    }
  }

  /** Collapsing keeps the first and the last character. */
  lemma {:induction false} CollapseKeepsEnds(s: string, c: char)
    ensures |s| > 0 ==> |CollapseRuns(s, c)| > 0 && CollapseRuns(s, c)[0] == s[0]
    ensures |s| > 0 ==> CollapseRuns(s, c)[|CollapseRuns(s, c)| - 1] == s[|s| - 1]
    decreases |s|
  {
    if |s| >= 2 {
      CollapseKeepsEnds(s[1..], c);
    }
  }

  /** Collapsing introduces no character. */
  lemma {:induction false} CollapseKeepsChars(s: string, c: char)
    ensures forall x :: x in CollapseRuns(s, c) ==> x in s
    decreases |s|
  {
    if |s| >= 2 {
      CollapseKeepsChars(s[1..], c);
      assert forall x :: x in s[1..] ==> x in s;
    }
  }

  /** A string without two `c` in a row is left as it is. */
  lemma {:induction false} CollapseIdentity(s: string, c: char)
    requires NoDoubleRun(s, c)
    ensures CollapseRuns(s, c) == s
    decreases |s|
  {
    if |s| >= 2 {
      NoDoubleRunSlice(s, 1, |s|, c);
      CollapseIdentity(s[1..], c);
      assert !(s[0] == c && s[1] == c);
      assert s == [s[0]] + s[1..];
    }
  }

  /** A contiguous piece of a string without two `c` in a row has none either. */
  lemma NoDoubleRunSlice(s: string, lo: nat, hi: nat, c: char)
    requires lo <= hi <= |s| && NoDoubleRun(s, c)
    ensures NoDoubleRun(s[lo..hi], c)
  {
    forall i, j | 0 <= i < j < hi - lo && j == i + 1 ensures !(s[lo..hi][i] == c && s[lo..hi][j] == c) {
      assert s[lo..hi][i] == s[lo + i] && s[lo..hi][j] == s[lo + j];
    }
  }

  /** Collapsing drops only copies of `c`. */
  lemma {:induction false} CollapseKeepsOthers(s: string, c: char, x: char)
    requires x in s && x != c
    ensures x in CollapseRuns(s, c)
    decreases |s|
  {
    if |s| >= 2 && s[0] != x {
      assert x in s[1..];
      CollapseKeepsOthers(s[1..], c, x);
    }
  }
}
