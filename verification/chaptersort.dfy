/** The chapter-name sorter of internal/util/chaptersort.go. Each name is
    scanned into (key, number) pairs such as "Vol." → 2 and "Ch." → 2.5; the
    keys that occur often enough become the sort keys, most frequent first,
    and two names compare key by key. Numbers are exact decimals here. */
module ChapterSort {
  import opened Results
  import opened Strings
  import opened Sorting
  import Strconv

  // ---------------------------------------------------------------------------
  // scan
  // ---------------------------------------------------------------------------

  /** The class `[^0-9\n\r ]` of the key group. */
  predicate KeyChar(c: char) { !IsDigit(c) && c != '\n' && c != '\r' && c != ' ' }

  predicate IsBlank(c: char) { c == ' ' }

  function Pow10(n: nat): (r: nat)
    ensures r >= 1
  {
    if n == 0 then 1 else 10 * Pow10(n - 1)
  }

  /** A run of n digits is below 10^n. */
  lemma {:induction false} DigitsBelowPow10(s: string)
    requires Strconv.AllDigits(s)
    ensures Strconv.DigitsValue(s) < Pow10(|s|)
  {
    if |s| > 0 {
      var init := s[..|s| - 1];
      assert Strconv.AllDigits(init);
      DigitsBelowPow10(init);
      assert Pow10(|s|) == 10 * Pow10(|init|);
    }
  }

  /** The value of `whole "." frac` (either part may be empty): the whole
      part plus a fraction below one. */
  function Decimal(whole: string, frac: string): (v: real)
    requires Strconv.AllDigits(whole) && Strconv.AllDigits(frac)
    ensures v >= 0.0
    ensures Strconv.DigitsValue(whole) as real <= v < Strconv.DigitsValue(whole) as real + 1.0
  {
    var f := Strconv.DigitsValue(frac) as real;
    var p := Pow10(|frac|) as real;
    DigitsBelowPow10(frac);
    FractionBelowOne(f, p);
    Strconv.DigitsValue(whole) as real + f / p
  }

  lemma FractionBelowOne(f: real, p: real)
    requires 0.0 <= f < p
    ensures 0.0 <= f / p < 1.0
  {
    assert f / p * p == f;
  }

  /** `[0-9]*\.?[0-9]+` can match at `n`. */
  predicate NumberAt(s: string, n: nat) {
    n < |s| && (IsDigit(s[n]) || (s[n] == '.' && n + 1 < |s| && IsDigit(s[n + 1])))
  }

  /** The match of `[0-9]*\.?[0-9]+` at `n` under leftmost-first rules: the
      digits, then '.' and digits if a digit follows the point. Returns the end
      of the match and its value. */
  function Number(s: string, n: nat): (r: (nat, real))
    requires NumberAt(s, n)
    ensures n < r.0 <= |s| && r.1 >= 0.0
  {
    var d := SpanEnd(s, n, IsDigit);
    assert Strconv.AllDigits(s[n..d]);
    if d + 1 < |s| && s[d] == '.' && IsDigit(s[d + 1]) then
      var e := SpanEnd(s, d + 1, IsDigit);
      assert Strconv.AllDigits(s[d + 1..e]);
      (e, Decimal(s[n..d], s[d + 1..e]))
    else
      (d, Decimal(s[n..d], ""))
  }

  /** `FindAllStringSubmatch` from position `p`, each match stored under its
      key with a later match overwriting an earlier one. A match starts where
      the key group (greedy), blanks and a number line up; otherwise the
      search moves on by one character. */
  function ScanFrom(s: string, p: nat, acc: map<string, real>): (r: map<string, real>)
    requires p <= |s|
    ensures forall k :: k in r && k !in acc ==> forall i :: 0 <= i < |k| ==> KeyChar(k[i])
    ensures acc.Keys <= r.Keys
    decreases |s| - p
  {
    if p == |s| then acc
    else
      var q := SpanEnd(s, p, KeyChar);
      var n := SpanEnd(s, q, IsBlank);
      if NumberAt(s, n) then
        var (e, v) := Number(s, n);
        ScanFrom(s, e, acc[s[p..q] := v])
      else ScanFrom(s, p + 1, acc)
  }

  /** Scanning from non-negative values records only non-negative values. */
  lemma {:induction false} ScanFromNonNegative(s: string, p: nat, acc: map<string, real>)
    requires p <= |s|
    requires forall k :: k in acc ==> acc[k] >= 0.0
    ensures forall k :: k in ScanFrom(s, p, acc) ==> ScanFrom(s, p, acc)[k] >= 0.0
    decreases |s| - p
  {
    if p < |s| {
      var q := SpanEnd(s, p, KeyChar);
      var n := SpanEnd(s, q, IsBlank);
      if NumberAt(s, n) {
        var (e, v) := Number(s, n);
        ScanFromNonNegative(s, e, acc[s[p..q] := v]);
      } else {
        ScanFromNonNegative(s, p + 1, acc);
      }
    }
  }

  /** A rest without digits holds no number, so nothing is recorded. */
  lemma {:induction false} ScanFromNoDigits(s: string, p: nat, acc: map<string, real>)
    requires p <= |s|
    requires forall i :: p <= i < |s| ==> !IsDigit(s[i])
    ensures ScanFrom(s, p, acc) == acc
    decreases |s| - p
  {
    if p < |s| {
      var q := SpanEnd(s, p, KeyChar);
      var n := SpanEnd(s, q, IsBlank);
      assert !NumberAt(s, n);
      ScanFromNoDigits(s, p + 1, acc);
    }
  }

  /** `scan` */
  function Scan(s: string): (r: map<string, real>)
    ensures forall k :: k in r ==> r[k] >= 0.0 && forall i :: 0 <= i < |k| ==> KeyChar(k[i])
    ensures (forall i :: 0 <= i < |s| ==> !IsDigit(s[i])) ==> r == map[]
  {
    ScanFromNonNegative(s, 0, map[]);
    NoDigitsNothingScanned(s);
    ScanFrom(s, 0, map[])
  }

  lemma NoDigitsNothingScanned(s: string)
    ensures (forall i :: 0 <= i < |s| ==> !IsDigit(s[i])) ==> ScanFrom(s, 0, map[]) == map[]
  {
    if forall i :: 0 <= i < |s| ==> !IsDigit(s[i]) {
      ScanFromNoDigits(s, 0, map[]);
    }
  }

  /** `SpanEnd` stops at the first character outside the class. */
  lemma {:induction false} SpanEndAt(s: string, i: nat, j: nat, p: char -> bool)
    requires i <= j <= |s|
    requires forall k :: i <= k < j ==> p(s[k])
    requires j < |s| ==> !p(s[j])
    ensures SpanEnd(s, i, p) == j
    decreases j - i
  {
    if i < j {
      SpanEndAt(s, i + 1, j, p);
    }
  }

  /** "Vol.2 Ch. 2.5" scans to Vol. → 2 and Ch. → 2.5: the point belongs to
      the key, blanks before a number are skipped, and "2.5" is one number. */
  lemma ScanVolumeAndChapter()
    ensures Scan("Vol.2 Ch. 2.5") == map["Vol." := 2.0, "Ch." := 2.5]
  {
    var s := "Vol.2 Ch. 2.5";
    ScanVolume(s);
    ScanBlank(s);
    ScanChapter(s);
  }

  /** Every character of `k` may stand in a key. */
  predicate KeyChars(k: string) {
    forall i :: 0 <= i < |k| ==> KeyChar(k[i])
  }

  /** A key, one blank and a whole number scan to that key with that
      number's value. */
  lemma ScanSingle(k: string, n: string)
    requires KeyChars(k) && |n| > 0 && Strconv.AllDigits(n)
    ensures Scan(k + " " + n) == map[k := Strconv.DigitsValue(n) as real]
  {
    var s := k + " " + n;
    KeyThenNumber(s, k, n);
    ScanPair(s, 0, map[], |k|, |s|);
    ScanIsScanFrom(s);
    SingleEntry(k, Strconv.DigitsValue(n) as real);
  }

  lemma ScanIsScanFrom(s: string)
    ensures Scan(s) == ScanFrom(s, 0, map[])
  {
  }

  lemma SingleEntry(k: string, v: real)
    ensures map[][k := v] == map[k := v]
  {
  }

  /** The characters of `k + " " + n`, one class at a time. */
  lemma KeyThenNumber(s: string, k: string, n: string)
    requires KeyChars(k) && Strconv.AllDigits(n) && s == k + " " + n
    ensures forall i :: 0 <= i < |k| ==> KeyChar(s[i])
    ensures s[|k|] == ' '
    ensures forall i :: |k| + 1 <= i < |s| ==> IsDigit(s[i])
    ensures s[0..|k|] == k && s[|k| + 1..|s|] == n
  {
    forall i | 0 <= i < |k| ensures KeyChar(s[i]) { assert s[i] == k[i]; }
    forall i | |k| + 1 <= i < |s| ensures IsDigit(s[i]) { assert s[i] == n[i - |k| - 1]; }
  }

  /** A key that occurs twice keeps the number of its last occurrence, as a
      later match overwrites the map entry. */
  lemma ScanRepeatedKey(k: string, n1: string, n2: string)
    requires |k| > 0 && KeyChars(k)
    requires |n1| > 0 && Strconv.AllDigits(n1) && |n2| > 0 && Strconv.AllDigits(n2)
    ensures Scan(k + " " + n1 + " " + k + " " + n2) == map[k := Strconv.DigitsValue(n2) as real]
  {
    var first := k + " " + n1;
    var second := k + " " + n2;
    var s := first + " " + second;
    assert s == k + " " + n1 + " " + k + " " + n2;
    KeyThenNumber(first, k, n1);
    KeyThenNumber(second, k, n2);
    var q1, e1, p2, q2 := |k|, |first|, |first| + 1, |first| + 1 + |k|;
    FirstOfTwo(s, first, second, k, n1, q1, e1);
    SecondOfTwo(s, first, second, k, n2, p2, q2);
    TwoPairsAt(s, q1, e1, p2, q2);
    ScanIsScanFrom(s);
    SameKeyTwice(s[0..q1], s[q1 + 1..e1], s[p2..q2], s[q2 + 1..|s|], k, n1, n2);
  }

  /** Two entries under keys equal to `k`: the second value is the one kept. */
  lemma SameKeyTwice(a1: string, b1: string, a2: string, b2: string, k: string, n1: string, n2: string)
    requires a1 == k && b1 == n1 && a2 == k && b2 == n2
    requires Strconv.AllDigits(n1) && Strconv.AllDigits(n2)
    ensures map[][a1 := Strconv.DigitsValue(b1) as real][a2 := Strconv.DigitsValue(b2) as real] == map[k := Strconv.DigitsValue(n2) as real]
  {
    LaterEntryWins(k, Strconv.DigitsValue(n1) as real, Strconv.DigitsValue(n2) as real);
  }

  /** Two key–number pairs separated by a blank: the first key ends at `q1`,
      its number at `e1`; the second key runs from `p2` to `q2`, its number
      to the end of the string. */
  lemma TwoPairsAt(s: string, q1: nat, e1: nat, p2: nat, q2: nat)
    requires 0 < q1 && q1 + 1 < e1 && p2 == e1 + 1 && p2 < q2 && q2 + 1 < |s|
    requires forall i :: 0 <= i < q1 ==> KeyChar(s[i])
    requires s[q1] == ' '
    requires forall i :: q1 + 1 <= i < e1 ==> IsDigit(s[i])
    requires s[e1] == ' ' && s[p2] != ' ' && !NumberAt(s, p2)
    requires forall i :: p2 <= i < q2 ==> KeyChar(s[i])
    requires s[q2] == ' '
    requires forall i :: q2 + 1 <= i < |s| ==> IsDigit(s[i])
    ensures Strconv.AllDigits(s[q1 + 1..e1]) && Strconv.AllDigits(s[q2 + 1..|s|])
    ensures ScanFrom(s, 0, map[]) ==
      map[][s[0..q1] := Strconv.DigitsValue(s[q1 + 1..e1]) as real][s[p2..q2] := Strconv.DigitsValue(s[q2 + 1..|s|]) as real]
  {
    FirstPair(s, q1, e1, p2);
    FinalPair(s, p2, map[][s[0..q1] := Strconv.DigitsValue(s[q1 + 1..e1]) as real], q2);
  }

  /** A leading key–number pair followed by a blank and the start `p2` of a
      key: the scan records the pair and resumes at that key. */
  lemma FirstPair(s: string, q1: nat, e1: nat, p2: nat)
    requires 0 < q1 && q1 + 1 < e1 && p2 == e1 + 1 && p2 < |s|
    requires forall i :: 0 <= i < q1 ==> KeyChar(s[i])
    requires s[q1] == ' '
    requires forall i :: q1 + 1 <= i < e1 ==> IsDigit(s[i])
    requires s[e1] == ' ' && s[p2] != ' ' && !NumberAt(s, p2)
    ensures Strconv.AllDigits(s[q1 + 1..e1])
    ensures ScanFrom(s, 0, map[]) == ScanFrom(s, p2, map[][s[0..q1] := Strconv.DigitsValue(s[q1 + 1..e1]) as real])
  {
    ScanPair(s, 0, map[], q1, e1);
    ScanSkip(s, e1, p2, map[][s[0..q1] := Strconv.DigitsValue(s[q1 + 1..e1]) as real]);
  }

  /** A key–number pair that ends the string is the scan's last entry. */
  lemma FinalPair(s: string, p: nat, acc: map<string, real>, q: nat)
    requires p <= q && q + 1 < |s|
    requires forall i :: p <= i < q ==> KeyChar(s[i])
    requires s[q] == ' '
    requires forall i :: q + 1 <= i < |s| ==> IsDigit(s[i])
    ensures Strconv.AllDigits(s[q + 1..|s|])
    ensures ScanFrom(s, p, acc) == acc[s[p..q] := Strconv.DigitsValue(s[q + 1..|s|]) as real]
  {
    ScanPair(s, p, acc, q, |s|);
    ScanFromEnd(s, acc[s[p..q] := Strconv.DigitsValue(s[q + 1..|s|]) as real]);
  }

  lemma ScanFromEnd(s: string, acc: map<string, real>)
    ensures ScanFrom(s, |s|, acc) == acc
  {
  }

  lemma LaterEntryWins(k: string, v1: real, v2: real)
    ensures map[][k := v1][k := v2] == map[k := v2]
  {
  }

  /** The first pair of `first + " " + second`: the key ends at `q1`, the
      number at `e1`. */
  lemma FirstOfTwo(s: string, first: string, second: string, k: string, n: string, q1: nat, e1: nat)
    requires s == first + " " + second && first == k + " " + n && |n| > 0
    requires q1 == |k| && e1 == |first|
    requires forall i :: 0 <= i < |k| ==> KeyChar(first[i])
    requires forall i :: |k| + 1 <= i < |first| ==> IsDigit(first[i])
    requires first[0..|k|] == k && first[|k| + 1..|first|] == n
    ensures forall i :: 0 <= i < q1 ==> KeyChar(s[i])
    ensures s[q1] == ' ' && s[e1] == ' '
    ensures forall i :: q1 + 1 <= i < e1 ==> IsDigit(s[i])
    ensures s[0..q1] == k && s[q1 + 1..e1] == n
  {
    assert s[..|first|] == first;
  }

  /** The second pair of `first + " " + second`: the key runs from `p2` to
      `q2`, the number to the end. */
  lemma SecondOfTwo(s: string, first: string, second: string, k: string, n: string, p2: nat, q2: nat)
    requires s == first + " " + second && second == k + " " + n && |k| > 0 && |n| > 0
    requires p2 == |first| + 1 && q2 == p2 + |k|
    requires forall i :: 0 <= i < |k| ==> KeyChar(second[i])
    requires forall i :: |k| + 1 <= i < |second| ==> IsDigit(second[i])
    requires second[0..|k|] == k && second[|k| + 1..|second|] == n
    ensures p2 < q2 && q2 + 1 < |s| && s[p2] != ' ' && !NumberAt(s, p2)
    ensures forall i :: p2 <= i < q2 ==> KeyChar(s[i])
    ensures s[q2] == ' '
    ensures forall i :: q2 + 1 <= i < |s| ==> IsDigit(s[i])
    ensures s[p2..q2] == k && s[q2 + 1..|s|] == n
  {
    var e := |first|;
    assert s[e + 1..] == second;
    assert s[e + 1] == second[0];
    assert e + 2 < |s| && s[e + 2] == second[1];
  }

  /** At `p` a key up to `q`, one blank and a whole number up to `e` that a
      blank or the end of the string ends: the scan records the key with the
      number's value and goes on after the number. */
  lemma ScanPair(s: string, p: nat, acc: map<string, real>, q: nat, e: nat)
    requires p <= q && q + 1 < e <= |s|
    requires forall i :: p <= i < q ==> KeyChar(s[i])
    requires s[q] == ' '
    requires forall i :: q + 1 <= i < e ==> IsDigit(s[i])
    requires e < |s| ==> s[e] == ' '
    ensures Strconv.AllDigits(s[q + 1..e])
    ensures ScanFrom(s, p, acc) == ScanFrom(s, e, acc[s[p..q] := Strconv.DigitsValue(s[q + 1..e]) as real])
  {
    SpanEndAt(s, p, q, KeyChar);
    SpanEndAt(s, q, q + 1, IsBlank);
    SpanEndAt(s, q + 1, e, IsDigit);
    assert NumberAt(s, q + 1);
    assert Strconv.AllDigits(s[q + 1..e]);
    assert Decimal(s[q + 1..e], "") == Strconv.DigitsValue(s[q + 1..e]) as real;
    ScanNumberStep(s, p, acc, q, q + 1);
  }

  /** A blank followed by something that starts no match is passed over. */
  lemma ScanSkip(s: string, e: nat, p: nat, acc: map<string, real>)
    requires p == e + 1 && p < |s| && s[e] == ' ' && s[p] != ' ' && !NumberAt(s, p)
    ensures ScanFrom(s, e, acc) == ScanFrom(s, p, acc)
  {
    SpanEndAt(s, e, e, KeyChar);
    SpanEndAt(s, e, p, IsBlank);
  }

  /** One step of `ScanFrom` that reads a key and its number. */
  lemma ScanNumberStep(s: string, p: nat, acc: map<string, real>, q: nat, n: nat)
    requires p < |s| && q <= |s|
    requires SpanEnd(s, p, KeyChar) == q && SpanEnd(s, q, IsBlank) == n && NumberAt(s, n)
    ensures ScanFrom(s, p, acc) == ScanFrom(s, Number(s, n).0, acc[s[p..q] := Number(s, n).1])
  {
  }

  lemma ScanVolume(s: string)
    requires s == "Vol.2 Ch. 2.5"
    ensures ScanFrom(s, 0, map[]) == ScanFrom(s, 5, map["Vol." := 2.0])
  {
    SpanEndAt(s, 0, 4, KeyChar);
    SpanEndAt(s, 4, 4, IsBlank);
    assert NumberAt(s, 4);
    VolumeNumber(s);
    ScanNumberStep(s, 0, map[], 4, 4);
    assert s[0..4] == "Vol.";
    assert map[]["Vol." := 2.0] == map["Vol." := 2.0];
  }

  lemma VolumeNumber(s: string)
    requires s == "Vol.2 Ch. 2.5"
    ensures Number(s, 4) == (5, 2.0)
  {
    SpanEndAt(s, 4, 5, IsDigit);
    assert s[4..5] == "2";
    assert Strconv.DigitsValue("2") == 2;
    assert Decimal("2", "") == 2.0;
  }

  lemma ScanBlank(s: string)
    requires s == "Vol.2 Ch. 2.5"
    ensures ScanFrom(s, 5, map["Vol." := 2.0]) == ScanFrom(s, 6, map["Vol." := 2.0])
  {
    assert s[5] == ' ' && s[6] == 'C';
    SpanEndAt(s, 5, 5, KeyChar);
    SpanEndAt(s, 5, 6, IsBlank);
    assert !NumberAt(s, 6);
  }

  lemma ScanChapter(s: string)
    requires s == "Vol.2 Ch. 2.5"
    ensures ScanFrom(s, 6, map["Vol." := 2.0]) == map["Vol." := 2.0, "Ch." := 2.5]
  {
    var acc := map["Vol." := 2.0];
    ScanChapterStep(s, acc);
    assert ScanFrom(s, |s|, acc["Ch." := 2.5]) == acc["Ch." := 2.5];
  }

  lemma ScanChapterStep(s: string, acc: map<string, real>)
    requires s == "Vol.2 Ch. 2.5"
    ensures ScanFrom(s, 6, acc) == ScanFrom(s, 13, acc["Ch." := 2.5])
  {
    SpanEndAt(s, 6, 9, KeyChar);
    SpanEndAt(s, 9, 10, IsBlank);
    assert NumberAt(s, 10);
    ChapterNumber(s);
    ScanNumberStep(s, 6, acc, 9, 10);
    ChapterKey(s);
  }

  lemma ChapterKey(s: string)
    requires s == "Vol.2 Ch. 2.5"
    ensures s[6..9] == "Ch."
  {
  }

  lemma ChapterNumber(s: string)
    requires s == "Vol.2 Ch. 2.5"
    ensures Number(s, 10) == (13, 2.5)
  {
    SpanEndAt(s, 10, 11, IsDigit);
    SpanEndAt(s, 12, 13, IsDigit);
    assert s[10..11] == "2" && s[12..13] == "5";
    assert Strconv.DigitsValue("2") == 2;
    assert Strconv.DigitsValue("5") == 5;
    assert Decimal("2", "5") == 2.5;
  }

  // ---------------------------------------------------------------------------
  // Item.Compare
  // ---------------------------------------------------------------------------

  /** `Item.Numbers` */
  type Numbers = map<string, real>

  /** The key does not separate the two items. */
  predicate Agree(a: Numbers, b: Numbers, key: string) {
    (key in a <==> key in b) && (key in a ==> a[key] == b[key])
  }

  /** `Item.Compare`: the first key that separates the items decides; an item
      lacking that key sorts after one that has it. */
  function CompareItems(a: Numbers, b: Numbers, keys: seq<string>): (r: int)
    ensures r == -1 || r == 0 || r == 1
    ensures r == 0 <==> forall i :: 0 <= i < |keys| ==> Agree(a, b, keys[i])
  {
    if |keys| == 0 then 0
    else if Agree(a, b, keys[0]) then
      assert forall i :: 1 <= i < |keys| ==> keys[i] == keys[1..][i - 1];
      CompareItems(a, b, keys[1..])
    else Decide(a, b, keys[0])
  }

  /** A non-zero answer is the answer of the first key that separates the items. */
  lemma {:induction false} CompareDecidedBy(a: Numbers, b: Numbers, keys: seq<string>, i: nat)
    requires i < |keys| && !Agree(a, b, keys[i])
    requires forall j :: 0 <= j < i ==> Agree(a, b, keys[j])
    ensures CompareItems(a, b, keys) == Decide(a, b, keys[i])
    decreases i
  {
    if i > 0 {
      CompareDecidedBy(a, b, keys[1..], i - 1);
    }
  }

  /** The answer of a key on which the items differ. */
  function Decide(a: Numbers, b: Numbers, key: string): int {
    if key !in a && key !in b then 0
    else if key !in a then 1
    else if key !in b then -1
    else if a[key] < b[key] then -1
    else if a[key] > b[key] then 1
    else 0
  }

  /** Swapping the items negates the answer. */
  lemma {:induction false} CompareAntisymmetric(a: Numbers, b: Numbers, keys: seq<string>)
    ensures CompareItems(a, b, keys) == -CompareItems(b, a, keys)
    decreases |keys|
  {
    if |keys| > 0 && Agree(a, b, keys[0]) {
      CompareAntisymmetric(a, b, keys[1..]);
    }
  }

  /** An item compares equal to itself. */
  lemma CompareReflexive(a: Numbers, keys: seq<string>)
    ensures CompareItems(a, a, keys) == 0
  {
  }

  // ---------------------------------------------------------------------------
  // KeyRange
  // ---------------------------------------------------------------------------

  datatype KeyRange = KeyRange(min: real, max: real, count: int)

  predicate ValidRange(kr: KeyRange) { kr.min <= kr.max && kr.count >= 1 }

  /** `NewKeyRange` */
  function NewKeyRange(v: real): (kr: KeyRange)
    ensures ValidRange(kr) && kr.min == v == kr.max && kr.count == 1
  {
    KeyRange(v, v, 1)
  }

  /** `KeyRange.Update`: widens the range to take in `v` and counts it. */
  function Update(kr: KeyRange, v: real): (r: KeyRange)
    ensures r.min <= v <= r.max
    ensures r.min <= kr.min && kr.max <= r.max
    ensures (r.min == kr.min || r.min == v) && (r.max == kr.max || r.max == v)
    ensures r.count == kr.count + 1
    ensures ValidRange(kr) ==> ValidRange(r)
  {
    KeyRange(if v < kr.min then v else kr.min, if v > kr.max then v else kr.max, kr.count + 1)
  }

  /** `KeyRange.Range` */
  function Range(kr: KeyRange): real { kr.max - kr.min }

  // ---------------------------------------------------------------------------
  // Key variants
  // ---------------------------------------------------------------------------

  /** `sanitizeKey`: the letters of `s`, lower-cased, in order. */
  function SanitizeKey(s: string): (r: string)
    ensures |r| <= |s|
    ensures forall i :: 0 <= i < |r| ==> IsLowerAscii(r[i])
    ensures forall i :: 0 <= i < |s| && IsLetter(s[i]) ==> LowerChar(s[i]) in r
  {
    if |s| == 0 then ""
    else
      var rest := SanitizeKey(s[1..]);
      assert forall i :: 1 <= i < |s| ==> s[i] == s[1..][i - 1];
      if IsLetter(s[0]) then [LowerChar(s[0])] + rest else rest
  }

  predicate NotLetter(c: char) { !IsLetter(c) }

  /** `sanitizeKey` is lower-casing after dropping non-letters. */
  lemma {:induction false} SanitizeKeyIsLowerLetters(s: string)
    ensures SanitizeKey(s) == ToLower(RemoveWhere(s, NotLetter))
    decreases |s|
  {
    if |s| > 0 {
      SanitizeKeyIsLowerLetters(s[1..]);
      if IsLetter(s[0]) {
        ToLowerConcat([s[0]], RemoveWhere(s[1..], NotLetter));
      }
    }
  }

  lemma {:induction false} SanitizeKeyIdempotent(s: string)
    ensures SanitizeKey(SanitizeKey(s)) == SanitizeKey(s)
    decreases |s|
  {
    if |s| > 0 {
      SanitizeKeyIdempotent(s[1..]);
      var rest := SanitizeKey(s[1..]);
      if IsLetter(s[0]) {
        assert ([LowerChar(s[0])] + rest)[1..] == rest;
      }
    }
  }

  /** The two keys are variants: one sanitized key contains the other. */
  predicate Variant(key: string, k: string) {
    Contains(SanitizeKey(key), SanitizeKey(k)) || Contains(SanitizeKey(k), SanitizeKey(key))
  }

  /** `hasKeyWithVariation`: the first available key that is a variant. */
  function FirstVariant(key: string, available: seq<string>): (r: Option<string>)
    ensures r.None? <==> forall i :: 0 <= i < |available| ==> !Variant(key, available[i])
    ensures r.Some? ==> r.value in available && Variant(key, r.value)
  {
    if |available| == 0 then None
    else if Variant(key, available[0]) then Some(available[0])
    else
      assert forall i :: 1 <= i < |available| ==> available[i] == available[1..][i - 1];
      FirstVariant(key, available[1..])
  }

  /** No key before the chosen one is a variant. */
  lemma {:induction false} FirstVariantIsFirst(key: string, available: seq<string>, i: nat)
    requires i < |available| && Variant(key, available[i])
    requires forall j :: 0 <= j < i ==> !Variant(key, available[j])
    ensures FirstVariant(key, available) == Some(available[i])
    decreases i
  {
    if i > 0 {
      FirstVariantIsFirst(key, available[1..], i - 1);
    }
  }

  lemma EmptyContained(s: string)
    ensures Contains(s, "")
  {
  }

  /** A key without letters (such as the empty key before a leading number)
      is a variant of every key, so it is mapped onto the first sort key. */
  lemma LetterlessKeyMatchesFirst(key: string, available: seq<string>)
    requires |available| > 0 && forall i :: 0 <= i < |key| ==> !IsLetter(key[i])
    ensures FirstVariant(key, available) == Some(available[0])
  {
    NoLettersSanitizeEmpty(key);
    EmptyContained(SanitizeKey(available[0]));
  }

  lemma {:induction false} NoLettersSanitizeEmpty(s: string)
    requires forall i :: 0 <= i < |s| ==> !IsLetter(s[i])
    ensures SanitizeKey(s) == ""
    decreases |s|
  {
    if |s| > 0 {
      NoLettersSanitizeEmpty(s[1..]);
    }
  }

  // ---------------------------------------------------------------------------
  // NewChapterSorter
  // ---------------------------------------------------------------------------

  type Ranges = map<string, KeyRange>

  predicate AllValid(ranges: Ranges) {
    forall k :: k in ranges ==> ValidRange(ranges[k])
  }

  /** One name's scan folded into the ranges. Each key occurs once in a scan,
      and the per-key updates commute, so the map's iteration order does not
      matter here. */
  function AddScan(ranges: Ranges, scanned: map<string, real>): (r: Ranges)
    ensures r.Keys == ranges.Keys + scanned.Keys
    ensures forall k :: k in r ==> r[k].count == (if k in ranges then ranges[k].count else 0)
                                              + (if k in scanned then 1 else 0)
    ensures AllValid(ranges) ==> AllValid(r)
  {
    map k | k in ranges.Keys + scanned.Keys ::
      if k in scanned then (if k in ranges then Update(ranges[k], scanned[k]) else NewKeyRange(scanned[k]))
      else ranges[k]
  }

  /** The first loop of `NewChapterSorter` over the names. */
  function Collect(strs: seq<string>): (r: Ranges)
    ensures AllValid(r)
    ensures forall k :: k in r ==> r[k].count <= |strs|
  {
    if |strs| == 0 then map[] else AddScan(Collect(strs[..|strs| - 1]), Scan(strs[|strs| - 1]))
  }

  /** The keys of `order` counted at least `half` times. */
  function TopKeys(ranges: Ranges, order: seq<string>, half: int): (r: seq<string>)
    requires forall i :: 0 <= i < |order| ==> order[i] in ranges
    ensures forall k :: k in r <==> k in order && ranges[k].count >= half
    ensures NoDuplicates(order) ==> NoDuplicates(r)
  {
    if |order| == 0 then []
    else
      var rest := TopKeys(ranges, order[1..], half);
      if ranges[order[0]].count >= half then [order[0]] + rest else rest
  }

  /** `mergeRepeatedKeyRanges`: every other key widens the range of the first
      top key it is a variant of, by its min and its max (two more counts). */
  function Merge(ranges: Ranges, top: seq<string>, order: seq<string>): (r: Ranges)
    requires forall i :: 0 <= i < |order| ==> order[i] in ranges
    requires forall k :: k in top ==> k in ranges
    ensures r.Keys == ranges.Keys
    ensures forall k :: k in ranges && k !in top ==> r[k] == ranges[k]
    ensures forall k :: k in top ==> r[k].count >= ranges[k].count
    ensures AllValid(ranges) ==> AllValid(r)
    decreases |order|
  {
    if |order| == 0 then ranges
    else
      var key := order[0];
      var next :=
        if key in top then ranges
        else match FirstVariant(key, top)
          case None => ranges
          case Some(t) =>
            ranges[t := Update(Update(ranges[t], ranges[key].min), ranges[key].max)];
      Merge(next, top, order[1..])
  }

  /** The `sort.Slice` comparator: higher count first; at equal count the
      key whose range is SMALLER comes first (the code's `b.Range() > a.Range()`),
      although the comment beside it says descending. */
  function KeyBefore(ranges: Ranges, a: string, b: string): (r: bool)
    ensures r ==> a in ranges && b in ranges && ranges[b].count <= ranges[a].count
    ensures a in ranges && b in ranges && ranges[b].count < ranges[a].count ==> r
    ensures a == b ==> !r
  {
    if a !in ranges || b !in ranges then false
    else
      var ra := ranges[a];
      var rb := ranges[b];
      if ra.count != rb.count then rb.count < ra.count else Range(rb) > Range(ra)
  }

  lemma KeyBeforeAsymmetric(ranges: Ranges)
    ensures Asymmetric((a, b) => KeyBefore(ranges, a, b))
  {
  }

  lemma KeyBeforeTransitive(ranges: Ranges)
    ensures Transitive((a, b) => KeyBefore(ranges, a, b))
  {
  }

  datatype ChapterSorter = ChapterSorter(sortedKeys: seq<string>, ranges: Ranges)

  /** `NewChapterSorter`. `order` and `mergeOrder` are the iteration orders of
      the key map in its two loops. */
  function NewChapterSorter(strs: seq<string>, order: seq<string>, mergeOrder: seq<string>): (cs: ChapterSorter)
    requires Enumerates(order, Collect(strs).Keys) && Enumerates(mergeOrder, Collect(strs).Keys)
    ensures forall k :: k in cs.sortedKeys <==> k in Collect(strs) && Collect(strs)[k].count >= |strs| / 2
    ensures NoDuplicates(cs.sortedKeys)
    ensures forall k :: k in cs.sortedKeys ==> k in cs.ranges
    ensures forall i, j :: 0 <= i < j < |cs.sortedKeys| && j == i + 1 ==>
      cs.ranges[cs.sortedKeys[i]].count >= cs.ranges[cs.sortedKeys[j]].count
      && (cs.ranges[cs.sortedKeys[i]].count == cs.ranges[cs.sortedKeys[j]].count ==>
            Range(cs.ranges[cs.sortedKeys[i]]) <= Range(cs.ranges[cs.sortedKeys[j]]))
  {
    var ranges := Collect(strs);
    var top := TopKeys(ranges, order, |strs| / 2);
    var merged := Merge(ranges, top, mergeOrder);
    var less := (a, b) => KeyBefore(merged, a, b);
    KeyBeforeAsymmetric(merged);
    var sorted := Sort(top, less);
    SortedNoDuplicates(top, sorted);
    SortedKeysAdjacent(merged, sorted);
    ChapterSorter(sorted, merged)
  }

  lemma SortedNoDuplicates(top: seq<string>, sorted: seq<string>)
    requires NoDuplicates(top) && multiset(sorted) == multiset(top)
    ensures NoDuplicates(sorted) && forall k :: k in sorted <==> k in top
  {
    PermutationNoDuplicates(top, sorted);
    forall k ensures k in sorted <==> k in top {
      assert k in sorted <==> k in multiset(sorted);
      assert k in top <==> k in multiset(top);
    }
  }

  lemma SortedKeysAdjacent(merged: Ranges, sorted: seq<string>)
    requires Sorted(sorted, (a, b) => KeyBefore(merged, a, b))
    requires forall k :: k in sorted ==> k in merged
    ensures forall i, j :: 0 <= i < j < |sorted| && j == i + 1 ==>
      merged[sorted[i]].count >= merged[sorted[j]].count
      && (merged[sorted[i]].count == merged[sorted[j]].count ==>
            Range(merged[sorted[i]]) <= Range(merged[sorted[j]]))
  {
    forall i, j | 0 <= i < j < |sorted| && j == i + 1
      ensures merged[sorted[i]].count >= merged[sorted[j]].count
      ensures merged[sorted[i]].count == merged[sorted[j]].count ==>
            Range(merged[sorted[i]]) <= Range(merged[sorted[j]])
    {
      assert !KeyBefore(merged, sorted[j], sorted[i]);
    }
  }

  // ---------------------------------------------------------------------------
  // ChapterSorter.Compare
  // ---------------------------------------------------------------------------

  /** `strToItem`: each scanned key is renamed to its first variant among the
      sort keys; `order` is the scan map's iteration order, which decides the
      value kept when two keys land on the same name. */
  function StrToItem(sortedKeys: seq<string>, scanned: map<string, real>, order: seq<string>): (n: Numbers)
    requires forall i :: 0 <= i < |order| ==> order[i] in scanned
    ensures forall k :: k in n ==> n[k] in scanned.Values
    ensures forall i :: 0 <= i < |order| ==> Rename(sortedKeys, order[i]) in n
    decreases |order|
  {
    if |order| == 0 then map[]
    else
      var k := order[|order| - 1];
      var rest := StrToItem(sortedKeys, scanned, order[..|order| - 1]);
      assert forall i :: 0 <= i < |order| - 1 ==> order[..|order| - 1][i] == order[i];
      rest[Rename(sortedKeys, k) := scanned[k]]
  }

  /** The name a scanned key is stored under. */
  function Rename(sortedKeys: seq<string>, k: string): string {
    match FirstVariant(k, sortedKeys)
    case Some(t) => t
    case None => k
  }

  /** `ChapterSorter.Compare` */
  function Compare(cs: ChapterSorter, a: string, b: string, orderA: seq<string>, orderB: seq<string>): (r: int)
    requires Enumerates(orderA, Scan(a).Keys) && Enumerates(orderB, Scan(b).Keys)
    ensures r == -1 || r == 0 || r == 1
  {
    CompareItems(StrToItem(cs.sortedKeys, Scan(a), orderA), StrToItem(cs.sortedKeys, Scan(b), orderB), cs.sortedKeys)
  }

  /** Swapping two names negates the comparison, so a name sorts before
      another exactly when the other sorts after it. */
  lemma CompareSwapped(cs: ChapterSorter, a: string, b: string, orderA: seq<string>, orderB: seq<string>)
    requires Enumerates(orderA, Scan(a).Keys) && Enumerates(orderB, Scan(b).Keys)
    ensures Compare(cs, a, b, orderA, orderB) == -Compare(cs, b, a, orderB, orderA)
  {
    CompareAntisymmetric(StrToItem(cs.sortedKeys, Scan(a), orderA), StrToItem(cs.sortedKeys, Scan(b), orderB), cs.sortedKeys);
  }

  /** A name compares equal to itself whatever the scan order. */
  lemma CompareSelf(cs: ChapterSorter, a: string, order: seq<string>)
    requires Enumerates(order, Scan(a).Keys)
    ensures Compare(cs, a, a, order, order) == 0
  {
  }
}
