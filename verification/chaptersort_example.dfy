/** The scenario of internal/util/chaptersort_test.go: five chapter names,
    given in reverse, sort back into reading order. "Ch." occurs in all five
    names and "Vol." in three, both at least half of five, so both become sort
    keys, "Ch." first; the chapter numbers 1, 2, 2.5, 3 and 4 then order the
    names. */
module ChapterSortExample {
  import opened Strings
  import opened Sorting
  import Results
  import Strconv
  import opened ChapterSort

  /** The sort keys the test's names produce. */
  const SortKeys: seq<string> := ["Ch.", "Vol."]

  // ---------------------------------------------------------------------------
  // Scanning the five names
  // ---------------------------------------------------------------------------

  /** At `p` a key up to `q`, blanks up to `n` and a whole number up to `e`
      that no digit or decimal point follows: the scan records the key with
      the number's value and goes on after the number. */
  lemma ScanWhole(s: string, p: nat, q: nat, n: nat, e: nat, acc: map<string, real>)
    requires p <= q <= n < e <= |s|
    requires forall i :: p <= i < q ==> KeyChar(s[i])
    requires forall i :: q <= i < n ==> s[i] == ' '
    requires forall i :: n <= i < e ==> IsDigit(s[i])
    requires e < |s| ==> !IsDigit(s[e]) && s[e] != '.'
    ensures Strconv.AllDigits(s[n..e])
    ensures ScanFrom(s, p, acc) == ScanFrom(s, e, acc[s[p..q] := Strconv.DigitsValue(s[n..e]) as real])
  {
    SpanEndAt(s, p, q, KeyChar);
    SpanEndAt(s, q, n, IsBlank);
    SpanEndAt(s, n, e, IsDigit);
    assert NumberAt(s, n);
    assert Strconv.AllDigits(s[n..e]);
    assert Decimal(s[n..e], "") == Strconv.DigitsValue(s[n..e]) as real;
    ScanNumberStep(s, p, acc, q, n);
  }

  /** A name that is one key, blanks and a whole number. */
  lemma ScanOnePair(s: string, q: nat, n: nat)
    requires q <= n < |s|
    requires forall i :: 0 <= i < q ==> KeyChar(s[i])
    requires forall i :: q <= i < n ==> s[i] == ' '
    requires forall i :: n <= i < |s| ==> IsDigit(s[i])
    ensures Strconv.AllDigits(s[n..])
    ensures Scan(s) == map[s[0..q] := Strconv.DigitsValue(s[n..]) as real]
  {
    ScanWhole(s, 0, q, n, |s|, map[]);
    assert s[n..|s|] == s[n..];
    ScanFromEnd(s, map[][s[0..q] := Strconv.DigitsValue(s[n..]) as real]);
    ScanIsScanFrom(s);
    SingleEntry(s[0..q], Strconv.DigitsValue(s[n..]) as real);
  }

  lemma ScanCh04(s: string)
    requires s == "Ch.04"
    ensures Scan(s) == map["Ch." := 4.0]
  {
    ScanOnePair(s, 3, 3);
    assert s[0..3] == "Ch." && s[3..] == "04";
    assert Strconv.DigitsValue("04") == 4;
  }

  lemma ScanCh3(s: string)
    requires s == "Ch. 3"
    ensures Scan(s) == map["Ch." := 3.0]
  {
    ScanOnePair(s, 3, 4);
    assert s[0..3] == "Ch." && s[4..] == "3";
    assert Strconv.DigitsValue("3") == 3;
  }

  /** "Vol.1 Ch.0d" for a digit d: Vol. → 1, then Ch. → d. */
  lemma ScanVolumeOne(s: string, d: char)
    requires s == "Vol.1 Ch.0" + [d] && IsDigit(d)
    ensures Scan(s) == map["Vol." := 1.0, "Ch." := (d as int - '0' as int) as real]
  {
    var acc := map["Vol." := 1.0];
    var v := (d as int - '0' as int) as real;
    VolumeOneStep(s, d);
    assert s[5] == ' ' && s[6] == 'C';
    ScanSkip(s, 5, 6, acc);
    ChapterStep(s, d, acc);
    ScanFromEnd(s, acc["Ch." := v]);
    ScanIsScanFrom(s);
  }

  lemma VolumeOneStep(s: string, d: char)
    requires s == "Vol.1 Ch.0" + [d] && IsDigit(d)
    ensures ScanFrom(s, 0, map[]) == ScanFrom(s, 5, map["Vol." := 1.0])
  {
    var key, digits := s[0..4], s[4..5];
    assert key == "Vol." && digits == "1";
    ScanWhole(s, 0, 4, 4, 5, map[]);
    assert Strconv.DigitsValue("1") == 1;
    SameUpdate(map[], key, "Vol.", Strconv.DigitsValue(digits) as real, 1.0);
  }

  lemma ChapterStep(s: string, d: char, acc: map<string, real>)
    requires s == "Vol.1 Ch.0" + [d] && IsDigit(d)
    ensures ScanFrom(s, 6, acc) == ScanFrom(s, 11, acc["Ch." := (d as int - '0' as int) as real])
  {
    var key, digits := s[6..9], s[9..11];
    assert key == "Ch." && digits == ['0', d];
    ScanWhole(s, 6, 9, 9, 11, acc);
    ZeroThenDigit(d);
    SameUpdate(acc, key, "Ch.", Strconv.DigitsValue(digits) as real, (d as int - '0' as int) as real);
  }

  lemma SameUpdate(acc: map<string, real>, k1: string, k2: string, v1: real, v2: real)
    requires k1 == k2 && v1 == v2
    ensures acc[k1 := v1] == acc[k2 := v2]
  {
  }

  lemma ZeroThenDigit(d: char)
    requires IsDigit(d)
    ensures Strconv.AllDigits(['0', d]) && Strconv.DigitsValue(['0', d]) == d as int - '0' as int
  {
    assert ['0', d][..1] == ['0'] && ['0'][..0] == [];
    assert Strconv.DigitsValue(['0']) == 0;
  }

  /** The scans of the five names. */
  lemma ScansOfNames()
    ensures Scan("Vol.1 Ch.01") == map["Vol." := 1.0, "Ch." := 1.0]
    ensures Scan("Vol.1 Ch.02") == map["Vol." := 1.0, "Ch." := 2.0]
    ensures Scan("Vol.2 Ch. 2.5") == map["Vol." := 2.0, "Ch." := 2.5]
    ensures Scan("Ch. 3") == map["Ch." := 3.0]
    ensures Scan("Ch.04") == map["Ch." := 4.0]
  {
    ScanVolumeOne("Vol.1 Ch.01", '1');
    ScanVolumeOne("Vol.1 Ch.02", '2');
    ScanVolumeAndChapter();
    ScanCh3("Ch. 3");
    ScanCh04("Ch.04");
  }

  // ---------------------------------------------------------------------------
  // The sorter built from the received names
  // ---------------------------------------------------------------------------

  lemma CollectSnoc(strs: seq<string>, x: string)
    ensures Collect(strs + [x]) == AddScan(Collect(strs), Scan(x))
  {
    assert (strs + [x])[..|strs|] == strs;
  }

  /** The ranges hold at most "Ch." and "Vol.", counted `ch` and `vol` times. */
  predicate Counted(r: Ranges, ch: int, vol: int) {
    r.Keys <= {"Ch.", "Vol."}
    && ("Ch." in r <==> ch > 0) && ("Ch." in r ==> r["Ch."].count == ch)
    && ("Vol." in r <==> vol > 0) && ("Vol." in r ==> r["Vol."].count == vol)
  }

  /** One more name with "Ch." and perhaps "Vol." folded into the ranges. */
  lemma CountedStep(strs: seq<string>, k: nat, ch: nat, vol: nat, hasVol: bool)
    requires k < |strs|
    requires Counted(Collect(strs[..k]), ch, vol)
    requires Scan(strs[k]).Keys == if hasVol then {"Vol.", "Ch."} else {"Ch."}
    ensures Counted(Collect(strs[..k + 1]), ch + 1, vol + if hasVol then 1 else 0)
  {
    assert strs[..k + 1] == strs[..k] + [strs[k]];
    CollectSnoc(strs[..k], strs[k]);
  }

  /** Five names of which the last three carry "Vol." and all carry "Ch.":
      "Ch." is counted five times and "Vol." three times. */
  lemma CollectFive(strs: seq<string>)
    requires |strs| == 5
    requires Scan(strs[0]).Keys == {"Ch."} && Scan(strs[1]).Keys == {"Ch."}
    requires Scan(strs[2]).Keys == {"Vol.", "Ch."} && Scan(strs[3]).Keys == {"Vol.", "Ch."}
    requires Scan(strs[4]).Keys == {"Vol.", "Ch."}
    ensures Collect(strs).Keys == {"Ch.", "Vol."}
    ensures Collect(strs)["Ch."].count == 5 && Collect(strs)["Vol."].count == 3
  {
    CollectFront(strs);
    CollectBack(strs);
    WholePrefix(strs);
    CountedKeys(Collect(strs), 5, 3);
  }

  lemma CollectFront(strs: seq<string>)
    requires |strs| == 5
    requires Scan(strs[0]).Keys == {"Ch."} && Scan(strs[1]).Keys == {"Ch."}
    ensures Counted(Collect(strs[..2]), 2, 0)
  {
    CountedNone(strs);
    CountedStep(strs, 0, 0, 0, false);
    CountedStep(strs, 1, 1, 0, false);
  }

  lemma CollectBack(strs: seq<string>)
    requires |strs| == 5 && Counted(Collect(strs[..2]), 2, 0)
    requires Scan(strs[2]).Keys == {"Vol.", "Ch."} && Scan(strs[3]).Keys == {"Vol.", "Ch."}
    requires Scan(strs[4]).Keys == {"Vol.", "Ch."}
    ensures Counted(Collect(strs[..5]), 5, 3)
  {
    CountedStep(strs, 2, 2, 0, true);
    CountedStep(strs, 3, 3, 1, true);
    CountedStep(strs, 4, 4, 2, true);
  }

  lemma WholePrefix(strs: seq<string>)
    ensures Collect(strs[..|strs|]) == Collect(strs)
  {
    assert strs[..|strs|] == strs;
  }

  lemma CountedNone(strs: seq<string>)
    ensures Counted(Collect(strs[..0]), 0, 0)
  {
  }

  lemma CountedKeys(r: Ranges, ch: nat, vol: nat)
    requires Counted(r, ch, vol) && ch > 0 && vol > 0
    ensures r.Keys == {"Ch.", "Vol."} && r["Ch."].count == ch && r["Vol."].count == vol
  {
  }

  /** The names as the test hands them to the sorter, in reverse reading
      order. */
  predicate IsReceived(strs: seq<string>) {
    |strs| == 5 && strs[0] == "Ch.04" && strs[1] == "Ch. 3" && strs[2] == "Vol.2 Ch. 2.5"
    && strs[3] == "Vol.1 Ch.02" && strs[4] == "Vol.1 Ch.01"
  }

  /** The ranges of the received names. */
  lemma CollectReceived(strs: seq<string>)
    requires IsReceived(strs)
    ensures Collect(strs).Keys == {"Ch.", "Vol."}
    ensures Collect(strs)["Ch."].count == 5 && Collect(strs)["Vol."].count == 3
  {
    ScanKeysOfReceived(strs);
    CollectFive(strs);
  }

  lemma ScanKeysOfReceived(strs: seq<string>)
    requires IsReceived(strs)
    ensures Scan(strs[0]).Keys == {"Ch."} && Scan(strs[1]).Keys == {"Ch."}
    ensures Scan(strs[2]).Keys == {"Vol.", "Ch."} && Scan(strs[3]).Keys == {"Vol.", "Ch."}
    ensures Scan(strs[4]).Keys == {"Vol.", "Ch."}
  {
    ScanVolumeOne(strs[4], '1');
    ScanVolumeOne(strs[3], '2');
    ScanVolumeAndChapter();
    ScanCh3(strs[1]);
    ScanCh04(strs[0]);
    OneKey(Scan(strs[0]), 4.0);
    OneKey(Scan(strs[1]), 3.0);
    TwoKeys(Scan(strs[2]), 2.0, 2.5);
    TwoKeys(Scan(strs[3]), 1.0, 2.0);
    TwoKeys(Scan(strs[4]), 1.0, 1.0);
  }

  lemma OneKey(m: map<string, real>, c: real)
    requires m == map["Ch." := c]
    ensures m.Keys == {"Ch."}
  {
  }

  lemma TwoKeys(m: map<string, real>, v: real, c: real)
    requires m == map["Vol." := v, "Ch." := c]
    ensures m.Keys == {"Vol.", "Ch."}
  {
  }

  /** A merge pass over keys that are all sort keys changes nothing: only the
      other keys are merged into a sort key. */
  lemma {:induction false} MergeOfTopKeys(ranges: Ranges, top: seq<string>, order: seq<string>)
    requires forall i :: 0 <= i < |order| ==> order[i] in ranges && order[i] in top
    requires forall k :: k in top ==> k in ranges
    ensures Merge(ranges, top, order) == ranges
    decreases |order|
  {
    if |order| > 0 {
      MergeOfTopKeys(ranges, top, order[1..]);
    }
  }

  /** A duplicate-free listing of the two keys with the more frequent one
      first. */
  lemma TwoKeysOrdered(s: seq<string>, ranges: Ranges)
    requires NoDuplicates(s) && forall k :: k in s <==> k == "Ch." || k == "Vol."
    requires "Ch." in ranges && "Vol." in ranges && ranges["Vol."].count < ranges["Ch."].count
    requires forall k :: k in s ==> k in ranges
    requires |s| >= 2 ==> ranges[s[0]].count >= ranges[s[1]].count
    ensures s == SortKeys
  {
    assert "Ch." in s && "Vol." in s;
    FirstThree(s);
  }

  lemma FirstThree(s: seq<string>)
    ensures |s| >= 3 ==> s[0] in s && s[1] in s && s[2] in s
    ensures |s| >= 2 ==> s[0] in s && s[1] in s
  {
  }

  /** The sorter built from the received names, whatever the iteration
      orders of its key map: "Ch." and "Vol." are the sort keys, "Ch." first. */
  lemma SorterOfReceived(strs: seq<string>, order: seq<string>, mergeOrder: seq<string>)
    requires IsReceived(strs)
    requires Enumerates(order, Collect(strs).Keys) && Enumerates(mergeOrder, Collect(strs).Keys)
    ensures NewChapterSorter(strs, order, mergeOrder).sortedKeys == SortKeys
  {
    CollectReceived(strs);
    SorterOfCounts(strs, order, mergeOrder);
  }

  /** Five names in which "Ch." is counted five times and "Vol." three times,
      and no other key occurs. */
  lemma SorterOfCounts(strs: seq<string>, order: seq<string>, mergeOrder: seq<string>)
    requires |strs| == 5
    requires Collect(strs).Keys == {"Ch.", "Vol."}
    requires Collect(strs)["Ch."].count == 5 && Collect(strs)["Vol."].count == 3
    requires Enumerates(order, Collect(strs).Keys) && Enumerates(mergeOrder, Collect(strs).Keys)
    ensures NewChapterSorter(strs, order, mergeOrder).sortedKeys == SortKeys
  {
    SorterRanges(strs, order, mergeOrder);
    assert SorterContract(NewChapterSorter(strs, order, mergeOrder), Collect(strs), |strs| / 2);
    SortedKeysFromCounts(NewChapterSorter(strs, order, mergeOrder), Collect(strs), |strs| / 2);
  }

  /** The contract of `NewChapterSorter`, stated of a sorter `cs` whose ranges
      are `r` and whose keys were kept when counted at least `half` times. */
  ghost predicate SorterContract(cs: ChapterSorter, r: Ranges, half: int) {
    (forall k :: k in cs.sortedKeys <==> k in r && r[k].count >= half)
    && NoDuplicates(cs.sortedKeys)
    && cs.ranges == r
    && (forall k :: k in cs.sortedKeys ==> k in cs.ranges)
    && (forall i, j :: 0 <= i < j < |cs.sortedKeys| && j == i + 1 ==>
          cs.ranges[cs.sortedKeys[i]].count >= cs.ranges[cs.sortedKeys[j]].count)
  }

  /** Both keys are sort keys, so the merge pass leaves the ranges as
      collected. */
  lemma SorterRanges(strs: seq<string>, order: seq<string>, mergeOrder: seq<string>)
    requires |strs| == 5
    requires Collect(strs).Keys == {"Ch.", "Vol."}
    requires Collect(strs)["Ch."].count == 5 && Collect(strs)["Vol."].count == 3
    requires Enumerates(order, Collect(strs).Keys) && Enumerates(mergeOrder, Collect(strs).Keys)
    ensures NewChapterSorter(strs, order, mergeOrder).ranges == Collect(strs)
  {
    var ranges := Collect(strs);
    var top := TopKeys(ranges, order, |strs| / 2);
    assert forall k :: k in top <==> k in ranges.Keys;
    MergeOfTopKeys(ranges, top, mergeOrder);
  }

  /** What the contract of `NewChapterSorter` says of these counts: the sort
      keys are "Ch." then "Vol.". */
  lemma SortedKeysFromCounts(cs: ChapterSorter, r: Ranges, half: int)
    requires half == 2
    requires r.Keys == {"Ch.", "Vol."} && r["Ch."].count == 5 && r["Vol."].count == 3
    requires SorterContract(cs, r, half)
    ensures cs.sortedKeys == SortKeys
  {
    var s := cs.sortedKeys;
    assert |s| >= 2 ==> r[s[0]].count >= r[s[1]].count;
    TwoKeysOrdered(s, r);
  }

  // ---------------------------------------------------------------------------
  // Comparing the names
  // ---------------------------------------------------------------------------

  /** Each scanned key is stored under its own name: "Ch." and "Vol." are
      variants only of themselves. */
  lemma SanitizedKeys()
    ensures SanitizeKey("Ch.") == "ch" && SanitizeKey("Vol.") == "vol"
  {
  }

  lemma KeyVariants()
    ensures Variant("Ch.", "Ch.") && Variant("Vol.", "Vol.") && !Variant("Vol.", "Ch.")
  {
    SelfVariant("Ch.");
    SelfVariant("Vol.");
    SanitizedKeys();
    NotVariantByChars("Vol.", "Ch.", 'v', 'c');
  }

  lemma SelfVariant(k: string)
    ensures Variant(k, k)
  {
    ContainsAt(SanitizeKey(k), SanitizeKey(k), 0);
  }

  /** Keys each of whose sanitised forms has a letter the other lacks are not
      variants. */
  lemma NotVariantByChars(a: string, b: string, ca: char, cb: char)
    requires cb in SanitizeKey(b) && cb !in SanitizeKey(a)
    requires ca in SanitizeKey(a) && ca !in SanitizeKey(b)
    ensures !Variant(a, b)
  {
    NotContainsByChar(SanitizeKey(a), SanitizeKey(b), cb);
    NotContainsByChar(SanitizeKey(b), SanitizeKey(a), ca);
  }

  lemma RenameKeepsKeys()
    ensures Rename(SortKeys, "Ch.") == "Ch." && Rename(SortKeys, "Vol.") == "Vol."
  {
    KeyVariants();
    assert FirstVariant("Vol.", SortKeys[1..]) == Results.Some("Vol.");
  }

  /** Every key of `ks` is a variant of no earlier sorted key than itself. */
  ghost predicate FixedNames(keys: seq<string>, ks: set<string>) {
    forall k :: k in ks ==> Rename(keys, k) == k
  }

  lemma SortKeysFixed()
    ensures FixedNames(SortKeys, {"Ch.", "Vol."})
  {
    RenameKeepsKeys();
  }

  lemma FixedNamesSubset(keys: seq<string>, a: set<string>, b: set<string>)
    requires a <= b && FixedNames(keys, b)
    ensures FixedNames(keys, a)
  {
  }

  /** The entries of `scanned` under the names of `order`, later ones last. */
  function Picked(scanned: Numbers, order: seq<string>): Numbers
    requires forall i :: 0 <= i < |order| ==> order[i] in scanned
    decreases |order|
  {
    if |order| == 0 then map[]
    else
      var k := order[|order| - 1];
      var init := order[..|order| - 1];
      assert forall i :: 0 <= i < |init| ==> init[i] == order[i];
      Picked(scanned, init)[k := scanned[k]]
  }

  /** With every key renamed to itself, an item picks the scan's entries. */
  lemma {:induction false} StrToItemIsPicked(keys: seq<string>, scanned: Numbers, order: seq<string>)
    requires forall i :: 0 <= i < |order| ==> order[i] in scanned && Rename(keys, order[i]) == order[i]
    ensures StrToItem(keys, scanned, order) == Picked(scanned, order)
    decreases |order|
  {
    if |order| > 0 {
      var init := order[..|order| - 1];
      assert forall i :: 0 <= i < |init| ==> init[i] == order[i];
      StrToItemIsPicked(keys, scanned, init);
    }
  }

  lemma {:induction false} PickedEntries(scanned: Numbers, order: seq<string>)
    requires forall i :: 0 <= i < |order| ==> order[i] in scanned
    ensures forall k :: k in Picked(scanned, order) <==> k in order
    ensures forall k :: k in Picked(scanned, order) ==> Picked(scanned, order)[k] == scanned[k]
    decreases |order|
  {
    if |order| > 0 {
      var init := order[..|order| - 1];
      assert forall i :: 0 <= i < |init| ==> init[i] == order[i];
      PickedEntries(scanned, init);
      assert order == init + [order[|order| - 1]];
    }
  }

  lemma StrToItemOfFixed(keys: seq<string>, scanned: Numbers, order: seq<string>)
    requires Enumerates(order, scanned.Keys) && FixedNames(keys, scanned.Keys)
    ensures StrToItem(keys, scanned, order) == scanned
  {
    StrToItemIsPicked(keys, scanned, order);
    PickedEntries(scanned, order);
  }

  lemma StrToItemIsScan(scanned: map<string, real>, order: seq<string>)
    requires Enumerates(order, scanned.Keys) && scanned.Keys <= {"Ch.", "Vol."}
    ensures StrToItem(SortKeys, scanned, order) == scanned
  {
    SortKeysFixed();
    FixedNamesSubset(SortKeys, scanned.Keys, {"Ch.", "Vol."});
    StrToItemOfFixed(SortKeys, scanned, order);
  }

  /** Both names scan to at most "Ch." and "Vol.", and the chapter number of
      `a` is the smaller. */
  predicate ChapterBefore(a: string, b: string) {
    Scan(a).Keys <= {"Ch.", "Vol."} && Scan(b).Keys <= {"Ch.", "Vol."}
    && "Ch." in Scan(a) && "Ch." in Scan(b) && Scan(a)["Ch."] < Scan(b)["Ch."]
  }

  /** Read in reverse, each received name has the smaller chapter number than
      the one before it. */
  lemma ReceivedChapters(strs: seq<string>)
    requires IsReceived(strs)
    ensures ChapterBefore(strs[4], strs[3]) && ChapterBefore(strs[3], strs[2])
    ensures ChapterBefore(strs[2], strs[1]) && ChapterBefore(strs[1], strs[0])
  {
    ScanKeysOfReceived(strs);
    ScansOfNames();
  }

  /** Two names whose scans both hold "Ch." compare by their chapter numbers
      when "Ch." is the first sort key. */
  lemma CompareByChapter(cs: ChapterSorter, a: string, b: string, orderA: seq<string>, orderB: seq<string>)
    requires cs.sortedKeys == SortKeys
    requires Enumerates(orderA, Scan(a).Keys) && Enumerates(orderB, Scan(b).Keys)
    requires ChapterBefore(a, b)
    ensures Compare(cs, a, b, orderA, orderB) == -1
  {
    var x := Scan(a);
    var y := Scan(b);
    ScansByChapter(cs.sortedKeys, x, y, orderA, orderB);
    CompareByItems(cs, a, b, orderA, orderB);
  }

  /** Scans holding "Ch." are stored as they are, and so decided by it. */
  lemma ScansByChapter(keys: seq<string>, x: Numbers, y: Numbers, orderA: seq<string>, orderB: seq<string>)
    requires keys == SortKeys
    requires Enumerates(orderA, x.Keys) && Enumerates(orderB, y.Keys)
    requires x.Keys <= {"Ch.", "Vol."} && y.Keys <= {"Ch.", "Vol."}
    requires "Ch." in x && "Ch." in y && x["Ch."] < y["Ch."]
    ensures CompareItems(StrToItem(keys, x, orderA), StrToItem(keys, y, orderB), keys) == -1
  {
    StrToItemIsScan(x, orderA);
    StrToItemIsScan(y, orderB);
    ItemsByChapter(x, y);
  }

  /** `Compare` is the comparison of the two items. */
  lemma CompareByItems(cs: ChapterSorter, a: string, b: string, orderA: seq<string>, orderB: seq<string>)
    requires Enumerates(orderA, Scan(a).Keys) && Enumerates(orderB, Scan(b).Keys)
    ensures Compare(cs, a, b, orderA, orderB)
         == CompareItems(StrToItem(cs.sortedKeys, Scan(a), orderA), StrToItem(cs.sortedKeys, Scan(b), orderB), cs.sortedKeys)
  {
  }

  /** Items that both hold "Ch." are decided by it, the first sort key. */
  lemma ItemsByChapter(x: Numbers, y: Numbers)
    requires "Ch." in x && "Ch." in y && x["Ch."] < y["Ch."]
    ensures CompareItems(x, y, SortKeys) == -1
  {
    CompareDecidedBy(x, y, SortKeys, 0);
  }

  // ---------------------------------------------------------------------------
  // The test
  // ---------------------------------------------------------------------------

  /** `TestChapterSortSubstrings`: the sorter built from the names received in
      reverse order puts each name before the next one in reading order,
      "Vol.1 Ch.01" < "Vol.1 Ch.02" < "Vol.2 Ch. 2.5" < "Ch. 3" < "Ch.04",
      whatever the iteration orders of the key map and of each scan. */
  lemma SortsBackIntoReadingOrder(strs: seq<string>, order: seq<string>, mergeOrder: seq<string>,
                                  orders: seq<seq<string>>)
    requires IsReceived(strs)
    requires Enumerates(order, Collect(strs).Keys) && Enumerates(mergeOrder, Collect(strs).Keys)
    requires |orders| == 5 && forall j :: 0 <= j < 5 ==> Enumerates(orders[j], Scan(strs[j]).Keys)
    ensures var cs := NewChapterSorter(strs, order, mergeOrder);
      Compare(cs, strs[4], strs[3], orders[4], orders[3]) == -1
      && Compare(cs, strs[3], strs[2], orders[3], orders[2]) == -1
      && Compare(cs, strs[2], strs[1], orders[2], orders[1]) == -1
      && Compare(cs, strs[1], strs[0], orders[1], orders[0]) == -1
  {
    var cs := NewChapterSorter(strs, order, mergeOrder);
    SorterOfReceived(strs, order, mergeOrder);
    ReceivedChapters(strs);
    CompareByChapter(cs, strs[4], strs[3], orders[4], orders[3]);
    CompareByChapter(cs, strs[3], strs[2], orders[3], orders[2]);
    CompareByChapter(cs, strs[2], strs[1], orders[2], orders[1]);
    CompareByChapter(cs, strs[1], strs[0], orders[1], orders[0]);
  }
}
