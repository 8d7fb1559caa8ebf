/** The chapter-number clean-up of the WeebCentral provider
    (`cleanChapterNumber`, internal/downloader/providers/weebcentral/weebcentral.go):
    leading zeros are dropped, and an all-zero number becomes "0". The input is
    what the chapter pattern `\d+(\.\d+)?` captured from the chapter title. */
module WeebCentral {
  import opened Strings

  predicate IsZero(c: char) { c == '0' }

  predicate IsDigit(c: char) { '0' <= c <= '9' }

  predicate AllDigits(s: string) {
    forall i :: 0 <= i < |s| ==> IsDigit(s[i])
  }

  /** What `\d+(\.\d+)?` matches: digits, optionally a '.' and more digits. */
  predicate IsChapterNumber(s: string) {
    (|s| > 0 && AllDigits(s))
    || exists k :: 0 < k < |s| - 1 && DotAt(s, k)
  }

  /** `s` is digits, a '.' at `k`, then digits. */
  predicate DotAt(s: string, k: int) {
    0 < k < |s| - 1 && s[k] == '.' && AllDigits(s[..k]) && AllDigits(s[k + 1..])
  }

  /** `cleanChapterNumber`, as written: `strings.TrimLeft(s, "0")`, or "0"
      when nothing is left. */
  function CleanChapterNumber(s: string): (r: string)
    ensures r != ""
    ensures (forall i :: 0 <= i < |s| ==> IsZero(s[i])) <==> r == "0"
    ensures r != "0" ==> HasSuffix(s, r) && !IsZero(r[0])
                         && forall i :: 0 <= i < |s| - |r| ==> IsZero(s[i])
  {
    var cleaned := TrimLeftWhile(s, IsZero);
    if cleaned == "" then "0" else cleaned
  }

  /** Cleaning twice is cleaning once. */
  lemma CleanIdempotent(s: string)
    ensures CleanChapterNumber(CleanChapterNumber(s)) == CleanChapterNumber(s)
  {
    var r := CleanChapterNumber(s);
    if r != "0" {
      assert TrimLeftWhile(r, IsZero) == r;
    }
  }

  /** As written, a chapter number below one loses its integer part: "0.5"
      comes out as ".5", which is no longer a chapter number. */
  lemma HalfChapterLosesZero()
    ensures IsChapterNumber("0.5")
    ensures CleanChapterNumber("0.5") == ".5"
    ensures !IsChapterNumber(".5")
  {
    var s := "0.5";
    assert s[..1] == "0" && s[2..] == "5";
    assert DotAt(s, 1);
    var t := s[1..];
    assert t == ".5" && t[0] == '.';
    assert TrimLeftWhile(t, IsZero) == t;
    assert !AllDigits(t) by {
      assert !IsDigit(t[0]);
    }
  }

  /** A number whose integer part has no superfluous leading zero: it is
      "0" or starts "0." when it starts with a zero at all. */
  predicate NoLeadingZero(r: string) {
    |r| > 0 && (IsZero(r[0]) ==> |r| == 1 || r[1] == '.')
  }

  /** The clean-up that keeps the number a number: leading zeros are dropped
      while a digit follows them, so one zero stays before a '.'. */
  function CleanChapterNumberIntended(s: string): (r: string)
    ensures r != ""
    ensures s != "" ==> HasSuffix(s, r) && forall i :: 0 <= i < |s| - |r| ==> IsZero(s[i])
    ensures IsChapterNumber(s) ==> IsChapterNumber(r) && NoLeadingZero(r)
  {
    if |s| >= 2 && IsZero(s[0]) && IsDigit(s[1]) then
      var r := CleanChapterNumberIntended(s[1..]);
      DropZeroKeepsNumber(s);
      ZeroPrefixStep(s, r);
      r
    else if s == "" then "0"
    else
      NotDigitAfterZero(s);
      s
  }

  /** A zero in front of a zero-run prefix lengthens the run. */
  lemma ZeroPrefixStep(s: string, r: string)
    requires |s| >= 2 && IsZero(s[0])
    requires HasSuffix(s[1..], r) && forall i :: 0 <= i < |s[1..]| - |r| ==> IsZero(s[1..][i])
    ensures HasSuffix(s, r) && forall i :: 0 <= i < |s| - |r| ==> IsZero(s[i])
  {
    assert s[|s| - |r|..] == s[1..][|s[1..]| - |r|..];
    forall i | 0 < i < |s| - |r| ensures IsZero(s[i]) {
      assert s[i] == s[1..][i - 1];
    }
  }

  /** Dropping a zero that a digit follows keeps a chapter number one. */
  lemma DropZeroKeepsNumber(s: string)
    requires |s| >= 2 && IsZero(s[0]) && IsDigit(s[1])
    ensures IsChapterNumber(s) ==> IsChapterNumber(s[1..])
  {
    if IsChapterNumber(s) && !AllDigits(s) {
      var k :| 0 < k < |s| - 1 && DotAt(s, k);
      assert k >= 2;
      assert s[1..][..k - 1] == s[1..k];
      assert s[1..][k..] == s[k + 1..];
      assert DotAt(s[1..], k - 1);
    }
  }

  /** A chapter number whose first zero is not followed by a digit is "0" or
      starts "0.". */
  lemma NotDigitAfterZero(s: string)
    requires s != "" && !(|s| >= 2 && IsZero(s[0]) && IsDigit(s[1]))
    ensures IsChapterNumber(s) ==> NoLeadingZero(s)
  {
    if IsChapterNumber(s) && IsZero(s[0]) && |s| >= 2 {
      if !AllDigits(s) {
        var k :| 0 < k < |s| - 1 && DotAt(s, k);
      }
    }
  }

  /** The two agree whenever the as-written result starts with a digit, which
      is every input except the ones with a zero integer part and a fraction. */
  lemma {:induction false} IntendedAgrees(s: string)
    requires IsDigit(CleanChapterNumber(s)[0])
    ensures CleanChapterNumberIntended(s) == CleanChapterNumber(s)
    decreases |s|
  {
    if |s| >= 2 && IsZero(s[0]) && IsDigit(s[1]) {
      assert TrimLeftWhile(s, IsZero) == TrimLeftWhile(s[1..], IsZero);
      IntendedAgrees(s[1..]);
    }
  }

  /** The intended clean-up keeps "0.5" and cleans twice as once. */
  lemma IntendedKeepsHalfChapter(s: string)
    ensures CleanChapterNumberIntended("0.5") == "0.5"
    ensures IsChapterNumber(s) ==>
      CleanChapterNumberIntended(CleanChapterNumberIntended(s)) == CleanChapterNumberIntended(s)
  {
    if IsChapterNumber(s) {
      var r := CleanChapterNumberIntended(s);
      assert !(|r| >= 2 && IsZero(r[0]) && IsDigit(r[1]));
    }
  }
}
