/** Detecting corrupted archives (internal/library/bad_file_detector.go):
    sorting a parse error into a category, and the decision taken for each
    archive of the library. Go measures strings in UTF-8 bytes, so lengths
    are compared with `ByteLen`; searching bytes or code points for a
    substring gives the same answer on valid UTF-8. */
module BadFileDetector {
  import opened Results
  import opened Strings
  import opened Paths
  import Archive
  import Strconv
  import Sorting

  // The categories of internal/models/bad_file.go.
  const CorruptedArchive: string := "corrupted_archive"
  const InvalidFormat: string := "invalid_format"
  const PasswordProtected: string := "password_protected"
  const EmptyArchive: string := "empty_archive"
  const UnsupportedFormat: string := "unsupported_format"
  const IoError: string := "io_error"

  const Categories: set<string> :=
    {CorruptedArchive, InvalidFormat, PasswordProtected, EmptyArchive, UnsupportedFormat, IoError}

  // ---------------------------------------------------------------------------
  // Substring search
  // ---------------------------------------------------------------------------

  /** `sub` occurs in `s` at position `k`. */
  predicate MatchAt(s: string, sub: string, k: nat) {
    k + |sub| <= |s| && s[k..k + |sub|] == sub
  }

  /** `containsSubstring`: tries every start position in turn. */
  method ContainsSubstring(s: string, sub: string) returns (found: bool)
    ensures found <==> Contains(s, sub)
  {
    var i := 0;
    while i + |sub| <= |s|
      invariant i == 0 || i + |sub| <= |s| + 1
      invariant forall k: nat :: k < i ==> !MatchAt(s, sub, k)
    {
      if s[i..i + |sub|] == sub {
        ContainsAt(s, sub, i);
        return true;
      }
      i := i + 1;
    }
    NoMatchNotContains(s, sub);
    return false;
  }

  /** With no match at any position, `sub` does not occur. */
  lemma {:induction false} NoMatchNotContains(s: string, sub: string)
    requires forall k: nat :: !MatchAt(s, sub, k)
    ensures !Contains(s, sub)
    decreases |s|
  {
    assert !MatchAt(s, sub, 0);
    if |s| > 0 {
      forall k: nat ensures !MatchAt(s[1..], sub, k) {
        assert !MatchAt(s, sub, k + 1);
        if k + |sub| <= |s[1..]| {
          assert s[1..][k..k + |sub|] == s[k + 1..k + 1 + |sub|];
        }
      }
      NoMatchNotContains(s[1..], sub);
    }
  }

  /** `contains`, as written: false when `s` is shorter, TRUE WHENEVER THE TWO
      HAVE THE SAME LENGTH, otherwise a prefix, suffix or inner match. The
      comparison is case-sensitive. */
  function ContainsAsWritten(s: string, sub: string): (r: bool)
    ensures r <==> ByteLen(s) == ByteLen(sub) || Contains(s, sub)
  {
    ContainsAsWrittenParts(s, sub);
    var n := ByteLen(s);
    var m := ByteLen(sub);
    n >= m && (n == m || (n > m && (HasPrefix(s, sub) || HasSuffix(s, sub) || Contains(s, sub))))
  }

  lemma {:induction false} ByteLenConcat(a: string, b: string)
    ensures ByteLen(a + b) == ByteLen(a) + ByteLen(b)
    decreases |b|
  {
    if |b| > 0 {
      assert (a + b)[..|a + b| - 1] == a + b[..|b| - 1];
      ByteLenConcat(a, b[..|b| - 1]);
    } else {
      assert a + b == a;
    }
  }

  /** A string is at least as long, in bytes, as anything it contains. */
  lemma {:induction false} ContainedIsShorter(s: string, sub: string)
    requires Contains(s, sub)
    ensures ByteLen(sub) <= ByteLen(s)
    decreases |s|
  {
    if HasPrefix(s, sub) {
      assert s == sub + s[|sub|..];
      ByteLenConcat(sub, s[|sub|..]);
    } else {
      ContainedIsShorter(s[1..], sub);
      assert s == [s[0]] + s[1..];
      ByteLenConcat([s[0]], s[1..]);
    }
  }

  /** The facts behind `contains`: a suffix is an occurrence, and an
      occurrence is never longer than the text. */
  lemma ContainsAsWrittenParts(s: string, sub: string)
    ensures HasSuffix(s, sub) ==> Contains(s, sub)
    ensures Contains(s, sub) ==> ByteLen(sub) <= ByteLen(s)
  {
    if HasSuffix(s, sub) {
      ContainsAt(s, sub, |s| - |sub|);
    }
    if Contains(s, sub) {
      ContainedIsShorter(s, sub);
    }
  }

  /** Away from the equal-length case, `contains` is `strings.Contains`. */
  lemma ContainsAsWrittenAgrees(s: string, sub: string)
    requires ByteLen(s) != ByteLen(sub)
    ensures ContainsAsWritten(s, sub) <==> Contains(s, sub)
  {
  }

  /** Two unrelated messages of equal length "contain" each other. */
  lemma EqualLengthQuirk()
    ensures ContainsAsWritten("unexpected EOF", "failed to open")
    ensures !Contains("unexpected EOF", "failed to open")
  {
    AsciiLen("unexpected EOF");
    AsciiLen("failed to open");
    NotContainsByChar("unexpected EOF", "failed to open", 'f');
  }

  /** The match is case-sensitive, although the doc comment says otherwise. */
  lemma CaseSensitive()
    ensures !ContainsAsWritten("archive is PASSWORD protected", "password")
  {
    UpperCaseMissed("archive is PASSWORD protected", "password");
  }

  lemma UpperCaseMissed(s: string, sub: string)
    requires s == "archive is PASSWORD protected" && sub == "password"
    ensures !ContainsAsWritten(s, sub)
  {
    UpperCaseLengths(s, sub);
    UpperCaseNotContained(s, sub);
    ContainsAsWrittenAgrees(s, sub);
  }

  lemma UpperCaseLengths(s: string, sub: string)
    requires s == "archive is PASSWORD protected" && sub == "password"
    ensures ByteLen(s) == 29 && ByteLen(sub) == 8
  {
    AsciiLen(s);
    AsciiLen(sub);
  }

  lemma UpperCaseNotContained(s: string, sub: string)
    requires s == "archive is PASSWORD protected" && sub == "password"
    ensures !Contains(s, sub)
  {
    assert sub[4] == 'w';
    NotContainsByChar(s, sub, 'w');
  }

  /** A pattern longer than the message never matches. */
  lemma LongerNeverMatches(s: string, sub: string)
    requires ByteLen(s) < ByteLen(sub)
    ensures !ContainsAsWritten(s, sub) && !Contains(s, sub)
  {
    if Contains(s, sub) {
      ContainedIsShorter(s, sub);
    }
  }

  // ---------------------------------------------------------------------------
  // Categories
  // ---------------------------------------------------------------------------

  /** The message patterns, each with the category it selects. */
  const ZipInvalid: string := "zip: not a valid zip file"
  const ArchiveZipInvalid: string := "archive/zip: not a valid zip file"
  const UnsupportedType: string := "unsupported archive type"
  const NoImages: string := "no image files found"
  const FailedToOpen: string := "failed to open"
  const PermissionDenied: string := "permission denied"
  const Password: string := "password"
  const Encrypted: string := "encrypted"

  /** The substring test of `categorizeError`: `contains` as written, or
      `strings.Contains`. */
  function Has(asWritten: bool, s: string, sub: string): bool {
    if asWritten then ContainsAsWritten(s, sub) else Contains(s, sub)
  }

  /** The category the first matching rule selects. */
  function Categorize(asWritten: bool, msg: string): (r: string)
    ensures r in Categories
    ensures r == InvalidFormat ==> !Has(asWritten, msg, Password) && !Has(asWritten, msg, FailedToOpen)
    ensures Has(asWritten, msg, ZipInvalid) ==> r == CorruptedArchive
  {
    if Has(asWritten, msg, ZipInvalid) || Has(asWritten, msg, ArchiveZipInvalid) then CorruptedArchive
    else if Has(asWritten, msg, UnsupportedType) then UnsupportedFormat
    else if Has(asWritten, msg, NoImages) then EmptyArchive
    else if Has(asWritten, msg, FailedToOpen) || Has(asWritten, msg, PermissionDenied) then IoError
    else if Has(asWritten, msg, Password) || Has(asWritten, msg, Encrypted) then PasswordProtected
    else InvalidFormat
  }

  /** `categorizeError`, as written: one of the six categories, and the
      intended one for every message whose byte length is no pattern's. */
  function CategorizeError(msg: string): (r: string)
    ensures r in Categories
    ensures ByteLen(msg) !in PatternLengths ==> r == CategorizeErrorIntended(msg)
  {
    if ByteLen(msg) !in PatternLengths then
      CategorizeAgrees(msg);
      Categorize(true, msg)
    else
      Categorize(true, msg)
  }

  /** `categorizeError` with `strings.Contains`, as its comments intend. */
  function CategorizeErrorIntended(msg: string): string {
    Categorize(false, msg)
  }

  /** The byte lengths of the patterns. */
  const PatternLengths: set<nat> := {25, 33, 24, 20, 14, 17, 8, 9}

  lemma PatternLengthsFacts()
    ensures ByteLen(ZipInvalid) == 25 && ByteLen(ArchiveZipInvalid) == 33
    ensures ByteLen(UnsupportedType) == 24 && ByteLen(NoImages) == 20
    ensures ByteLen(FailedToOpen) == 14 && ByteLen(PermissionDenied) == 17
    ensures ByteLen(Password) == 8 && ByteLen(Encrypted) == 9
  {
    ArchivePatternLengths();
    OtherPatternLengths();
  }

  lemma ArchivePatternLengths()
    ensures ByteLen(ZipInvalid) == 25 && ByteLen(ArchiveZipInvalid) == 33
    ensures ByteLen(UnsupportedType) == 24 && ByteLen(NoImages) == 20
  {
    ZipPatternLengths();
    TypePatternLengths();
  }

  lemma ZipPatternLengths()
    ensures ByteLen(ZipInvalid) == 25 && ByteLen(ArchiveZipInvalid) == 33
  {
    AsciiLen(ZipInvalid);
    AsciiLen(ArchiveZipInvalid);
  }

  lemma TypePatternLengths()
    ensures ByteLen(UnsupportedType) == 24 && ByteLen(NoImages) == 20
  {
    AsciiLen(UnsupportedType);
    AsciiLen(NoImages);
  }

  lemma OtherPatternLengths()
    ensures ByteLen(FailedToOpen) == 14 && ByteLen(PermissionDenied) == 17
    ensures ByteLen(Password) == 8 && ByteLen(Encrypted) == 9
  {
    AsciiLen(FailedToOpen);
    AsciiLen(PermissionDenied);
    AsciiLen(Password);
    AsciiLen(Encrypted);
  }

  /** The two substring tests agree on every pattern. */
  predicate SameTests(msg: string) {
    Has(true, msg, ZipInvalid) == Has(false, msg, ZipInvalid)
    && Has(true, msg, ArchiveZipInvalid) == Has(false, msg, ArchiveZipInvalid)
    && Has(true, msg, UnsupportedType) == Has(false, msg, UnsupportedType)
    && Has(true, msg, NoImages) == Has(false, msg, NoImages)
    && Has(true, msg, FailedToOpen) == Has(false, msg, FailedToOpen)
    && Has(true, msg, PermissionDenied) == Has(false, msg, PermissionDenied)
    && Has(true, msg, Password) == Has(false, msg, Password)
    && Has(true, msg, Encrypted) == Has(false, msg, Encrypted)
  }

  lemma SameTestsSameCategory(msg: string)
    requires SameTests(msg)
    ensures Categorize(true, msg) == Categorize(false, msg)
  {
  }

  /** A message whose length matches no pattern is categorised as intended. */
  lemma CategorizeAgrees(msg: string)
    requires ByteLen(msg) !in PatternLengths
    ensures Categorize(true, msg) == Categorize(false, msg)
  {
    PatternLengthsFacts();
    ContainsAsWrittenAgrees(msg, ZipInvalid);
    ContainsAsWrittenAgrees(msg, ArchiveZipInvalid);
    ContainsAsWrittenAgrees(msg, UnsupportedType);
    ContainsAsWrittenAgrees(msg, NoImages);
    ContainsAsWrittenAgrees(msg, FailedToOpen);
    ContainsAsWrittenAgrees(msg, PermissionDenied);
    ContainsAsWrittenAgrees(msg, Password);
    ContainsAsWrittenAgrees(msg, Encrypted);
    assert SameTests(msg);
    SameTestsSameCategory(msg);
  }

  /** As written, the byte length alone decides the category of any message
      as long as one of the patterns: the first rule with a pattern of that
      length fires, and no longer pattern can match. */
  lemma PatternLengthDecides(msg: string)
    ensures ByteLen(msg) in {25, 33} ==> CategorizeError(msg) == CorruptedArchive
    ensures ByteLen(msg) == 24 ==> CategorizeError(msg) == UnsupportedFormat
    ensures ByteLen(msg) == 20 ==> CategorizeError(msg) == EmptyArchive
    ensures ByteLen(msg) in {14, 17} ==> CategorizeError(msg) == IoError
    ensures ByteLen(msg) in {8, 9} ==> CategorizeError(msg) == PasswordProtected
  {
    var n := ByteLen(msg);
    if n == 25 || n == 33 {
      ZipLengthDecides(msg);
    } else if n == 24 || n == 20 {
      ArchiveLengthDecides(msg);
    } else if n == 14 || n == 17 {
      IoLengthDecides(msg);
    } else if n == 8 || n == 9 {
      PasswordLengthDecides(msg);
    }
  }

  lemma ZipLengthDecides(msg: string)
    requires ByteLen(msg) == 25 || ByteLen(msg) == 33
    ensures CategorizeError(msg) == CorruptedArchive
  {
    ArchivePatternLengths();
    assert Has(true, msg, ZipInvalid) || Has(true, msg, ArchiveZipInvalid);
  }

  lemma ArchiveLengthDecides(msg: string)
    requires ByteLen(msg) == 24 || ByteLen(msg) == 20
    ensures ByteLen(msg) == 24 ==> CategorizeError(msg) == UnsupportedFormat
    ensures ByteLen(msg) == 20 ==> CategorizeError(msg) == EmptyArchive
  {
    ShorterThanZipPatterns(msg);
    ArchivePatternLengths();
    if ByteLen(msg) == 20 {
      LongerNeverMatches(msg, UnsupportedType);
    }
  }

  lemma IoLengthDecides(msg: string)
    requires ByteLen(msg) == 14 || ByteLen(msg) == 17
    ensures CategorizeError(msg) == IoError
  {
    ShorterThanArchivePatterns(msg);
    OtherPatternLengths();
  }

  lemma PasswordLengthDecides(msg: string)
    requires ByteLen(msg) == 8 || ByteLen(msg) == 9
    ensures CategorizeError(msg) == PasswordProtected
  {
    ShorterThanArchivePatterns(msg);
    OtherPatternLengths();
    LongerNeverMatches(msg, FailedToOpen);
    LongerNeverMatches(msg, PermissionDenied);
    assert Has(true, msg, Password) || Has(true, msg, Encrypted);
  }

  lemma ShorterThanZipPatterns(msg: string)
    requires ByteLen(msg) < 25
    ensures !Has(true, msg, ZipInvalid) && !Has(true, msg, ArchiveZipInvalid)
  {
    ArchivePatternLengths();
    LongerNeverMatches(msg, ZipInvalid);
    LongerNeverMatches(msg, ArchiveZipInvalid);
  }

  /** No pattern of the first three rules fits in a message shorter than 20 bytes. */
  lemma ShorterThanArchivePatterns(msg: string)
    requires ByteLen(msg) < 20
    ensures !Has(true, msg, ZipInvalid) && !Has(true, msg, ArchiveZipInvalid)
    ensures !Has(true, msg, UnsupportedType) && !Has(true, msg, NoImages)
  {
    ArchivePatternLengths();
    ShorterThanZipPatterns(msg);
    LongerNeverMatches(msg, UnsupportedType);
    LongerNeverMatches(msg, NoImages);
  }

  /** A truncated archive's "unexpected EOF" has the length of "failed to
      open" and is filed as an I/O error; the intended reading finds no pattern. */
  lemma UnexpectedEofMiscategorized()
    ensures CategorizeError("unexpected EOF") == IoError
    ensures CategorizeErrorIntended("unexpected EOF") == InvalidFormat
  {
    AsciiLen("unexpected EOF");
    PatternLengthDecides("unexpected EOF");
    UnexpectedEofMatchesNothing("unexpected EOF");
  }

  lemma UnexpectedEofMatchesNothing(m: string)
    requires m == "unexpected EOF"
    ensures CategorizeErrorIntended(m) == InvalidFormat
  {
    UnexpectedEofChars(m);
    EofCharsLackArchivePatterns(m);
    EofCharsLackOtherPatterns(m);
  }

  lemma EofCharsLackArchivePatterns(m: string)
    requires forall i :: 0 <= i < |m| ==> EofChar(m[i])
    ensures !Contains(m, ZipInvalid) && !Contains(m, ArchiveZipInvalid)
    ensures !Contains(m, UnsupportedType) && !Contains(m, NoImages)
  {
    UnexpectedEofLacks(m, ZipInvalid, 'l', 23);
    UnexpectedEofLacks(m, ArchiveZipInvalid, 'l', 31);
    UnexpectedEofLacks(m, UnsupportedType, 'y', 21);
    UnexpectedEofLacks(m, NoImages, 'o', 16);
  }

  lemma EofCharsLackOtherPatterns(m: string)
    requires forall i :: 0 <= i < |m| ==> EofChar(m[i])
    ensures !Contains(m, FailedToOpen) && !Contains(m, PermissionDenied)
    ensures !Contains(m, Password) && !Contains(m, Encrypted)
  {
    UnexpectedEofLacks(m, FailedToOpen, 'o', 10);
    UnexpectedEofLacks(m, PermissionDenied, 'i', 14);
    UnexpectedEofLacks(m, Password, 'r', 6);
    UnexpectedEofLacks(m, Encrypted, 'y', 4);
  }

  /** The characters "unexpected EOF" is made of. */
  predicate EofChar(c: char) {
    c == 'u' || c == 'n' || c == 'e' || c == 'x' || c == 'p' || c == 'c' || c == 't' || c == 'd'
    || c == ' ' || c == 'E' || c == 'O' || c == 'F'
  }

  lemma UnexpectedEofChars(m: string)
    requires m == "unexpected EOF"
    ensures forall i :: 0 <= i < |m| ==> EofChar(m[i])
  {
  }

  /** A message made of those characters contains no pattern with another
      character `c` at `k`. */
  lemma UnexpectedEofLacks(m: string, sub: string, c: char, k: nat)
    requires forall i :: 0 <= i < |m| ==> EofChar(m[i])
    requires k < |sub| && sub[k] == c && !EofChar(c)
    ensures !Contains(m, sub)
  {
    assert c in sub;
    NotContainsByChar(m, sub, c);
  }

  /** The zip reader's empty-archive error is filed as an empty archive. */
  lemma EmptyZipIsEmptyArchive()
    ensures CategorizeError(Archive.NoImagesMessage) == EmptyArchive
  {
    NoImagesCategory(Archive.NoImagesMessage);
  }

  lemma NoImagesCategory(m: string)
    requires m == Archive.NoImagesMessage
    ensures CategorizeError(m) == EmptyArchive
  {
    NoImagesMessageFacts(m);
    EmptyArchiveAt31(m);
  }

  /** A 31-byte message that contains "no image files found" and neither
      pattern before it is filed as an empty archive. */
  lemma EmptyArchiveAt31(msg: string)
    requires ByteLen(msg) == 31
    requires !Contains(msg, ZipInvalid) && !Contains(msg, UnsupportedType) && Contains(msg, NoImages)
    ensures CategorizeError(msg) == EmptyArchive
  {
    ArchivePatternLengths();
    ContainsAsWrittenAgrees(msg, ZipInvalid);
    ContainsAsWrittenAgrees(msg, UnsupportedType);
    ContainsAsWrittenAgrees(msg, NoImages);
    LongerNeverMatches(msg, ArchiveZipInvalid);
  }

  lemma NoImagesMessageFacts(m: string)
    requires m == Archive.NoImagesMessage
    ensures ByteLen(m) == 31
    ensures !Contains(m, ZipInvalid) && !Contains(m, UnsupportedType) && Contains(m, NoImages)
  {
    AsciiLen(m);
    NoImagesMessageMatches(m);
  }

  lemma NoImagesMessageMatches(m: string)
    requires m == Archive.NoImagesMessage
    ensures !Contains(m, ZipInvalid) && !Contains(m, UnsupportedType) && Contains(m, NoImages)
  {
    NoImagesMessageMisses(m);
    StartsWithNoImages(m);
  }

  lemma StartsWithNoImages(m: string)
    requires m == "no image files found in archive"
    ensures HasPrefix(m, NoImages)
  {
    assert m[..20] == NoImages;
  }

  lemma NoImagesMessageMisses(m: string)
    requires m == Archive.NoImagesMessage
    ensures !Contains(m, ZipInvalid) && !Contains(m, UnsupportedType)
  {
    LacksZipPattern(m);
    LacksTypePattern(m);
  }

  lemma LacksZipPattern(m: string)
    requires m == "no image files found in archive"
    ensures !Contains(m, ZipInvalid)
  {
    assert ZipInvalid[19] == 'p';
    NotContainsByChar(m, ZipInvalid, 'p');
  }

  lemma LacksTypePattern(m: string)
    requires m == "no image files found in archive"
    ensures !Contains(m, UnsupportedType)
  {
    assert UnsupportedType[22] == 'p';
    NotContainsByChar(m, UnsupportedType, 'p');
  }

  // ---------------------------------------------------------------------------
  // Per-file decision
  // ---------------------------------------------------------------------------

  /** What the detector learns about one archive: its size if `os.Stat`
      succeeds, the parse error if parsing fails, and whether recording it in
      the store fails. */
  datatype Probe = Probe(path: string, size: Option<int>, parseError: Option<string>, storeFails: bool)

  datatype FileAction = Skip | Record(path: string, category: string, size: int) | Forget(path: string)

  /** The body of the loop in `DetectBadFiles`. */
  function CheckFile(p: Probe): (a: FileAction)
    ensures a.Skip? <==> p.size.None?
    ensures a.Record? <==> p.size.Some? && p.parseError.Some?
    ensures a.Record? ==> a.path == p.path && a.category in Categories && a.size == p.size.value
    ensures a.Forget? ==> a.path == p.path
  {
    if p.size.None? then Skip
    else if p.parseError.Some? then Record(p.path, CategorizeError(p.parseError.value), p.size.value)
    else Forget(p.path)
  }

  /** The archives `DetectBadFiles` checks: non-directory entries with a
      supported archive name, in walk order. */
  function ArchiveFiles(entries: seq<Archive.Entry>): (r: seq<string>)
    ensures |r| <= |entries|
    ensures forall i :: 0 <= i < |r| ==> IsArchiveName(r[i])
    ensures forall e :: e in entries && IsArchiveEntry(e) ==> e.name in r
    ensures forall x :: x in r ==> exists e :: e in entries && IsArchiveEntry(e) && e.name == x
  {
    if |entries| == 0 then []
    else
      var rest := ArchiveFiles(entries[1..]);
      var r := if IsArchiveEntry(entries[0]) then [entries[0].name] + rest else rest;
      Sorting.FilterStep(entries, rest, r, IsArchiveEntry, (e: Archive.Entry) => e.name);
      if IsArchiveEntry(entries[0]) then
        Sorting.ConsAll(entries[0].name, rest, IsArchiveName);
        r
      else r
  }

  /** The walk is taken in order: the archives of two stretches of the walk
      are those of the first, then those of the second. */
  lemma {:induction false} ArchiveFilesAppend(a: seq<Archive.Entry>, b: seq<Archive.Entry>)
    ensures ArchiveFiles(a + b) == ArchiveFiles(a) + ArchiveFiles(b)
    decreases |a|
  {
    if |a| > 0 {
      assert (a + b)[0] == a[0];
      assert (a + b)[1..] == a[1..] + b;
      ArchiveFilesAppend(a[1..], b);
    } else {
      assert a + b == b;
    }
  }

  /** A name whose base has a supported archive extension. */
  predicate IsArchiveName(name: string) {
    Archive.IsSupportedArchive(Base(name))
  }

  predicate IsArchiveEntry(e: Archive.Entry) {
    !e.isDir && IsArchiveName(e.name)
  }

  /** Number of bad files recorded successfully. */
  function Recorded(probes: seq<Probe>): (n: nat)
    ensures n <= |probes|
  {
    if |probes| == 0 then 0
    else
      var p := probes[0];
      (if CheckFile(p).Record? && !p.storeFails then 1 else 0) + Recorded(probes[1..])
  }

  datatype Report = Report(actions: seq<FileAction>, message: string)

  const NoArchivesMessage: string := "No archive files found in library"
  const AllValidMessage: string := "No bad files detected. All archives are valid."

  /** `DetectBadFiles` after the walk: the decision for every archive, and the
      final progress message. */
  function DetectBadFiles(probes: seq<Probe>): (r: Report)
    ensures |r.actions| == |probes|
    ensures forall i :: 0 <= i < |probes| ==> r.actions[i] == CheckFile(probes[i])
    ensures |probes| == 0 ==> r.message == NoArchivesMessage
    ensures |probes| > 0 && Recorded(probes) == 0 ==> r.message == AllValidMessage
    ensures Recorded(probes) > 0 ==>
      r.message == "Detection complete. Found " + Strconv.Itoa(Recorded(probes)) + " bad files."
  {
    var actions := seq(|probes|, i requires 0 <= i < |probes| => CheckFile(probes[i]));
    if |probes| == 0 then Report([], NoArchivesMessage)
    else
      var n := Recorded(probes);
      if n == 0 then Report(actions, AllValidMessage)
      else Report(actions, "Detection complete. Found " + Strconv.Itoa(n) + " bad files.")
  }

  const WalkErrorMessage: string := "Error scanning library directory"

  /** The probes of the archives found by the walk, in walk order. The store
      and file system are parameters: `stat` gives a file's size, `parse` the
      error of opening it, and `storeFails` whether recording it fails. */
  function ProbeAll(paths: seq<string>, stat: string -> Option<int>, parse: string -> Option<string>,
                    storeFails: string -> bool): (r: seq<Probe>)
    ensures |r| == |paths|
    ensures forall i :: 0 <= i < |paths| ==>
      r[i] == Probe(paths[i], stat(paths[i]), parse(paths[i]), storeFails(paths[i]))
  {
    seq(|paths|, i requires 0 <= i < |paths| =>
      Probe(paths[i], stat(paths[i]), parse(paths[i]), storeFails(paths[i])))
  }

  /** The whole of `DetectBadFiles`: a failed walk ends the job with the error
      message and no decisions; otherwise every archive entry of the walk, in
      walk order, gets its own decision. */
  function ScanLibrary(walk: Result<seq<Archive.Entry>>, stat: string -> Option<int>,
                       parse: string -> Option<string>, storeFails: string -> bool): (r: Report)
    ensures walk.Err? ==> r == Report([], WalkErrorMessage)
    ensures walk.Ok? ==>
      var files := ArchiveFiles(walk.value);
      |r.actions| == |files|
      && (forall i :: 0 <= i < |files| ==>
            r.actions[i] == CheckFile(Probe(files[i], stat(files[i]), parse(files[i]), storeFails(files[i]))))
    ensures walk.Ok? ==>
      (r.message == NoArchivesMessage <==> forall e :: e in walk.value ==> !IsArchiveEntry(e))
    ensures walk.Ok? ==> forall e :: e in walk.value && IsArchiveEntry(e) ==>
      exists i :: 0 <= i < |r.actions| && r.actions[i] == CheckFile(Probe(e.name, stat(e.name), parse(e.name), storeFails(e.name)))
  {
    if walk.Err? then Report([], WalkErrorMessage)
    else
      var files := ArchiveFiles(walk.value);
      var r := DetectBadFiles(ProbeAll(files, stat, parse, storeFails));
      assert |files| > 0 ==> files[0] in files;
      assert |files| > 0 ==> r.message != NoArchivesMessage by {
        if |files| > 0 && Recorded(ProbeAll(files, stat, parse, storeFails)) > 0 {
          var n := Recorded(ProbeAll(files, stat, parse, storeFails));
          var m := "Detection complete. Found " + Strconv.Itoa(n) + " bad files.";
          assert m[0] == 'D' != NoArchivesMessage[0];
        }
      }
      assert forall e :: e in walk.value && IsArchiveEntry(e) ==> exists i :: 0 <= i < |files| && files[i] == e.name;
      r
  }

  /** An archive that cannot be stat'ed leaves no record. One that can be
      stat'ed but not opened is recorded, as an I/O error unless its path
      happens to match an earlier rule. */
  lemma UnreadableArchive(path: string, size: int)
    ensures CheckFile(Probe(path, None, Some("open " + path + ": permission denied"), false)) == Skip
    ensures var a := CheckFile(Probe(path, Some(size), Some("open " + path + ": permission denied"), false));
      a.Record? && a.category in {CorruptedArchive, UnsupportedFormat, EmptyArchive, IoError}
  {
    var m := "open " + path + ": permission denied";
    assert HasSuffix(m, PermissionDenied);
    ContainsAt(m, PermissionDenied, |m| - |PermissionDenied|);
  }

  /** An archive read through the `archives` library that cannot be opened
      fails with "failed to open file system: " and the reader's reason, so
      it is an I/O error unless the message matches one of the three earlier
      rules; a zip that cannot be opened is categorised by the reader's
      reason alone. */
  lemma UnopenableArchive(path: string, reason: string, thumb: Option<Archive.ThumbFailure>)
    ensures var r := Archive.ParseArchive(path, Archive.OpenFailed(reason), thumb);
      r.Err?
      && (Archive.GetArchiveType(path) == Archive.Zip ==> r.error == reason)
      && (Archive.GetArchiveType(path) == Archive.Rar ==>
            r.error == Archive.FsOpenPrefix + reason && Contains(r.error, FailedToOpen)
            && (!Has(true, r.error, ZipInvalid) && !Has(true, r.error, ArchiveZipInvalid)
                && !Has(true, r.error, UnsupportedType) && !Has(true, r.error, NoImages)
                ==> CategorizeError(r.error) == IoError))
  {
    var m := Archive.FsOpenPrefix + reason;
    assert m[0..|FailedToOpen|] == FailedToOpen;
    ContainsAt(m, FailedToOpen, 0);
  }
}
