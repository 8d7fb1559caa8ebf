/** Recognising and reading chapter archives (internal/library/archive.go).
    What an archive holds is passed in as a listing of its entries; opening
    the file, walking it and reading bytes are left to the caller. */
module Archive {
  import opened Results
  import opened Strings
  import opened Paths
  import opened Sorting
  import NaturalSort

  const ImageExts: seq<string> := [".jpg", ".jpeg", ".png", ".gif", ".bmp", ".tiff", ".webp"]

  const ArchiveExts: seq<string> := [".cbz", ".zip", ".cbr", ".rar", ".7z", ".cb7"]

  /** `IsImageFile`: the name ends, ignoring case, in an image extension. */
  function IsImageFile(name: string): (r: bool)
    ensures r <==> EndsInOneOf(ToLower(name), ImageExts)
  {
    DottedExts(ImageExts);
    ExtInBySuffix(name, ImageExts);
    ToLower(Ext(name)) in ImageExts
  }

  /** `IsSupportedArchive`: the name ends, ignoring case, in an archive
      extension. */
  function IsSupportedArchive(name: string): (r: bool)
    ensures r <==> EndsInOneOf(ToLower(name), ArchiveExts)
  {
    DottedExts(ArchiveExts);
    ExtInBySuffix(name, ArchiveExts);
    ToLower(Ext(name)) in ArchiveExts
  }

  /** `s` ends in one of `exts`. */
  predicate EndsInOneOf(s: string, exts: seq<string>) {
    |exts| > 0 && (HasSuffix(s, exts[0]) || EndsInOneOf(s, exts[1..]))
  }

  /** `EndsInOneOf` names an extension of the list the string ends in. */
  lemma {:induction false} EndsInOneOfIndex(s: string, exts: seq<string>)
    ensures EndsInOneOf(s, exts) <==> exists i :: 0 <= i < |exts| && HasSuffix(s, exts[i])
    decreases |exts|
  {
    if |exts| > 0 {
      EndsInOneOfIndex(s, exts[1..]);
      if exists i :: 0 <= i < |exts| && HasSuffix(s, exts[i]) {
        var i :| 0 <= i < |exts| && HasSuffix(s, exts[i]);
        if i > 0 {
          assert exts[1..][i - 1] == exts[i];
        }
      }
      if EndsInOneOf(s, exts[1..]) {
        var i :| 0 <= i < |exts[1..]| && HasSuffix(s, exts[1..][i]);
        assert exts[i + 1] == exts[1..][i];
      }
    }
  }

  /** An extension: a '.' followed by text free of '.' and '/'. */
  predicate Dotted(e: string) {
    |e| > 0 && e[0] == '.' && '.' !in e[1..] && '/' !in e[1..]
  }

  lemma DottedExts(exts: seq<string>)
    requires exts == ImageExts || exts == ArchiveExts
    ensures forall i :: 0 <= i < |exts| ==> Dotted(exts[i])
  {
  }

  /** The lower-cased extension is one of `exts` exactly when the lower-cased
      name ends in one of them. */
  lemma ExtInBySuffix(name: string, exts: seq<string>)
    requires forall i :: 0 <= i < |exts| ==> Dotted(exts[i])
    ensures ToLower(Ext(name)) in exts <==> EndsInOneOf(ToLower(name), exts)
  {
    ExtIgnoresCase(name);
    var l := ToLower(name);
    EndsInOneOfIndex(l, exts);
    if ToLower(Ext(name)) in exts {
      var i :| 0 <= i < |exts| && exts[i] == Ext(l);
      assert HasSuffix(l, exts[i]);
    }
    forall i | 0 <= i < |exts| && HasSuffix(l, exts[i])
      ensures Ext(l) == exts[i]
    {
      SuffixIsExt(l, exts[i]);
    }
  }

  /** A name ending in an extension has that extension. */
  lemma SuffixIsExt(l: string, e: string)
    requires Dotted(e) && HasSuffix(l, e)
    ensures Ext(l) == e
  {
    var a := l[..|l| - |e|];
    var b := e[1..];
    assert l == a + "." + b;
    ExtOfSuffix(a, b);
    assert "." + b == e;
  }

  /** The three strings `getArchiveType` returns: "zip", "rar" and "unknown". */
  datatype ArchiveType = Zip | Rar | Unknown

  /** `getArchiveType`: the reader family chosen by the lower-cased extension. */
  function GetArchiveType(path: string): (t: ArchiveType)
    ensures t != Unknown <==> IsSupportedArchive(path)
    ensures t == Zip <==> ToLower(Ext(path)) == ".cbz" || ToLower(Ext(path)) == ".zip"
  {
    var ext := ToLower(Ext(path));
    if ext == ".cbz" || ext == ".zip" then Zip
    else if ext == ".cbr" || ext == ".rar" || ext == ".7z" || ext == ".cb7" then Rar
    else Unknown
  }

  /** Taking the extension and lower-casing commute. */
  lemma {:induction false} ExtIgnoresCase(p: string)
    ensures Ext(ToLower(p)) == ToLower(Ext(p))
    decreases |p|
  {
    if |p| > 0 {
      var c := p[|p| - 1];
      var q := p[..|p| - 1];
      assert p == q + [c];
      LowerLast(q, c);
      var lp := ToLower(q) + [LowerChar(c)];
      if c != '/' && c != '.' {
        ExtIgnoresCase(q);
        ExtAppend(q, c);
        ExtAppend(ToLower(q), LowerChar(c));
        if Ext(q) != "" {
          LowerLast(Ext(q), c);
        }
      } else {
        assert lp[|lp| - 1] == c;
      }
    }
  }

  /** Lower-casing a name with one more character. */
  lemma LowerLast(q: string, c: char)
    ensures ToLower(q + [c]) == ToLower(q) + [LowerChar(c)]
  {
    ToLowerConcat(q, [c]);
  }

  /** One step of `Ext` on a name whose last character is neither '/' nor '.'. */
  lemma ExtAppend(q: string, c: char)
    requires c != '/' && c != '.'
    ensures Ext(q + [c]) == if Ext(q) == "" then "" else Ext(q) + [c]
  {
    assert (q + [c])[..|q|] == q;
  }

  /** The extension of a name ending in '.' and a suffix free of '.' and '/'. */
  lemma {:induction false} ExtOfSuffix(a: string, b: string)
    requires '.' !in b && '/' !in b
    ensures Ext(a + "." + b) == "." + b
    decreases |b|
  {
    if |b| > 0 {
      var c := b[|b| - 1];
      var b' := b[..|b| - 1];
      assert a + "." + b == (a + "." + b') + [c];
      ExtOfSuffix(a, b');
      ExtAppend(a + "." + b', c);
      assert "." + b' + [c] == "." + b;
    } else {
      assert a + "." + b == a + ".";
    }
  }

  /** Both classifiers ignore the case of the name. */
  lemma ClassifiersIgnoreCase(name: string)
    ensures IsImageFile(ToLower(name)) == IsImageFile(name)
    ensures IsSupportedArchive(ToLower(name)) == IsSupportedArchive(name)
    ensures GetArchiveType(ToLower(name)) == GetArchiveType(name)
  {
    ExtIgnoresCase(name);
    ToLowerIdempotent(Ext(name));
  }

  /** No name is both an image and an archive. */
  lemma ImagesAreNotArchives(name: string)
    ensures !(IsImageFile(name) && IsSupportedArchive(name))
  {
    var x := ToLower(Ext(name));
    if x in ImageExts {
      ImageExtNotArchive(x);
    }
  }

  lemma ImageExtNotArchive(x: string)
    requires x in ImageExts
    ensures x !in ArchiveExts
  {
  }

  lemma ImageFileScenario()
    ensures IsImageFile("001.JPG")
    ensures !IsImageFile("notes.txt")
    ensures GetArchiveType("Vol 1.CBZ") == Zip
  {
    UpperJpgIsImage("001.JPG");
    TxtIsNoImage("notes.txt");
    UpperCbzIsZip("Vol 1.CBZ");
  }

  lemma UpperJpgIsImage(name: string)
    requires name == "001.JPG"
    ensures IsImageFile(name)
  {
    ExtOfSuffix("001", "JPG");
    assert "001" + "." + "JPG" == name;
    assert ToLower(".JPG") == ".jpg";
  }

  lemma TxtIsNoImage(name: string)
    requires name == "notes.txt"
    ensures !IsImageFile(name)
  {
    ExtOfSuffix("notes", "txt");
    assert "notes" + "." + "txt" == name;
    assert ToLower(".txt") == ".txt";
  }

  lemma UpperCbzIsZip(name: string)
    requires name == "Vol 1.CBZ"
    ensures GetArchiveType(name) == Zip
  {
    ExtOfSuffix("Vol 1", "CBZ");
    assert "Vol 1" + "." + "CBZ" == name;
    assert ToLower(".CBZ") == ".cbz";
  }

  // ---------------------------------------------------------------------------
  // Page order
  // ---------------------------------------------------------------------------

  /** Names starting "__" (such as `__MACOSX`) or "." are treated as hidden. */
  predicate Hidden(name: string) {
    HasPrefix(name, "__") || HasPrefix(name, ".")
  }

  /** `pageSortFunc` */
  function PageLess(a: string, b: string): (r: bool)
    ensures Hidden(a) ==> !r
    ensures !Hidden(a) && Hidden(b) ==> r
    ensures a == b ==> !r
  {
    if Hidden(a) then false
    else if Hidden(b) then true
    else NaturalSort.NaturalLess(a, b)
  }

  /** `pageSortFunc` is a valid `sort.Slice` comparator. */
  lemma PageLessAsymmetric()
    ensures Asymmetric(PageLess)
  {
    NaturalSort.NaturalLessAsymmetric();
  }

  /** `pageSortFunc` is transitive: hidden names go last, the rest in
      natural order. */
  lemma PageLessTransitive()
    ensures Transitive(PageLess)
  {
    NaturalSort.NaturalLessTransitive();
  }

  /** In a page list sorted by `pageSortFunc`, every page after a hidden page
      is hidden: the ordinary pages all come first. */
  lemma {:induction false} HiddenPagesLast(s: seq<string>, i: int, j: int)
    requires Sorted(s, PageLess)
    requires 0 <= i <= j < |s| && Hidden(s[i])
    ensures Hidden(s[j])
    decreases j - i
  {
    if i < j {
      HiddenPagesLast(s, i, j - 1);
    }
  }

  datatype Page = Page(fileName: string, index: nat)

  function Names(pages: seq<Page>): (r: seq<string>)
    ensures |r| == |pages|
    ensures forall i :: 0 <= i < |pages| ==> r[i] == pages[i].fileName
  {
    seq(|pages|, i requires 0 <= i < |pages| => pages[i].fileName)
  }

  /** `createAndSortPages`: the same names, sorted by `pageSortFunc`, numbered
      0, 1, … in that order. */
  function CreateAndSortPages(filenames: seq<string>): (pages: seq<Page>)
    ensures |pages| == |filenames|
    ensures forall i :: 0 <= i < |pages| ==> pages[i].index == i
    ensures multiset(Names(pages)) == multiset(filenames)
    ensures Sorted(Names(pages), PageLess)
  {
    PageLessAsymmetric();
    var sorted := Sort(filenames, PageLess);
    var pages := seq(|sorted|, i requires 0 <= i < |sorted| => Page(sorted[i], i));
    assert Names(pages) == sorted;
    pages
  }

  // ---------------------------------------------------------------------------
  // Parsing
  // ---------------------------------------------------------------------------

  /** One entry of an archive: its path inside the archive and whether it is a directory. */
  datatype Entry = Entry(name: string, isDir: bool)

  /** What a parse yields: the pages, and the entry whose bytes become the
      thumbnail. */
  datatype Parsed = Parsed(pages: seq<Page>, thumbnail: string)

  /** `findImageFilesInZip` / `findImageFilesInFS`: the non-directory entries
      whose base name is an image, in archive order. */
  function ImageNames(entries: seq<Entry>): (r: seq<string>)
    ensures |r| <= |entries|
    ensures forall i :: 0 <= i < |r| ==> IsImageFile(Base(r[i]))
    ensures |r| == 0 <==> forall k :: 0 <= k < |entries| ==> !IsImageEntry(entries[k])
  {
    if |entries| == 0 then []
    else
      var rest := ImageNames(entries[1..]);
      NoImageEntriesStep(entries);
      if IsImageEntry(entries[0]) then [entries[0].name] + rest else rest
  }

  predicate IsImageEntry(e: Entry) {
    !e.isDir && IsImageFile(Base(e.name))
  }

  /** No entry of a non-empty listing is an image exactly when its first is
      not and none of the rest is. */
  lemma NoImageEntriesStep(entries: seq<Entry>)
    requires |entries| > 0
    ensures (forall k :: 0 <= k < |entries| ==> !IsImageEntry(entries[k]))
        <==> (!IsImageEntry(entries[0]) && forall k :: 0 <= k < |entries[1..]| ==> !IsImageEntry(entries[1..][k]))
  {
    NoneStep(entries, IsImageEntry);
  }

  const NoImagesMessage: string := "no image files found in archive"

  /** What opening and walking an archive yields: its entries, or the stage
      that failed with the reader's own reason. */
  datatype Listing = Listed(entries: seq<Entry>) | OpenFailed(reason: string) | WalkFailed(reason: string)

  /** How reading the first image for the thumbnail failed. */
  datatype ThumbFailure = ThumbOpenFailed(reason: string) | ThumbReadFailed(reason: string)

  // The wrappers `fmt.Errorf` puts around a reader's error.
  const CbzThumbOpenPrefix: string := "failed to open first page for thumbnail: "
  const CbzThumbReadPrefix: string := "failed to read first page for thumbnail: "
  const FsOpenPrefix: string := "failed to open file system: "
  const FsWalkPrefix: string := "failed to walk file system: "
  const FirstImageOpenPrefix: string := "failed to open first image file: "

  /** `parseCBZ`. `zip.OpenReader` reads the whole directory when it opens,
      so any failure of `listing` is the open's, returned as it is; a
      thumbnail failure is wrapped by stage. The thumbnail is the first image
      in archive order, which may be a hidden one. */
  function ParseCbz(listing: Listing, thumbFailure: Option<ThumbFailure>): (r: Result<Parsed>)
    ensures r.Ok? <==> listing.Listed? && |ImageNames(listing.entries)| > 0 && thumbFailure.None?
    ensures !listing.Listed? ==> r == Err(listing.reason)
    ensures listing.Listed? && |ImageNames(listing.entries)| == 0 ==> r == Err(NoImagesMessage)
    ensures listing.Listed? && |ImageNames(listing.entries)| > 0 && thumbFailure.Some? ==>
      r == Err((if thumbFailure.value.ThumbOpenFailed? then CbzThumbOpenPrefix else CbzThumbReadPrefix)
               + thumbFailure.value.reason)
    ensures r.Ok? ==> |r.value.pages| > 0 && r.value.thumbnail in Names(r.value.pages)
    ensures r.Ok? ==> PagesWellFormed(r.value.pages)
  {
    if !listing.Listed? then Err(listing.reason)
    else
      var names := ImageNames(listing.entries);
      if |names| == 0 then Err(NoImagesMessage)
      else
        var pages := CreateAndSortPages(names);
        assert names[0] in multiset(Names(pages));
        PagesFromImages(names, pages);
        match thumbFailure
        case Some(ThumbOpenFailed(reason)) => Err(CbzThumbOpenPrefix + reason)
        case Some(ThumbReadFailed(reason)) => Err(CbzThumbReadPrefix + reason)
        case None => Ok(Parsed(pages, names[0]))
  }

  /** `parseCBR`, for every format the `archives` library opens: a failure
      to open or to walk the file system is wrapped by stage, and a listed
      archive goes on as `CbrOfEntries`. */
  function ParseCbr(path: string, listing: Listing, thumbFailure: Option<ThumbFailure>): (r: Result<Parsed>)
    ensures r.Ok? <==> listing.Listed? && |ImageNames(listing.entries)| > 0 && thumbFailure.None?
    ensures listing.OpenFailed? ==> r == Err(FsOpenPrefix + listing.reason)
    ensures listing.WalkFailed? ==> r == Err(FsWalkPrefix + listing.reason)
    ensures listing.Listed? ==> r == CbrOfEntries(path, listing.entries, thumbFailure)
  {
    match listing
    case OpenFailed(reason) => Err(FsOpenPrefix + reason)
    case WalkFailed(reason) => Err(FsWalkPrefix + reason)
    case Listed(entries) => CbrOfEntries(path, entries, thumbFailure)
  }

  /** The rest of `parseCBR` once the file system is walked: the images
      sorted by the page order, whose first is read for the thumbnail. A
      failure to open it is wrapped; a failure reading it is returned as it
      is, since `readFirstImageData` hands back the error of `io.ReadAll`. */
  function CbrOfEntries(path: string, entries: seq<Entry>, thumbFailure: Option<ThumbFailure>): (r: Result<Parsed>)
    ensures r.Ok? <==> |ImageNames(entries)| > 0 && thumbFailure.None?
    ensures |ImageNames(entries)| == 0 ==> r == Err(NoImagesMessage + " " + path)
    ensures |ImageNames(entries)| > 0 && thumbFailure.Some? ==>
      r == Err((if thumbFailure.value.ThumbOpenFailed? then FirstImageOpenPrefix else "") + thumbFailure.value.reason)
    ensures r.Ok? ==> |r.value.pages| > 0 && r.value.thumbnail in Names(r.value.pages)
    ensures r.Ok? ==> PagesWellFormed(r.value.pages)
    ensures r.Ok? && Hidden(r.value.thumbnail) ==> forall i :: 0 <= i < |r.value.pages| ==> Hidden(r.value.pages[i].fileName)
  {
    var names := ImageNames(entries);
    if |names| == 0 then Err(NoImagesMessage + " " + path)
    else if thumbFailure.Some? then
      Err((if thumbFailure.value.ThumbOpenFailed? then FirstImageOpenPrefix else "") + thumbFailure.value.reason)
    else
      PageLessAsymmetric();
      var sorted := Sort(names, PageLess);
      var pages := CreateAndSortPages(sorted);
      ThumbnailOrdinaryFirst(names, sorted, pages);
      Ok(Parsed(pages, sorted[0]))
  }

  function UnsupportedMessage(path: string): string {
    "unsupported archive " + path + ": " + Ext(path)
  }

  /** Pages numbered 0, 1, … whose names are all images. */
  ghost predicate PagesWellFormed(pages: seq<Page>) {
    forall i :: 0 <= i < |pages| ==> pages[i].index == i && IsImageFile(Base(pages[i].fileName))
  }

  lemma PagesFromImages(names: seq<string>, pages: seq<Page>)
    requires forall i :: 0 <= i < |names| ==> IsImageFile(Base(names[i]))
    requires multiset(Names(pages)) == multiset(names)
    requires forall i :: 0 <= i < |pages| ==> pages[i].index == i
    ensures PagesWellFormed(pages)
  {
    forall i | 0 <= i < |pages| ensures IsImageFile(Base(pages[i].fileName)) {
      assert Names(pages)[i] in multiset(names);
    }
  }

  /** When the first of the sorted names is hidden, every page is. */
  lemma ThumbnailOrdinaryFirst(names: seq<string>, sorted: seq<string>, pages: seq<Page>)
    requires forall i :: 0 <= i < |names| ==> IsImageFile(Base(names[i]))
    requires multiset(sorted) == multiset(names)
    requires |sorted| > 0 && Sorted(sorted, PageLess)
    requires pages == CreateAndSortPages(sorted)
    ensures PagesWellFormed(pages) && sorted[0] in Names(pages)
    ensures Hidden(sorted[0]) ==> forall i :: 0 <= i < |pages| ==> Hidden(pages[i].fileName)
  {
    forall i | 0 <= i < |sorted| ensures IsImageFile(Base(sorted[i])) {
      assert sorted[i] in multiset(names);
    }
    PagesFromImages(sorted, pages);
    assert sorted[0] in multiset(Names(pages));
    if Hidden(sorted[0]) {
      forall i | 0 <= i < |pages| ensures Hidden(pages[i].fileName) {
        assert Names(pages)[i] in multiset(sorted);
        var k :| 0 <= k < |sorted| && sorted[k] == pages[i].fileName;
        HiddenPagesLast(sorted, 0, k);
      }
    }
  }

  /** `ParseArchive`: dispatch on the archive type. */
  function ParseArchive(path: string, listing: Listing, thumbFailure: Option<ThumbFailure>): (r: Result<Parsed>)
    ensures !IsSupportedArchive(path) ==> r == Err(UnsupportedMessage(path))
    ensures r.Ok? ==> IsSupportedArchive(path) && |r.value.pages| > 0 && PagesWellFormed(r.value.pages)
  {
    match GetArchiveType(path)
    case Zip => ParseCbz(listing, thumbFailure)
    case Rar => ParseCbr(path, listing, thumbFailure)
    case Unknown => Err(UnsupportedMessage(path))
  }

  /** The file is never opened for an unsupported name: the result does not
      depend on what it holds. */
  lemma UnsupportedIgnoresContents(path: string, l1: Listing, l2: Listing, t1: Option<ThumbFailure>, t2: Option<ThumbFailure>)
    requires !IsSupportedArchive(path)
    ensures ParseArchive(path, l1, t1) == ParseArchive(path, l2, t2)
  {
  }
}
