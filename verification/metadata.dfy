/** Series and chapter names taken from a chapter file's path
    (internal/library/metadata.go). */
module Metadata {
  import opened Paths

  const UnknownSeries: string := "Unknown Series"

  datatype Meta = Meta(seriesTitle: string, chapterName: string)

  /** `ExtractMetadataFromPath`: the file name, and the name of the directory
      holding it, unless that directory is the library itself. The test is
      plain string equality on the library path as given. */
  function ExtractMetadataFromPath(filePath: string, libraryPath: string): (m: Meta)
    ensures |m.chapterName| > 0 && |m.seriesTitle| > 0
    ensures m.chapterName != [Sep] ==> Sep !in m.chapterName
    ensures Dir(filePath) == libraryPath ==> m.seriesTitle == UnknownSeries
  {
    var dir := Dir(filePath);
    Meta(if dir == libraryPath then UnknownSeries else Base(dir), Base(filePath))
  }

  /** A file two levels below the library: the series is the folder's name. */
  lemma SeriesFolder(library: seq<string>, series: string, file: string)
    requires AllNormal(library) && Normal(series) && Normal(file)
    ensures ExtractMetadataFromPath(AbsPath(library + [series, file]), AbsPath(library)) == Meta(series, file)
  {
    assert library + [series, file] == (library + [series]) + [file];
    DirBaseAbsPath(library + [series], file);
    DirBaseAbsPath(library, series);
    SepCountAbsPath(library + [series]);
    SepCountAbsPath(library);
    if |library| == 0 {
      assert AbsPath(library + [series]) != AbsPath(library);
    }
  }

  /** A file directly in the library belongs to "Unknown Series". */
  lemma FileInLibraryRoot(library: seq<string>, file: string)
    requires AllNormal(library) && Normal(file)
    ensures ExtractMetadataFromPath(AbsPath(library + [file]), AbsPath(library)) == Meta(UnknownSeries, file)
  {
    DirBaseAbsPath(library, file);
  }

  /** The library path is not normalised: given with a trailing separator, it
      never matches, and a file in the library root is named after the
      library folder instead. */
  lemma TrailingSeparatorMissesRoot(library: seq<string>, file: string)
    requires AllNormal(library) && Normal(file) && |library| > 0
    ensures ExtractMetadataFromPath(AbsPath(library + [file]), AbsPath(library) + [Sep])
      == Meta(library[|library| - 1], file)
  {
    DirBaseAbsPath(library, file);
    LastElementIsBase(library);
    assert |AbsPath(library)| < |AbsPath(library) + [Sep]|;
  }

  /** The name of a clean absolute path is its last element. */
  lemma LastElementIsBase(library: seq<string>)
    requires AllNormal(library) && |library| > 0
    ensures Base(AbsPath(library)) == library[|library| - 1]
  {
    var init := library[..|library| - 1];
    assert init + [library[|library| - 1]] == library;
    DirBaseAbsPath(init, library[|library| - 1]);
  }
}
