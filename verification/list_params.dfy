/** The query parameters of the list endpoints (`getListParams` in
    internal/api/handlers.go) and how they reach the page cut. */
module ListParams {
  import opened Results
  import opened Strconv
  import FolderStore

  const MaxPerPage: int := 100

  datatype ListParams = ListParams(page: int, perPage: int, search: string, sortBy: string, sortDir: string)

  /** `getListParams`: the `page` and `per_page` query values go through
      `Atoi`, whose error is ignored; a page below 1 becomes 1 and a page size
      outside 1..100 becomes 100. The other three values are copied. A missing
      parameter is the empty string. */
  function GetListParams(page: string, perPage: string, search: string, sortBy: string, sortDir: string)
    : (p: ListParams)
    ensures 1 <= p.page <= MaxInt64 && 1 <= p.perPage <= MaxPerPage
    ensures p.page == (if Atoi(page).value < 1 then 1 else Atoi(page).value)
    ensures p.perPage == (if 1 <= Atoi(perPage).value <= MaxPerPage then Atoi(perPage).value else MaxPerPage)
    ensures p.search == search && p.sortBy == sortBy && p.sortDir == sortDir
  {
    var pg := Atoi(page).value;
    var pp := Atoi(perPage).value;
    ListParams(if pg < 1 then 1 else pg, if pp <= 0 || pp > MaxPerPage then MaxPerPage else pp, search, sortBy, sortDir)
  }

  /** A decimal page number that fits in an int64 is used as given. */
  lemma DecimalPageKept(page: string, perPage: string)
    requires |page| > 0 && AllDigits(page) && 1 <= DigitsValue(page) <= MaxInt64
    ensures GetListParams(page, perPage, "", "", "").page == DigitsValue(page)
  {
    AtoiDigits(page);
  }

  /** Any page that keeps `page * perPage` within an int64 yields exactly the
      requested window of the listing. */
  lemma ParamsSelectWindow<T>(s: seq<T>, page: string, perPage: string)
    requires var p := GetListParams(page, perPage, "", "", ""); p.page * p.perPage <= MaxInt64
    ensures var p := GetListParams(page, perPage, "", "", "");
      FolderStore.LimitAndOffset(Some(s), p.page, p.perPage) == FolderStore.Items(FolderStore.Window(s, p.page, p.perPage))
  {
    var p := GetListParams(page, perPage, "", "", "");
    FolderStore.CutIsWindow(s, p.page, p.perPage);
  }

  /** A page number with too many digits saturates to the largest int64 and,
      with the default page size, makes the cut of any non-empty listing panic. */
  lemma HugePagePanics<T>(s: seq<T>, page: string)
    requires |s| >= 1
    requires |page| > 0 && AllDigits(page) && DigitsValue(page) > MaxInt64
    ensures var p := GetListParams(page, "", "", "", "");
      p.page == MaxInt64 && p.perPage == MaxPerPage
      && FolderStore.LimitAndOffset(Some(s), p.page, p.perPage) == FolderStore.Panic
  {
    AtoiSaturates(page);
    FolderStore.SaturatedPagePanics(s);
  }

  /** With the checked cut the same request gets an empty page. */
  lemma HugePageCheckedIsEmpty<T>(s: seq<T>, page: string)
    requires |s| <= MaxInt64
    requires |page| > 0 && AllDigits(page) && DigitsValue(page) > MaxInt64
    ensures var p := GetListParams(page, "", "", "", "");
      FolderStore.LimitAndOffsetChecked(Some(s), p.page, p.perPage) == FolderStore.Items([])
  {
    AtoiSaturates(page);
  }
}
