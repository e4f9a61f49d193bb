/** The menu list of frontend/app/siswa/dashboard/menu/page.tsx: the rows of
    `GET /menu`, newest first, narrowed by the type tab and the search box. */
module MenuPage {
  import opened Wrappers
  import opened Seqs
  import opened Text

  /** A JSON field that may be left out, be `null`, or hold a value. */
  datatype Nullable<+T> = Absent | Null | Present(value: T)

  /** The `stan` object embedded in a menu row.  `id` is `None` when the
      field is left out. */
  datatype StanRef = StanRef(id: Option<int>, nama: Option<string>, foto: Nullable<string>)

  /** One element of the `data` array of `GET /menu`.  `nama` and
      `deskripsi` are `None` when null or left out. */
  datatype MenuRow = MenuRow(id: int, nama: Option<string>, deskripsi: Option<string>,
                             jenis: string, stan: Option<StanRef>)

  /** The outcome of `axios.get(".../menu")`: the request failed, or it
      answered with a body whose `data` is an array (`Some`) or something
      else (`None`). */
  datatype Fetched = Failed | Received(data: Option<seq<MenuRow>>)

  /** `Array.isArray(data?.data) ? data.data : []`, and `[]` after a failed
      request. */
  function Rows(f: Fetched): seq<MenuRow> {
    if f.Received? && f.data.Some? then f.data.value else []
  }

  function DescendingId(m: MenuRow): int {
    -m.id
  }

  /** `[...rows].sort((a, b) => b.id - a.id)`. */
  function NewestFirst(rows: seq<MenuRow>): seq<MenuRow> {
    SortBy(rows, DescendingId)
  }

  /** The list the page holds after its fetch: newest first on success,
      empty after a failure. */
  function LoadedMenus(f: Fetched): seq<MenuRow> {
    NewestFirst(Rows(f))
  }

  /** The loaded list holds exactly the rows received, each as often as
      received, in non-increasing id order; a failed request, or a body
      whose `data` is not an array, leaves the list empty. */
  lemma LoadedMenusSpec(f: Fetched)
    ensures multiset(LoadedMenus(f)) == multiset(Rows(f))
    ensures forall i, j :: 0 <= i < j < |LoadedMenus(f)| ==> LoadedMenus(f)[i].id >= LoadedMenus(f)[j].id
    ensures (f.Failed? || f.data.None?) ==> LoadedMenus(f) == []
  {
    SortByCorrect(Rows(f), DescendingId);
  }

  // ------------------------------------------------------------- filtering

  /** `(x || "")`: a missing text counts as the empty string. */
  function OrEmpty(x: Option<string>): string {
    if x.Some? then x.value else ""
  }

  function StanName(m: MenuRow): string {
    if m.stan.Some? then OrEmpty(m.stan.value.nama) else ""
  }

  /** The search predicate for a query `q` that is already lowercased. */
  predicate Matches(m: MenuRow, q: string) {
    Contains(Lower(OrEmpty(m.nama)), q) ||
    Contains(Lower(OrEmpty(m.deskripsi)), q) ||
    Contains(Lower(StanName(m)), q)
  }

  /** The tab filter: `"all"` keeps every row. */
  function ByJenis(menus: seq<MenuRow>, filterJenis: string): seq<MenuRow> {
    if filterJenis == "all" then menus else Filter(menus, (m: MenuRow) => m.jenis == filterJenis)
  }

  /** `search.trim().toLowerCase()`. */
  function Query(search: string): string {
    Lower(Trim(search))
  }

  /** The `filtered` memo. */
  function Filtered(menus: seq<MenuRow>, filterJenis: string, search: string): seq<MenuRow> {
    var list := ByJenis(menus, filterJenis);
    var q := Query(search);
    if q == [] then list else Filter(list, (m: MenuRow) => Matches(m, q))
  }

  /** The tab filter keeps exactly the rows of the selected type, in
      order, and every row under `"all"`. */
  lemma ByJenisSpec(menus: seq<MenuRow>, filterJenis: string)
    ensures forall m :: m in ByJenis(menus, filterJenis) <==> m in menus && (filterJenis == "all" || m.jenis == filterJenis)
    ensures IsSubsequence(ByJenis(menus, filterJenis), menus)
  {
    var byJenis := (m: MenuRow) => m.jenis == filterJenis;
    SubsequenceRefl(menus);
    if filterJenis != "all" {
      forall m ensures m in ByJenis(menus, filterJenis) <==> m in menus && m.jenis == filterJenis {
        FilterMember(menus, byJenis, m);
      }
      FilterIsSubsequence(menus, byJenis);
    }
  }

  /** A row is shown exactly when it is in the list, has the selected type
      unless the tab is `"all"`, and, when the query is not empty, its
      lowercased name, description or stand name contains the query. */
  lemma FilteredMember(menus: seq<MenuRow>, filterJenis: string, search: string)
    ensures forall m :: m in Filtered(menus, filterJenis, search) <==>
      (m in menus && (filterJenis == "all" || m.jenis == filterJenis) &&
       (Query(search) == [] || Matches(m, Query(search))))
  {
    var list := ByJenis(menus, filterJenis);
    var q := Query(search);
    ByJenisSpec(menus, filterJenis);
    if q != [] {
      forall m ensures m in Filter(list, (m: MenuRow) => Matches(m, q)) <==> m in list && Matches(m, q) {
        FilterMember(list, (m: MenuRow) => Matches(m, q), m);
      }
    }
  }

  /** The rows shown keep the order of the list and nothing is added. */
  lemma FilteredOrder(menus: seq<MenuRow>, filterJenis: string, search: string)
    ensures IsSubsequence(Filtered(menus, filterJenis, search), menus)
    ensures |Filtered(menus, filterJenis, search)| <= |menus|
  {
    var q := Query(search);
    var byJenis := (m: MenuRow) => m.jenis == filterJenis;
    var byQuery := (m: MenuRow) => Matches(m, q);
    if q == [] {
      ByJenisSpec(menus, filterJenis);
      assert Filtered(menus, filterJenis, search) == ByJenis(menus, filterJenis);
    } else if filterJenis == "all" {
      FilterIsSubsequence(menus, byQuery);
      assert Filtered(menus, filterJenis, search) == Filter(menus, byQuery);
    } else {
      var both := (m: MenuRow) => m.jenis == filterJenis && Matches(m, q);
      FilterFilter(menus, byJenis, byQuery, both);
      FilterIsSubsequence(menus, both);
      assert Filtered(menus, filterJenis, search) == Filter(Filter(menus, byJenis), byQuery);
    }
  }

  /** A query of white space only, with the `"all"` tab, shows the whole
      list. */
  lemma BlankSearchShowsAll(menus: seq<MenuRow>, search: string)
    requires forall i :: 0 <= i < |search| ==> IsSpace(search[i])
    ensures Filtered(menus, "all", search) == menus
  {
    TrimEmpty(search);
  }

  /** The search ignores case and surrounding white space: searching for
      the lowercased, trimmed text shows the same rows. */
  lemma SearchNormalised(menus: seq<MenuRow>, filterJenis: string, search: string)
    ensures Filtered(menus, filterJenis, Lower(search)) == Filtered(menus, filterJenis, search)
    ensures Filtered(menus, filterJenis, Trim(search)) == Filtered(menus, filterJenis, search)
  {
    TrimLower(search);
    LowerIdempotent(Trim(search));
    assert Query(Lower(search)) == Query(search);
    TrimIdempotent(search);
    assert Query(Trim(search)) == Query(search);
  }

  /** The inputs the page keeps: the text being typed, the submitted
      search, and the selected tab. */
  datatype Controls = Controls(searchInput: string, search: string, filterJenis: string)

  /** The Reset button. */
  function Reset(c: Controls): Controls {
    c.(searchInput := "", search := "", filterJenis := "all")
  }

  /** After Reset the page shows the whole loaded list, in its order. */
  lemma ResetShowsAll(menus: seq<MenuRow>, c: Controls)
    ensures Reset(c).searchInput == [] && Reset(c).search == [] && Reset(c).filterJenis == "all"
    ensures Filtered(menus, Reset(c).filterJenis, Reset(c).search) == menus
  {
    BlankSearchShowsAll(menus, "");
  }
}
