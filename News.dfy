/** The policy-news page of src/modules/news.py: loading and cleaning the CSV
    files, the date/source/region filters and the 30-per-page arithmetic.
    Dates are whole numbers (days), `None` standing for a missing or
    unparsable date (pandas' NaT). The listing `bucket.list_objects(...)` is an
    input (`None` when it raises) and `read(path)` stands for reading and
    parsing one CSV file (`None` when that raises). */
module News {
  import opened Common
  import opened Sorting

  /** One CSV record, restricted to the columns the page uses. */
  datatype CsvRow = CsvRow(title: Option<string>, source: Option<string>, date: Option<int>, url: Option<string>)

  datatype CsvTable = CsvTable(columns: seq<string>, rows: seq<CsvRow>)

  /** A row of the combined frame. */
  datatype NewsRow = NewsRow(title: Option<string>, source: Option<string>, date: Option<int>, url: Option<string>,
                             dataSource: string, summary: string, region: string, hotness: int)

  const RequiredColumns: seq<string> := ["title", "source", "date", "url"]
  const DefaultSummary: string := "暂无摘要"
  const DefaultRegion: string := "全国"

  // ---------------------------------------------------------------------------
  // load_all_policy_data

  predicate IsCsv(key: string) {
    EndsWith(key, ".csv")
  }

  /** `[f.key for f in files if f.key.endswith(".csv")]`. */
  function CsvFiles(keys: seq<string>): (r: seq<string>)
    ensures forall k :: k in r <==> k in keys && IsCsv(k)
  {
    if keys == [] then []
    else
      var front := keys[..|keys| - 1];
      assert keys == front + [keys[|keys| - 1]];
      var rest := CsvFiles(front);
      if IsCsv(keys[|keys| - 1]) then rest + [keys[|keys| - 1]] else rest
  }

  predicate HasRequiredColumns(t: CsvTable) {
    forall k :: 0 <= k < |RequiredColumns| ==> RequiredColumns[k] in t.columns
  }

  /** A table is loaded when it can be read and has every required column. */
  predicate Loads(path: string, read: string -> Option<CsvTable>) {
    read(path).Some? && HasRequiredColumns(read(path).value)
  }

  /** The row as it enters `all_dfs`: `data_source` added and the three
      default columns overwritten, whatever the file held. */
  function Stamp(row: CsvRow, path: string): (r: NewsRow)
    ensures r.summary == DefaultSummary && r.region == DefaultRegion && r.hotness == 0
    ensures r.dataSource == LastPiece(path, '/') && '/' !in r.dataSource
    ensures (r.title, r.source, r.date, r.url) == (row.title, row.source, row.date, row.url)
  {
    SplitPiecesAvoidSeparator(path, '/');
    NewsRow(row.title, row.source, row.date, row.url, LastPiece(path, '/'), DefaultSummary, DefaultRegion, 0)
  }

  function StampAll(rows: seq<CsvRow>, path: string): (r: seq<NewsRow>)
    ensures |r| == |rows|
    ensures forall i :: 0 <= i < |r| ==> r[i] == Stamp(rows[i], path)
  {
    seq(|rows|, i requires 0 <= i < |rows| => Stamp(rows[i], path))
  }

  /** The row's `data_source` names a file that loaded. */
  ghost predicate FromLoadedFile(x: NewsRow, paths: seq<string>, read: string -> Option<CsvTable>) {
    exists p :: p in paths && Loads(p, read) && x.dataSource == LastPiece(p, '/')
  }

  /** `pd.concat(all_dfs)`: the stamped rows of every loaded file, in file order. */
  function LoadedRows(paths: seq<string>, read: string -> Option<CsvTable>): (r: seq<NewsRow>)
    ensures forall i :: 0 <= i < |r| ==> r[i].summary == DefaultSummary && r[i].region == DefaultRegion && r[i].hotness == 0
    ensures forall i :: 0 <= i < |r| ==> FromLoadedFile(r[i], paths, read)
  {
    if paths == [] then []
    else
      var front := paths[..|paths| - 1];
      var path := paths[|paths| - 1];
      var rest := LoadedRows(front, read);
      var added := if Loads(path, read) then StampAll(read(path).value.rows, path) else [];
      SourcesOfAppend(rest, added, front, path, paths, read);
      rest + added
  }

  /** Rows stamped by a loaded file keep a loaded source when more files follow. */
  lemma SourcesOfAppend(rest: seq<NewsRow>, added: seq<NewsRow>, front: seq<string>, path: string,
                        paths: seq<string>, read: string -> Option<CsvTable>)
    requires paths != [] && front == paths[..|paths| - 1] && path == paths[|paths| - 1]
    requires added != [] ==> Loads(path, read)
    requires forall i :: 0 <= i < |rest| ==> FromLoadedFile(rest[i], front, read)
    requires forall i :: 0 <= i < |added| ==> added[i].dataSource == LastPiece(path, '/')
    ensures forall i :: 0 <= i < |rest + added| ==> FromLoadedFile((rest + added)[i], paths, read)
  {
    var r := rest + added;
    forall i | 0 <= i < |r| ensures FromLoadedFile(r[i], paths, read) {
      if i < |rest| {
        assert FromLoadedFile(rest[i], front, read);
        var p :| p in front && Loads(p, read) && rest[i].dataSource == LastPiece(p, '/');
        var k :| 0 <= k < |front| && front[k] == p;
        assert paths[k] == p;
        assert r[i] == rest[i];
      } else {
        assert r[i] == added[i - |rest|];
        assert paths[|paths| - 1] in paths;
      }
    }
  }

  /** Every row of every file that loaded reaches the combined frame, stamped
      with that file's name. */
  lemma {:induction false} LoadedRowsComplete(paths: seq<string>, read: string -> Option<CsvTable>, p: string, k: nat)
    requires p in paths && Loads(p, read) && k < |read(p).value.rows|
    ensures Stamp(read(p).value.rows[k], p) in LoadedRows(paths, read)
  {
    var front := paths[..|paths| - 1];
    var path := paths[|paths| - 1];
    assert paths == front + [path];
    var rest := LoadedRows(front, read);
    var added := if Loads(path, read) then StampAll(read(path).value.rows, path) else [];
    assert LoadedRows(paths, read) == rest + added;
    if p == path {
      assert added[k] == Stamp(read(p).value.rows[k], p);
    } else {
      assert p in front;
      LoadedRowsComplete(front, read, p, k);
    }
  }

  /** `error_files`: the paths that raised or lacked a required column. */
  function ErrorFiles(paths: seq<string>, read: string -> Option<CsvTable>): (r: seq<string>)
    ensures forall p :: p in r <==> p in paths && !Loads(p, read)
  {
    if paths == [] then []
    else
      var front := paths[..|paths| - 1];
      var path := paths[|paths| - 1];
      assert paths == front + [path];
      var rest := ErrorFiles(front, read);
      if Loads(path, read) then rest else rest + [path]
  }

  // The cleaning chain: dropna(subset=["title", "url"]), drop_duplicates("url",
  // keep="first"), sort_values("date", ascending=False).

  predicate Complete(row: NewsRow) {
    row.title.Some? && row.url.Some?
  }

  function DropMissing(rows: seq<NewsRow>): (r: seq<NewsRow>)
    ensures forall i :: 0 <= i < |r| ==> Complete(r[i])
    ensures forall x :: x in r <==> x in rows && Complete(x)
  {
    if rows == [] then []
    else
      var front := rows[..|rows| - 1];
      assert rows == front + [rows[|rows| - 1]];
      var rest := DropMissing(front);
      if Complete(rows[|rows| - 1]) then rest + [rows[|rows| - 1]] else rest
  }

  /** `dropna` decides row by row and keeps the survivors in their order. */
  lemma {:induction false} DropMissingAppend(a: seq<NewsRow>, b: seq<NewsRow>)
    ensures DropMissing(a + b) == DropMissing(a) + DropMissing(b)
  {
    if b == [] {
      assert a + b == a;
    } else {
      var front := b[..|b| - 1];
      var last := b[|b| - 1];
      assert (a + b)[..|a + b| - 1] == a + front;
      assert (a + b)[|a + b| - 1] == last;
      DropMissingAppend(a, front);
    }
  }

  /** A single row survives exactly when its title and url are present. */
  lemma DropMissingRow(x: NewsRow)
    ensures DropMissing([x]) == if Complete(x) then [x] else []
  {
    assert [x][..0] == [];
  }

  /** Some earlier row has this URL. */
  predicate UrlSeen(rows: seq<NewsRow>, url: Option<string>) {
    exists i :: 0 <= i < |rows| && rows[i].url == url
  }

  /** Keeps the first row of every URL, in order. */
  function DedupeByUrl(rows: seq<NewsRow>): (r: seq<NewsRow>)
    ensures forall x :: x in r ==> x in rows
  {
    if rows == [] then []
    else
      var front := rows[..|rows| - 1];
      var last := rows[|rows| - 1];
      assert rows == front + [last];
      var rest := DedupeByUrl(front);
      if UrlSeen(front, last.url) then rest else rest + [last]
  }

  predicate UniqueUrls(r: seq<NewsRow>) {
    forall i, j :: 0 <= i < j < |r| ==> r[i].url != r[j].url
  }

  /** No URL is kept twice. */
  lemma {:induction false} DedupeDistinct(rows: seq<NewsRow>)
    ensures UniqueUrls(DedupeByUrl(rows))
  {
    if rows != [] {
      var front := rows[..|rows| - 1];
      var last := rows[|rows| - 1];
      DedupeDistinct(front);
      var rest := DedupeByUrl(front);
      if !UrlSeen(front, last.url) {
        assert rows == front + [last];
        assert DedupeByUrl(rows) == rest + [last];
        forall i | 0 <= i < |rest| ensures rest[i].url != last.url {
          assert rest[i] in front;
          var k :| 0 <= k < |front| && front[k] == rest[i];
          assert front[k].url != last.url;
        }
        var r := rest + [last];
        forall i, j | 0 <= i < j < |r| ensures r[i].url != r[j].url {
          if j < |rest| {
            assert r[i] == rest[i] && r[j] == rest[j];
            assert rest[i].url != rest[j].url;
          } else {
            assert r[i] == rest[i] && r[j] == last;
          }
        }
      }
    }
  }

  /** `x` occurs in `rows` with no earlier row of the same URL. */
  predicate FirstOfUrl(rows: seq<NewsRow>, x: NewsRow) {
    exists i :: 0 <= i < |rows| && rows[i] == x && !UrlSeen(rows[..i], x.url)
  }

  /** Every kept row is the first row of its URL. */
  lemma {:induction false} DedupeKeepsFirst(rows: seq<NewsRow>)
    ensures forall x :: x in DedupeByUrl(rows) ==> FirstOfUrl(rows, x)
  {
    if rows != [] {
      var front := rows[..|rows| - 1];
      var last := rows[|rows| - 1];
      DedupeKeepsFirst(front);
      forall x | x in DedupeByUrl(rows) ensures FirstOfUrl(rows, x)
      {
        if x in DedupeByUrl(front) {
          var i :| 0 <= i < |front| && front[i] == x && !UrlSeen(front[..i], x.url);
          assert rows[..i] == front[..i];
          assert rows[i] == x;
        } else {
          assert x == last && !UrlSeen(front, last.url);
          assert rows[..|rows| - 1] == front;
        }
      }
    }
  }

  /** Every URL of the input survives. */
  lemma {:induction false} DedupeCovers(rows: seq<NewsRow>)
    ensures forall i :: 0 <= i < |rows| ==> UrlSeen(DedupeByUrl(rows), rows[i].url)
  {
    if rows != [] {
      var front := rows[..|rows| - 1];
      var last := rows[|rows| - 1];
      DedupeCovers(front);
      var rest := DedupeByUrl(front);
      var r := DedupeByUrl(rows);
      assert forall k :: 0 <= k < |rest| ==> r[k] == rest[k];
      forall i | 0 <= i < |rows| ensures UrlSeen(r, rows[i].url) {
        if i < |front| {
          assert rows[i] == front[i];
          var k :| 0 <= k < |rest| && rest[k].url == front[i].url;
          assert r[k].url == rows[i].url;
        } else if UrlSeen(front, last.url) {
          var m :| 0 <= m < |front| && front[m].url == last.url;
          var k :| 0 <= k < |rest| && rest[k].url == front[m].url;
          assert r[k].url == rows[i].url;
        } else {
          assert r[|rest|] == last;
        }
      }
    }
  }

  /** `sort_values("date", ascending=False)`: later dates first, missing dates last. */
  predicate DateAhead(a: NewsRow, b: NewsRow) {
    a.date.Some? && (b.date.None? || a.date.value > b.date.value)
  }

  lemma DateAheadOrder()
    ensures StrictWeakOrder(DateAhead)
  {
  }

  function Clean(rows: seq<NewsRow>): seq<NewsRow> {
    SortBy(DedupeByUrl(DropMissing(rows)), DateAhead)
  }

  /** The cleaned frame is sorted and holds no URL twice. */
  lemma CleanSortedDistinct(rows: seq<NewsRow>)
    ensures SortedBy(Clean(rows), DateAhead)
    ensures UniqueUrls(Clean(rows))
  {
    var u := DedupeByUrl(DropMissing(rows));
    var r := SortBy(u, DateAhead);
    DedupeDistinct(DropMissing(rows));
    DateAheadOrder();
    SortBySorted(u, DateAhead);
    forall i, j | 0 <= i < j < |r| ensures r[i].url != r[j].url {
      UniqueUrlsPermuted(u, r, i, j);
    }
  }

  /** The cleaned frame holds complete rows of the input, and every URL of a
      complete input row. */
  lemma CleanRows(rows: seq<NewsRow>)
    ensures forall x :: x in Clean(rows) ==> x in rows && Complete(x)
    ensures forall x :: x in rows && Complete(x) ==> UrlSeen(Clean(rows), x.url)
  {
    var d := DropMissing(rows);
    var u := DedupeByUrl(d);
    var r := SortBy(u, DateAhead);
    DedupeCovers(d);
    forall x ensures x in r <==> x in u {
      SortByMembers(u, DateAhead, x);
    }
    forall x | x in rows && Complete(x) ensures UrlSeen(r, x.url) {
      assert x in d;
      var k :| 0 <= k < |d| && d[k] == x;
      var m :| 0 <= m < |u| && u[m].url == x.url;
      assert u[m] in r;
      var n :| 0 <= n < |r| && r[n] == u[m];
    }
  }

  /** Each kept row is the first complete row of its URL in load order. */
  lemma CleanKeepsFirst(rows: seq<NewsRow>)
    ensures forall x :: x in Clean(rows) ==> FirstOfUrl(DropMissing(rows), x)
  {
    var d := DropMissing(rows);
    var u := DedupeByUrl(d);
    DedupeKeepsFirst(d);
    assert Clean(rows) == SortBy(u, DateAhead);
    forall x | x in Clean(rows) ensures FirstOfUrl(d, x) {
      SortByMembers(u, DateAhead, x);
      assert x in u;
    }
  }

  /** A permutation of a list with distinct URLs has distinct URLs. */
  lemma UniqueUrlsPermuted(u: seq<NewsRow>, r: seq<NewsRow>, i: int, j: int)
    requires multiset(r) == multiset(u)
    requires UniqueUrls(u)
    requires 0 <= i < j < |r|
    ensures r[i].url != r[j].url
  {
    assert r[i] in multiset(u) && r[j] in multiset(u);
    UrlDeterminesRow(u, r[i], r[j]);
    TwoPositions(r, i, j);
    AtMostOnce(u, r[i]);
  }

  lemma UrlDeterminesRow(u: seq<NewsRow>, x: NewsRow, y: NewsRow)
    requires forall a, b :: 0 <= a < b < |u| ==> u[a].url != u[b].url
    ensures x in u && y in u && x.url == y.url ==> x == y
  {
    if x in u && y in u && x.url == y.url {
      var a :| 0 <= a < |u| && u[a] == x;
      var b :| 0 <= b < |u| && u[b] == y;
      assert !(a < b) && !(b < a);
    }
  }

  lemma TwoPositions(r: seq<NewsRow>, i: int, j: int)
    requires 0 <= i < j < |r|
    ensures r[i] == r[j] ==> multiset(r)[r[i]] >= 2
  {
    assert r == r[..j] + r[j..];
    assert r[i] in multiset(r[..j]);
    assert r[j] in multiset(r[j..]);
    assert multiset(r) == multiset(r[..j]) + multiset(r[j..]);
  }

  /** In a list with distinct URLs every row occurs at most once. */
  lemma AtMostOnce(u: seq<NewsRow>, x: NewsRow)
    requires forall a, b :: 0 <= a < b < |u| ==> u[a].url != u[b].url
    ensures multiset(u)[x] <= 1
  {
    if x in u {
      var a :| 0 <= a < |u| && u[a] == x;
      var front := u[..a];
      var back := u[a + 1..];
      assert u == front + [u[a]] + back;
      assert u[a] !in front by {
        forall k | 0 <= k < |front| ensures front[k] != u[a] { assert front[k] == u[k]; }
      }
      assert u[a] !in back by {
        forall k | 0 <= k < |back| ensures back[k] != u[a] { assert back[k] == u[a + 1 + k]; }
      }
      assert multiset(u) == multiset(front) + multiset{u[a]} + multiset(back);
    }
  }

  datatype LoadResult = LoadResult(rows: seq<NewsRow>, errorFiles: seq<string>)

  /** load_all_policy_data: an empty frame when the listing fails or holds no
      CSV file, otherwise the cleaned rows of the files that load, with the
      files that do not recorded in `error_files`. */
  method LoadAllPolicyData(listing: Option<seq<string>>, read: string -> Option<CsvTable>) returns (r: LoadResult)
    ensures listing.None? ==> r == LoadResult([], [])
    ensures listing.Some? ==>
      r == LoadResult(Clean(LoadedRows(CsvFiles(listing.value), read)), ErrorFiles(CsvFiles(listing.value), read))
  {
    if listing.None? {
      return LoadResult([], []);
    }
    var csvFiles := CsvFiles(listing.value);
    if csvFiles == [] {
      return LoadResult([], []);
    }
    var allRows: seq<NewsRow> := [];
    var errorFiles: seq<string> := [];
    for i := 0 to |csvFiles|
      invariant allRows == LoadedRows(csvFiles[..i], read)
      invariant errorFiles == ErrorFiles(csvFiles[..i], read)
    {
      assert csvFiles[..i + 1][..i] == csvFiles[..i];
      var path := csvFiles[i];
      var table := read(path);
      if table.None? || !HasRequiredColumns(table.value) {
        errorFiles := errorFiles + [path];
      } else {
        allRows := allRows + StampAll(table.value.rows, path);
      }
    }
    assert csvFiles[..|csvFiles|] == csvFiles;
    if allRows == [] {
      return LoadResult([], errorFiles);
    }
    return LoadResult(Clean(allRows), errorFiles);
  }

  // ---------------------------------------------------------------------------
  // process_data (the keyword search is not modelled)

  /** The date, source and region tests; an empty selection does not filter. */
  predicate Kept(row: NewsRow, start: int, end: int, sources: seq<string>, regions: seq<string>) {
    && row.date.Some? && start <= row.date.value <= end
    && (sources == [] || (row.source.Some? && row.source.value in sources))
    && (regions == [] || row.region in regions)
  }

  function FilterRows(rows: seq<NewsRow>, start: int, end: int, sources: seq<string>, regions: seq<string>): (r: seq<NewsRow>)
    ensures forall x :: x in r <==> x in rows && Kept(x, start, end, sources, regions)
  {
    if rows == [] then []
    else
      var front := rows[..|rows| - 1];
      assert rows == front + [rows[|rows| - 1]];
      var rest := FilterRows(front, start, end, sources, regions);
      if Kept(rows[|rows| - 1], start, end, sources, regions) then rest + [rows[|rows| - 1]] else rest
  }

  function ProcessData(rows: seq<NewsRow>, start: int, end: int, sources: seq<string>, regions: seq<string>): (r: seq<NewsRow>)
    ensures multiset(r) == multiset(FilterRows(rows, start, end, sources, regions))
  {
    SortBy(FilterRows(rows, start, end, sources, regions), DateAhead)
  }

  /** Every shown row is dated within [start, end], from a selected source
      when sources are selected, and the list is by non-increasing date. */
  lemma ProcessDataProperties(rows: seq<NewsRow>, start: int, end: int, sources: seq<string>, regions: seq<string>)
    ensures SortedBy(ProcessData(rows, start, end, sources, regions), DateAhead)
    ensures forall x :: x in ProcessData(rows, start, end, sources, regions) <==> x in rows && Kept(x, start, end, sources, regions)
  {
    var f := FilterRows(rows, start, end, sources, regions);
    DateAheadOrder();
    SortBySorted(f, DateAhead);
    forall x ensures x in SortBy(f, DateAhead) <==> x in f {
      SortByMembers(f, DateAhead, x);
    }
  }

  /** Every loaded row has region "全国", so selecting only other regions
      filters out everything. */
  lemma OtherRegionsEmpty(listing: seq<string>, read: string -> Option<CsvTable>, start: int, end: int,
                          sources: seq<string>, regions: seq<string>)
    requires regions != [] && DefaultRegion !in regions
    ensures ProcessData(Clean(LoadedRows(CsvFiles(listing), read)), start, end, sources, regions) == []
  {
    var loaded := LoadedRows(CsvFiles(listing), read);
    var c := Clean(loaded);
    CleanRows(loaded);
    var f := FilterRows(c, start, end, sources, regions);
    forall x | x in c ensures x.region == DefaultRegion {
      assert x in loaded;
      var i :| 0 <= i < |loaded| && loaded[i] == x;
    }
    NoMembersEmpty(f);
    assert multiset(ProcessData(c, start, end, sources, regions)) == multiset{};
  }

  lemma NoMembersEmpty<T>(s: seq<T>)
    ensures (forall x :: x !in s) ==> s == []
  {
    if s != [] {
      assert s[0] in s;
    }
  }

  // ---------------------------------------------------------------------------
  // Pagination: 30 rows a page.

  const ItemsPerPage: nat := 30

  /** `math.ceil(total_items / items_per_page)`. */
  function TotalPages(n: nat): (r: nat)
    ensures n > 0 ==> r >= 1
    ensures (r - 1) * ItemsPerPage < n <= r * ItemsPerPage || n == r == 0
  {
    (n + ItemsPerPage - 1) / ItemsPerPage
  }

  /** `processed_df.iloc[start_idx:end_idx]` for page `p`. */
  function PageRows<T>(rows: seq<T>, p: nat): (r: seq<T>)
    requires 1 <= p <= TotalPages(|rows|)
    ensures |r| == (if p * ItemsPerPage < |rows| then p * ItemsPerPage else |rows|) - (p - 1) * ItemsPerPage
    ensures 1 <= |r| <= ItemsPerPage
    ensures forall k :: 0 <= k < |r| ==> r[k] == rows[(p - 1) * ItemsPerPage + k]
  {
    var start := (p - 1) * ItemsPerPage;
    var end := if p * ItemsPerPage < |rows| then p * ItemsPerPage else |rows|;
    rows[start..end]
  }

  /** Row `i` is shown on page `i / 30 + 1` and no other. */
  lemma PageOfRow<T>(rows: seq<T>, i: nat, p: nat)
    requires i < |rows| && 1 <= p <= TotalPages(|rows|)
    ensures (p - 1) * ItemsPerPage <= i < (p - 1) * ItemsPerPage + |PageRows(rows, p)| <==> p == i / ItemsPerPage + 1
  {
  }

  /** The banner "第 start+1-min(end, n) 条". */
  function Banner(n: nat, p: nat): (r: (nat, nat))
    requires n > 0 && 1 <= p <= TotalPages(n)
    ensures r.0 <= r.1 <= n && r.1 - r.0 + 1 <= ItemsPerPage
  {
    var start := (p - 1) * ItemsPerPage;
    var end := start + ItemsPerPage;
    (start + 1, if end < n then end else n)
  }

  /** The banner counts exactly the rows on the page. */
  lemma BannerMatchesPage<T>(rows: seq<T>, p: nat)
    requires |rows| > 0 && 1 <= p <= TotalPages(|rows|)
    ensures Banner(|rows|, p).1 - Banner(|rows|, p).0 + 1 == |PageRows(rows, p)|
  {
  }

  /** The four navigation buttons. */
  datatype NavButton = FirstPage | PreviousPage | NextPage | LastPage

  /** The buttons drawn on page `p`: "第一页" and "上一页" past the first page,
      "下一页" and "最后一页" before the last. */
  function Buttons(p: nat, totalPages: nat): seq<NavButton> {
    (if p > 1 then [FirstPage, PreviousPage] else []) + (if p < totalPages then [NextPage, LastPage] else [])
  }

  /** The page a button writes into `st.session_state.current_page`. */
  function Target(b: NavButton, p: nat, totalPages: nat): int {
    match b
    case FirstPage => 1
    case PreviousPage => p - 1
    case NextPage => p + 1
    case LastPage => totalPages
  }

  /** On a page within range, every button drawn leads to another page that
      exists, and a button is drawn exactly when its move would leave the
      page. */
  lemma ButtonTargets(p: nat, totalPages: nat, b: NavButton)
    requires 1 <= p <= totalPages
    ensures b in Buttons(p, totalPages) ==> 1 <= Target(b, p, totalPages) <= totalPages && Target(b, p, totalPages) != p
    ensures b !in Buttons(p, totalPages) ==> Target(b, p, totalPages) == p || Target(b, p, totalPages) < 1 || Target(b, p, totalPages) > totalPages
  {
  }
}
