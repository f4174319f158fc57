/** The exam-paper listing of src/modules/materials.py: probing the storage
    prefixes, reading the year out of a file name, the type and year filters,
    the (year, name) ordering and the download MIME type. The listing call
    `bucket.list_objects(prefix=p).object_list` is the collaborator `list`
    (`None` when it raises); the clock is the parameter `currentYear`. */
module Materials {
  import opened Common
  import opened Sorting
  import Helpers

  // ---------------------------------------------------------------------------
  // extract_year

  /** `re.search(r'20\d{2}', s)` can match at `i`. */
  predicate YearAt(s: string, i: int) {
    0 <= i && i + 4 <= |s| && s[i] == '2' && s[i + 1] == '0' && IsDigit(s[i + 2]) && IsDigit(s[i + 3])
  }

  /** The leftmost match position at or after `from`. */
  function YearFrom(s: string, from: nat): (r: Option<nat>)
    decreases |s| - from
    ensures r.Some? ==> from <= r.value && YearAt(s, r.value)
    ensures r.Some? ==> forall j :: from <= j < r.value ==> !YearAt(s, j)
    ensures r.None? ==> forall j :: from <= j ==> !YearAt(s, j)
  {
    if from + 4 > |s| then None
    else if YearAt(s, from) then Some(from)
    else YearFrom(s, from + 1)
  }

  /** extract_year: the leftmost "20" followed by two digits, or `None`. */
  function ExtractYear(filename: string): (r: Option<string>)
    ensures r.None? <==> forall i :: !YearAt(filename, i)
    ensures r.Some? ==> exists i :: YearAt(filename, i) && r.value == filename[i..i + 4]
                                    && forall j :: 0 <= j < i ==> !YearAt(filename, j)
  {
    match YearFrom(filename, 0)
    case Some(i) => Some(filename[i..i + 4])
    case None => None
  }

  /** A name that starts with a year has that year, whatever follows. */
  lemma {:induction false} LeadingYear(year: string, rest: string)
    requires |year| == 4 && YearAt(year, 0)
    ensures ExtractYear(year + rest) == Some(year)
  {
    assert YearAt(year + rest, 0);
    assert (year + rest)[0..4] == year;
  }

  /** Every extracted year is four characters "20dd". */
  lemma ExtractedYearShape(filename: string)
    requires ExtractYear(filename).Some?
    ensures YearAt(ExtractYear(filename).value, 0) && |ExtractYear(filename).value| == 4
  {
  }

  // ---------------------------------------------------------------------------
  // get_supported_file_types

  function SupportedFileTypes(examType: string): (r: seq<string>)
    ensures examType == "面试" ==> r == [".mp4", ".MP4"]
    ensures examType != "面试" ==> r == [".pdf", ".PDF", ".jpg", ".jpeg", ".png"]
  {
    if examType == "面试" then [".mp4", ".MP4"] else [".pdf", ".PDF", ".jpg", ".jpeg", ".png"]
  }

  /** The lower-case entries alone. */
  function LowerCaseTypes(examType: string): seq<string> {
    if examType == "面试" then [".mp4"] else [".pdf", ".jpg", ".jpeg", ".png"]
  }

  /** Dropping suffixes that hold an upper-case letter changes nothing for a lowered name. */
  lemma DropUpperSuffixes(name: string, full: seq<string>, lower: seq<string>)
    requires forall k :: 0 <= k < |full| ==> full[k] in lower || Helpers.HasUpper(full[k])
    requires forall m :: 0 <= m < |lower| ==> lower[m] in full
    ensures EndsWithAny(Lower(name), full) <==> EndsWithAny(Lower(name), lower)
  {
    var low := Lower(name);
    if EndsWithAny(low, full) {
      var k :| 0 <= k < |full| && EndsWith(low, full[k]);
      if Helpers.HasUpper(full[k]) {
        Helpers.UpperSuffixNeverMatches(name, full[k]);
      } else {
        var m :| 0 <= m < |lower| && lower[m] == full[k];
      }
    }
    if EndsWithAny(low, lower) {
      var m :| 0 <= m < |lower| && EndsWith(low, lower[m]);
      var k :| 0 <= k < |full| && full[k] == lower[m];
    }
  }

  /** Names are lowered before the test, so ".MP4" and ".PDF" never add a match. */
  lemma UpperEntriesIrrelevant(name: string, examType: string)
    ensures Helpers.ValidateFileExtension(name, SupportedFileTypes(examType))
        <==> Helpers.ValidateFileExtension(name, LowerCaseTypes(examType))
  {
    var full := SupportedFileTypes(examType);
    var lower := LowerCaseTypes(examType);
    if examType == "面试" {
      assert Helpers.HasUpper(".MP4") by { assert 'A' <= ".MP4"[1] <= 'Z'; }
      assert full[0] == lower[0];
    } else {
      assert Helpers.HasUpper(".PDF") by { assert 'A' <= ".PDF"[1] <= 'Z'; }
      assert full[0] == lower[0] && full[2] == lower[1] && full[3] == lower[2] && full[4] == lower[3];
    }
    DropUpperSuffixes(name, full, lower);
  }

  // ---------------------------------------------------------------------------
  // check_oss_path

  /** The four prefixes tried, in order. */
  function PossiblePrefixes(prefix: string): (r: seq<string>)
    ensures |r| == 4 && r[0] == prefix
  {
    [prefix, prefix + "/", prefix + "/试题/", "试题/" + prefix + "/"]
  }

  /** The listing of the first prefix whose listing is non-empty, with that
      prefix; `([], None)` when all are empty or a listing raises first. */
  function Probe(prefixes: seq<string>, list: string -> Option<seq<string>>): (r: (seq<string>, Option<string>))
    ensures r.1.None? ==> r.0 == []
    ensures r.1.Some? ==> exists i :: 0 <= i < |prefixes| && prefixes[i] == r.1.value
                                      && list(prefixes[i]) == Some(r.0) && r.0 != []
                                      && forall j :: 0 <= j < i ==> list(prefixes[j]) == Some([])
    ensures (forall i :: 0 <= i < |prefixes| ==> list(prefixes[i]) == Some([])) ==> r == ([], None)
  {
    if prefixes == [] then ([], None)
    else
      match list(prefixes[0])
      case None => ([], None)
      case Some(objects) =>
        if objects != [] then (objects, Some(prefixes[0]))
        else
          var rest := Probe(prefixes[1..], list);
          assert rest.1.Some? ==> exists i :: 0 <= i < |prefixes| && prefixes[i] == rest.1.value
                                            && list(prefixes[i]) == Some(rest.0) && rest.0 != []
                                            && forall j :: 0 <= j < i ==> list(prefixes[j]) == Some([]) by {
            if rest.1.Some? {
              var i :| 0 <= i < |prefixes[1..]| && prefixes[1..][i] == rest.1.value
                       && list(prefixes[1..][i]) == Some(rest.0) && rest.0 != []
                       && forall j :: 0 <= j < i ==> list(prefixes[1..][j]) == Some([]);
              assert prefixes[i + 1] == rest.1.value;
              forall j | 0 <= j < i + 1 ensures list(prefixes[j]) == Some([]) {
                if j > 0 { assert prefixes[j] == prefixes[1..][j - 1]; }
              }
            }
          }
          rest
  }

  /** `st.session_state.valid_prefix` of the materials page. */
  class MaterialsSession {
    var validPrefix: Option<string>

    constructor ()
      ensures validPrefix == None
    {
      validPrefix := None;
    }

    /** check_oss_path: lists the prefixes in order and keeps the first
        non-empty listing, recording its prefix; a raising listing ends the
        probe with `[]`. */
    method CheckOssPath(prefix: string, list: string -> Option<seq<string>>) returns (files: seq<string>)
      modifies this
      ensures files == Probe(PossiblePrefixes(prefix), list).0
      ensures validPrefix == (if Probe(PossiblePrefixes(prefix), list).1.Some?
                              then Probe(PossiblePrefixes(prefix), list).1 else old(validPrefix))
    {
      var prefixes := PossiblePrefixes(prefix);
      var allFiles: seq<string> := [];
      var i := 0;
      while i < |prefixes|
        invariant 0 <= i <= |prefixes|
        invariant allFiles == [] && validPrefix == old(validPrefix)
        invariant Probe(prefixes, list) == Probe(prefixes[i..], list)
      {
        assert prefixes[i..][1..] == prefixes[i + 1..];
        var result := list(prefixes[i]);
        if result.None? {
          return [];
        }
        if result.value != [] {
          allFiles := result.value;
          validPrefix := Some(prefixes[i]);
          return allFiles;
        }
        i := i + 1;
      }
      return allFiles;
    }
  }

  // ---------------------------------------------------------------------------
  // The paper list of display_materials

  datatype Paper = Paper(name: string, key: string, url: string, year: string)

  const AllYears: string := "全部"
  const UnknownYear: string := "未知年份"

  /** `["全部"] + [str(y) for y in range(current_year, current_year - 11, -1)]`. */
  function YearChoices(currentYear: int): (r: seq<string>)
    ensures |r| == 12 && r[0] == AllYears
    ensures forall k :: 1 <= k < 12 ==> r[k] == IntToString(currentYear - (k - 1))
  {
    [AllYears] + seq(11, k => IntToString(currentYear - k))
  }

  /** The file-name filter of the loop: a supported type and, unless "全部" is
      selected, exactly the selected year. */
  predicate Selected(name: string, examType: string, selectedYear: string) {
    && Helpers.ValidateFileExtension(name, SupportedFileTypes(examType))
    && (selectedYear == AllYears || ExtractYear(name) == Some(selectedYear))
  }

  function PaperOf(key: string, endpoint: string): (r: Paper)
    ensures r.name == LastPiece(key, '/') && r.key == key && r.url == endpoint + "/" + key
    ensures ExtractYear(r.name).None? <==> r.year == UnknownYear
    ensures ExtractYear(r.name).Some? ==> r.year == ExtractYear(r.name).value
    ensures r.year == UnknownYear || (|r.year| == 4 && r.year[0] == '2')
  {
    var name := LastPiece(key, '/');
    match ExtractYear(name)
    case Some(y) =>
      assert y[0] == '2';
      Paper(name, key, endpoint + "/" + key, y)
    case None => Paper(name, key, endpoint + "/" + key, UnknownYear)
  }

  /** `exam_papers` after the loop, in listing order. */
  function PapersOf(keys: seq<string>, examType: string, selectedYear: string, endpoint: string): (r: seq<Paper>)
    ensures forall p :: p in r ==> exists k :: k in keys && Selected(LastPiece(k, '/'), examType, selectedYear)
                                              && p == PaperOf(k, endpoint)
    ensures forall k :: k in keys && Selected(LastPiece(k, '/'), examType, selectedYear) ==> PaperOf(k, endpoint) in r
    ensures selectedYear != AllYears ==> forall p :: p in r ==> p.year == selectedYear
  {
    if keys == [] then []
    else
      var front := keys[..|keys| - 1];
      var key := keys[|keys| - 1];
      assert keys == front + [key];
      var rest := PapersOf(front, examType, selectedYear, endpoint);
      if Selected(LastPiece(key, '/'), examType, selectedYear) then rest + [PaperOf(key, endpoint)] else rest
  }

  /** The sort key `(year, name)` compared as Python compares tuples. */
  predicate KeyLess(a: Paper, b: Paper) {
    StrLess(a.year, b.year) || (a.year == b.year && StrLess(a.name, b.name))
  }

  /** `sort(key=(year, name), reverse=True)`: `a` goes ahead of `b` when its key is greater. */
  predicate PaperAhead(a: Paper, b: Paper) {
    KeyLess(b, a)
  }

  lemma KeyLessTransitive(a: Paper, b: Paper, c: Paper)
    requires KeyLess(a, b) && KeyLess(b, c)
    ensures KeyLess(a, c)
  {
    if StrLess(a.year, b.year) && StrLess(b.year, c.year) {
      StrLessTransitive(a.year, b.year, c.year);
    } else if a.year == b.year && b.year == c.year {
      StrLessTransitive(a.name, b.name, c.name);
    }
  }

  lemma KeyLessTotal(a: Paper, b: Paper)
    ensures (a.year == b.year && a.name == b.name) || KeyLess(a, b) || KeyLess(b, a)
  {
    StrLessTotal(a.year, b.year);
    StrLessTotal(a.name, b.name);
  }

  lemma PaperOrder()
    ensures StrictWeakOrder(PaperAhead)
  {
    forall a: Paper ensures !PaperAhead(a, a) {
      StrLessIrreflexive(a.year);
      StrLessIrreflexive(a.name);
    }
    forall a: Paper, b: Paper, c: Paper | PaperAhead(a, b) && PaperAhead(b, c)
      ensures PaperAhead(a, c)
    {
      KeyLessTransitive(c, b, a);
    }
    forall a: Paper, b: Paper, c: Paper | !PaperAhead(a, b) && !PaperAhead(b, c)
      ensures !PaperAhead(a, c)
    {
      KeyLessTotal(a, b);
      KeyLessTotal(b, c);
      if PaperAhead(a, c) {
        StrLessIrreflexive(a.year);
        StrLessIrreflexive(a.name);
        StrLessIrreflexive(b.year);
        StrLessIrreflexive(b.name);
        if KeyLess(a, b) && KeyLess(b, c) {
          KeyLessTransitive(a, b, c);
          KeyLessTransitive(c, a, c);
          StrLessIrreflexive(c.year);
          StrLessIrreflexive(c.name);
        } else if KeyLess(a, b) {
          KeyLessTransitive(c, a, b);
        } else if KeyLess(b, c) {
          KeyLessTransitive(b, c, a);
        }
      }
    }
  }

  /** What the page shows once the listing is known. */
  datatype View = NoMaterials | NoneForYear(year: string) | NoDownloadable | Papers(papers: seq<Paper>)

  /** The body of display_materials after check_oss_path: the filter loop, the
      two warnings for an empty result, then the descending (year, name) sort. */
  method ListPapers(objectKeys: seq<string>, examType: string, selectedYear: string, endpoint: string)
    returns (v: View)
    ensures objectKeys == [] <==> v == NoMaterials
    ensures objectKeys != [] && PapersOf(objectKeys, examType, selectedYear, endpoint) == [] ==>
      v == (if selectedYear != AllYears then NoneForYear(selectedYear) else NoDownloadable)
    ensures v.Papers? ==> v.papers == SortBy(PapersOf(objectKeys, examType, selectedYear, endpoint), PaperAhead)
                          && v.papers != []
  {
    if objectKeys == [] {
      return NoMaterials;
    }
    var examPapers: seq<Paper> := [];
    for i := 0 to |objectKeys|
      invariant examPapers == PapersOf(objectKeys[..i], examType, selectedYear, endpoint)
    {
      assert objectKeys[..i + 1][..i] == objectKeys[..i];
      var fileName := LastPiece(objectKeys[i], '/');
      if Selected(fileName, examType, selectedYear) {
        examPapers := examPapers + [PaperOf(objectKeys[i], endpoint)];
      }
    }
    assert objectKeys[..|objectKeys|] == objectKeys;
    if examPapers == [] {
      if selectedYear != AllYears {
        return NoneForYear(selectedYear);
      }
      return NoDownloadable;
    }
    examPapers := SortBy(examPapers, PaperAhead);
    return Papers(examPapers);
  }

  /** In a list sorted by PaperAhead whose years are "未知年份" or "20dd",
      the papers without a year come first: "未知年份" compares above every "20dd". */
  lemma UndatedFirst(r: seq<Paper>)
    requires SortedBy(r, PaperAhead)
    requires forall i :: 0 <= i < |r| ==> r[i].year == UnknownYear || (|r[i].year| == 4 && r[i].year[0] == '2')
    ensures forall i, j :: 0 <= i < j < |r| && r[j].year == UnknownYear ==> r[i].year == UnknownYear
  {
    forall i, j | 0 <= i < j < |r| && r[j].year == UnknownYear ensures r[i].year == UnknownYear {
      assert !PaperAhead(r[j], r[i]);
    }
  }

  /** The list shown is sorted, holds the selected papers, and lists the
      papers without a year first. */
  lemma SortedPapers(keys: seq<string>, examType: string, selectedYear: string, endpoint: string)
    ensures var r := SortBy(PapersOf(keys, examType, selectedYear, endpoint), PaperAhead);
      && SortedBy(r, PaperAhead)
      && (forall p :: p in r <==> p in PapersOf(keys, examType, selectedYear, endpoint))
      && forall i, j :: 0 <= i < j < |r| && r[j].year == UnknownYear ==> r[i].year == UnknownYear
  {
    var ps := PapersOf(keys, examType, selectedYear, endpoint);
    var r := SortBy(ps, PaperAhead);
    PaperOrder();
    SortBySorted(ps, PaperAhead);
    forall p ensures p in r <==> p in ps {
      SortByMembers(ps, PaperAhead, p);
    }
    forall i | 0 <= i < |r| ensures r[i].year == UnknownYear || (|r[i].year| == 4 && r[i].year[0] == '2') {
      assert r[i] in ps;
    }
    UndatedFirst(r);
  }

  /** The MIME type of the download button. */
  function MimeType(name: string): (r: string)
    ensures r == "video/mp4" || r == "application/pdf" || r == "image/jpeg"
  {
    var low := Lower(name);
    if EndsWith(low, ".mp4") || EndsWith(low, ".MP4") then "video/mp4"
    else if EndsWith(low, ".pdf") then "application/pdf"
    else "image/jpeg"
  }

  /** ".mp4" names get video/mp4 and ".pdf" names application/pdf, whatever
      their case; every other name, PNG included, is offered as image/jpeg. */
  lemma MimeTypeBySuffix(name: string)
    ensures MimeType(name) == "video/mp4" <==> EndsWith(Lower(name), ".mp4")
    ensures MimeType(name) == "application/pdf" <==> EndsWith(Lower(name), ".pdf")
  {
    var low := Lower(name);
    assert Helpers.HasUpper(".MP4") by { assert 'A' <= ".MP4"[1] <= 'Z'; }
    Helpers.UpperSuffixNeverMatches(name, ".MP4");
    if EndsWith(low, ".mp4") {
      assert low[|low| - 1] == ".mp4"[3];
    }
  }
}
