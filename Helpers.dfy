/** The utility functions of src/utils/helpers.py: date parsing and
    formatting, file-extension checks, file-name sanitising, text chunking,
    keyword splitting and the "time ago" wording. The clock is a parameter:
    `format_time_ago` receives the difference `now - timestamp` already
    split into days and seconds, as Python's `timedelta` keeps it. */
module Helpers {
  import opened Common

  // ---------------------------------------------------------------------------
  // datetime.strptime(s, "%Y-%m-%d")

  datatype Date = Date(year: int, month: int, day: int)

  function DaysInMonth(year: int, month: int): (r: int)
    requires 1 <= month <= 12
    ensures 28 <= r <= 31
  {
    if month == 2 then
      (if year % 4 == 0 && (year % 100 != 0 || year % 400 == 0) then 29 else 28)
    else if month == 4 || month == 6 || month == 9 || month == 11 then 30
    else 31
  }

  function Digit(c: char): (r: nat)
    requires IsDigit(c)
    ensures r < 10
  {
    c as int - '0' as int
  }

  /** The `%m` field of strptime at index `i`: the alternatives `1[0-2]`,
      `0[1-9]`, `[1-9]` in that order, each followed by the literal `-`.
      Returns the month and the index just after the `-`. */
  function MonthField(s: string, i: nat): (r: Option<(int, nat)>)
    ensures r.Some? ==> 1 <= r.value.0 <= 12 && i < r.value.1 <= |s|
    ensures r.Some? ==> forall j :: i <= j < r.value.1 ==> IsDigit(s[j]) || s[j] == '-'
  {
    if i + 2 < |s| && s[i] == '1' && '0' <= s[i + 1] <= '2' && s[i + 2] == '-' then
      Some((10 + Digit(s[i + 1]), i + 3))
    else if i + 2 < |s| && s[i] == '0' && '1' <= s[i + 1] <= '9' && s[i + 2] == '-' then
      Some((Digit(s[i + 1]), i + 3))
    else if i + 1 < |s| && '1' <= s[i] <= '9' && s[i + 1] == '-' then
      Some((Digit(s[i]), i + 2))
    else None
  }

  /** The `%d` field of strptime at index `i`: the first of the alternatives
      `3[01]`, `[12]\d`, `0[1-9]`, `[1-9]`, ` [1-9]` that matches there.
      Returns the day and the index where the match ends. */
  function DayField(s: string, i: nat): (r: Option<(int, nat)>)
    ensures r.Some? ==> 1 <= r.value.0 <= 31 && i < r.value.1 <= |s|
    ensures r.Some? ==> forall j :: i <= j < r.value.1 ==> IsDigit(s[j]) || s[j] == ' '
  {
    if i + 1 < |s| && s[i] == '3' && '0' <= s[i + 1] <= '1' then
      Some((30 + Digit(s[i + 1]), i + 2))
    else if i + 1 < |s| && '1' <= s[i] <= '2' && IsDigit(s[i + 1]) then
      Some((10 * Digit(s[i]) + Digit(s[i + 1]), i + 2))
    else if i + 1 < |s| && s[i] == '0' && '1' <= s[i + 1] <= '9' then
      Some((Digit(s[i + 1]), i + 2))
    else if i < |s| && '1' <= s[i] <= '9' then
      Some((Digit(s[i]), i + 1))
    else if i + 1 < |s| && s[i] == ' ' && '1' <= s[i + 1] <= '9' then
      Some((Digit(s[i + 1]), i + 2))
    else None
  }

  /** `datetime.strptime(s, "%Y-%m-%d")`: `None` where Python raises `ValueError`
      (no match, unconverted data after the day, year 0, or a day past the
      end of the month). */
  function ParseYmd(s: string): (r: Option<Date>)
    ensures r.Some? ==> 1 <= r.value.year <= 9999 && 1 <= r.value.month <= 12
    ensures r.Some? ==> 1 <= r.value.day <= DaysInMonth(r.value.year, r.value.month)
    ensures r.Some? ==> forall j :: 0 <= j < |s| ==> IsDigit(s[j]) || s[j] == '-' || s[j] == ' '
  {
    if |s| < 7 || !IsDigit(s[0]) || !IsDigit(s[1]) || !IsDigit(s[2]) || !IsDigit(s[3]) || s[4] != '-' then None
    else
      var year := 1000 * Digit(s[0]) + 100 * Digit(s[1]) + 10 * Digit(s[2]) + Digit(s[3]);
      match MonthField(s, 5)
      case None => None
      case Some(m) =>
        match DayField(s, m.1)
        case None => None
        case Some(d) =>
          if d.1 != |s| || year == 0 || d.0 > DaysInMonth(year, m.0) then None
          else Some(Date(year, m.0, d.0))
  }

  /** validate_date_format */
  predicate ValidateDateFormat(s: string) {
    ParseYmd(s).Some?
  }

  /** `n` as at least two digits, as `%m`, `%d` and `{n:02}` print it. */
  function Pad2(n: nat): (r: string)
    ensures |r| >= 2
  {
    if n < 10 then "0" + NatToString(n) else NatToString(n)
  }

  /** format_date with its default output format "%Y年%m月%d日". */
  function FormatDate(s: string): string {
    match ParseYmd(s)
    case Some(d) => IntToString(d.year) + "年" + Pad2(d.month) + "月" + Pad2(d.day) + "日"
    case None => s
  }

  /** format_date hands back its input exactly when validate_date_format rejects it. */
  lemma FormatDateUnchangedIffInvalid(s: string)
    ensures FormatDate(s) == s <==> !ValidateDateFormat(s)
  {
    if ValidateDateFormat(s) {
      var d := ParseYmd(s).value;
      var y := IntToString(d.year);
      var out := y + "年" + Pad2(d.month) + "月" + Pad2(d.day) + "日";
      assert out[|y|] == '年';
      if |y| < |s| {
        assert IsDigit(s[|y|]) || s[|y|] == '-' || s[|y|] == ' ';
        assert out[|y|] != s[|y|];
      } else {
        assert |out| > |s|;
      }
      assert FormatDate(s) == out;
    }
  }

  // ---------------------------------------------------------------------------
  // validate_file_extension

  /** `filename.lower().endswith(allowed)`. */
  predicate ValidateFileExtension(filename: string, allowed: seq<string>) {
    EndsWithAny(Lower(filename), allowed)
  }

  predicate HasUpper(s: string) {
    exists i :: 0 <= i < |s| && 'A' <= s[i] <= 'Z'
  }

  /** An allowed extension holding an upper-case letter never matches a lowered name. */
  lemma UpperSuffixNeverMatches(filename: string, suffix: string)
    requires HasUpper(suffix)
    ensures !EndsWith(Lower(filename), suffix)
  {
    var low := Lower(filename);
    if |suffix| <= |low| {
      var i :| 0 <= i < |suffix| && 'A' <= suffix[i] <= 'Z';
      assert low[|low| - |suffix|..][i] == LowerChar(filename[|low| - |suffix| + i]);
      assert low[|low| - |suffix|..][i] != suffix[i];
    }
  }

  /** The check ignores the case of the file name. */
  lemma ValidateIgnoresCase(filename: string, allowed: seq<string>)
    ensures ValidateFileExtension(Lower(filename), allowed) == ValidateFileExtension(filename, allowed)
  {
    assert Lower(Lower(filename)) == Lower(filename);
  }

  // ---------------------------------------------------------------------------
  // sanitize_filename

  /** The characters `re.sub(r'[<>:"/\\|?*]', '', ...)` removes. */
  predicate IsIllegal(c: char) {
    c == '<' || c == '>' || c == ':' || c == '"' || c == '/' || c == '\\' || c == '|' || c == '?' || c == '*'
  }

  function RemoveIllegal(s: string): (r: string)
    ensures forall i :: 0 <= i < |r| ==> !IsIllegal(r[i])
    ensures |r| <= |s|
    ensures forall i :: 0 <= i < |s| && !IsIllegal(s[i]) ==> s[i] in r
  {
    if s == [] then []
    else if IsIllegal(s[0]) then RemoveIllegal(s[1..])
    else [s[0]] + RemoveIllegal(s[1..])
  }

  /** The substitution works character by character: a legal character is
      kept where it stands, an illegal one is dropped, and the pieces of a
      split name are cleaned independently, so order and repetitions survive. */
  lemma {:induction false} RemoveIllegalAppend(a: string, b: string)
    ensures RemoveIllegal(a + b) == RemoveIllegal(a) + RemoveIllegal(b)
  {
    if a != [] {
      assert (a + b)[0] == a[0];
      assert (a + b)[1..] == a[1..] + b;
      RemoveIllegalAppend(a[1..], b);
    } else {
      assert a + b == b;
    }
  }

  /** A single character is kept exactly when it is legal. */
  lemma RemoveIllegalChar(c: char)
    ensures RemoveIllegal([c]) == if IsIllegal(c) then [] else [c]
  {
    assert [c][1..] == [];
  }

  /** Index of the last `c` in `s`, or -1, as `str.rfind`. */
  function RFind(s: string, c: char): (r: int)
    ensures -1 <= r < |s|
    ensures r >= 0 ==> s[r] == c
    ensures forall j :: r < j < |s| ==> s[j] != c
  {
    if s == [] then -1
    else if s[|s| - 1] == c then |s| - 1
    else RFind(s[..|s| - 1], c)
  }

  /** `os.path.splitext(p)` on POSIX: the extension starts at the last dot of the
      last path component, unless that component has only dots before it. */
  function SplitExt(p: string): (r: (string, string))
    ensures r.0 + r.1 == p
    ensures r.1 == [] || (r.1[0] == '.' && '.' !in r.1[1..] && '/' !in r.1)
  {
    var sep := RFind(p, '/');
    var dot := RFind(p, '.');
    if dot > sep && exists j :: sep + 1 <= j < dot && p[j] != '.' then
      assert p[dot..][1..] == p[dot + 1..];
      (p[..dot], p[dot..])
    else (p, "")
  }

  /** sanitize_filename as the repository has it: `os` is used at line 37 but
      never imported, so after the substitution every call raises `NameError`. */
  function SanitizeFilenameAsWritten(filename: string): (r: Result<string, string>)
    ensures r.Err?
  {
    var cleaned := RemoveIllegal(filename);
    Err("NameError: name 'os' is not defined")
  }

  /** sanitize_filename with `os` imported: illegal characters removed, and a
      name longer than 255 characters cut down in its stem so that the
      extension survives. */
  function SanitizeFilename(filename: string): (r: string)
    ensures forall i :: 0 <= i < |r| ==> !IsIllegal(r[i])
    ensures |RemoveIllegal(filename)| <= 255 ==> r == RemoveIllegal(filename)
    ensures |RemoveIllegal(filename)| > 255 && |SplitExt(RemoveIllegal(filename)).1| <= 255 ==>
      |r| == 255 && EndsWith(r, SplitExt(RemoveIllegal(filename)).1)
    ensures var name, ext := SplitExt(RemoveIllegal(filename)).0, SplitExt(RemoveIllegal(filename)).1;
      |name| + |ext| > 255 && |ext| <= 255 ==> r == name[..255 - |ext|] + ext
    ensures var name, ext := SplitExt(RemoveIllegal(filename)).0, SplitExt(RemoveIllegal(filename)).1;
      |ext| > 255 ==> r == PyPrefix(name, 255 - |ext|) + ext
                      && |r| == (if |name| + 255 > |ext| then |name| + 255 else |ext|)
  {
    var cleaned := RemoveIllegal(filename);
    var name, ext := SplitExt(cleaned).0, SplitExt(cleaned).1;
    if |cleaned| > 255 then
      CutStem(cleaned, name, ext);
      PyPrefix(name, 255 - |ext|) + ext
    else
      assert |name| + |ext| == |cleaned| <= 255;
      cleaned
  }

  /** `name[:255-len(ext)] + ext` for a clean name longer than 255 characters. */
  lemma CutStem(cleaned: string, name: string, ext: string)
    requires name + ext == cleaned && |cleaned| > 255
    requires forall i :: 0 <= i < |cleaned| ==> !IsIllegal(cleaned[i])
    ensures var r := PyPrefix(name, 255 - |ext|) + ext;
      && (forall i :: 0 <= i < |r| ==> !IsIllegal(r[i]))
      && EndsWith(r, ext)
      && (|ext| <= 255 ==> |r| == 255 && r == name[..255 - |ext|] + ext)
      && (|ext| > 255 ==> |r| == (if |name| + 255 > |ext| then |name| + 255 else |ext|))
  {
    var stem := PyPrefix(name, 255 - |ext|);
    var r := stem + ext;
    forall i | 0 <= i < |r| ensures !IsIllegal(r[i]) {
      if i < |stem| {
        assert r[i] == name[i] == cleaned[i];
      } else {
        assert r[i] == ext[i - |stem|] == cleaned[|name| + i - |stem|];
      }
    }
    assert r[|r| - |ext|..] == ext;
  }

  /** Every call of the repository's version fails, even for a short legal
      name that the intended version hands back unchanged. */
  lemma SanitizeAsWrittenFails(filename: string)
    requires forall i :: 0 <= i < |filename| ==> !IsIllegal(filename[i])
    requires |filename| <= 255
    ensures SanitizeFilenameAsWritten(filename).Err?
    ensures SanitizeFilename(filename) == filename
  {
    RemoveIllegalKeeps(filename);
  }

  /** How os.path.splitext divides `stem.tail` when neither part has a dot or a slash. */
  lemma {:induction false} SplitExtAtLastDot(stem: string, tail: string)
    requires stem != [] && stem[0] != '.' && '.' !in stem && '.' !in tail
    requires '/' !in stem && '/' !in tail
    ensures SplitExt(stem + "." + tail) == (stem, "." + tail)
  {
    var f := stem + "." + tail;
    assert f[|stem|] == '.';
    forall j | |stem| < j < |f| ensures f[j] != '.' {
      assert f[j] == tail[j - |stem| - 1];
    }
    forall j | 0 <= j < |f| ensures f[j] != '/' {
      if j < |stem| { assert f[j] == stem[j]; }
      else if j > |stem| { assert f[j] == tail[j - |stem| - 1]; }
    }
    var dot := RFind(f, '.');
    assert dot == |stem|;
    assert RFind(f, '/') == -1;
    assert f[0] == stem[0];
    assert f[..dot] == stem;
    assert f[dot..] == "." + tail;
  }

  /** The 255-character bound is not kept when the extension, counting its
      dot, is longer than 255 characters: the negative slice stop cuts the
      stem from its end, emptying it once the extension is 255 characters
      longer than the stem, and the extension is kept whole. */
  lemma {:induction false} LongExtensionKeptWhole(stem: string, tail: string)
    requires stem != [] && stem[0] != '.' && '.' !in stem && '.' !in tail
    requires forall i :: 0 <= i < |stem| ==> !IsIllegal(stem[i])
    requires forall i :: 0 <= i < |tail| ==> !IsIllegal(tail[i])
    requires |tail| + 1 > 255
    ensures SanitizeFilename(stem + "." + tail) == PyPrefix(stem, 255 - (|tail| + 1)) + ("." + tail)
    ensures |tail| + 1 >= 255 + |stem| ==> SanitizeFilename(stem + "." + tail) == "." + tail
    ensures |SanitizeFilename(stem + "." + tail)| > 255
  {
    var f := stem + "." + tail;
    assert forall i :: 0 <= i < |f| ==> !IsIllegal(f[i]) by {
      forall i | 0 <= i < |f| ensures !IsIllegal(f[i]) {
        if i < |stem| { assert f[i] == stem[i]; }
        else if i > |stem| { assert f[i] == tail[i - |stem| - 1]; }
      }
    }
    RemoveIllegalKeeps(f);
    forall i | 0 <= i < |stem| ensures stem[i] != '/' {
      assert !IsIllegal(stem[i]);
    }
    forall i | 0 <= i < |tail| ensures tail[i] != '/' {
      assert !IsIllegal(tail[i]);
    }
    SplitExtAtLastDot(stem, tail);
    var ext := "." + tail;
    assert SplitExt(RemoveIllegal(f)).0 == stem && SplitExt(RemoveIllegal(f)).1 == ext;
    SanitizeBySplit(f, stem, ext);
    var r := SanitizeFilename(f);
    assert |ext| == |tail| + 1;
    assert r == PyPrefix(stem, 255 - (|tail| + 1)) + ext;
    if |tail| + 1 >= 255 + |stem| {
      assert PyPrefix(stem, 255 - |ext|) == [];
    }
  }

  /** The long-extension clause of sanitize_filename, for a name whose split is known. */
  lemma SanitizeBySplit(filename: string, name: string, ext: string)
    requires SplitExt(RemoveIllegal(filename)).0 == name && SplitExt(RemoveIllegal(filename)).1 == ext
    requires |ext| > 255
    ensures SanitizeFilename(filename) == PyPrefix(name, 255 - |ext|) + ext
    ensures |SanitizeFilename(filename)| == (if |name| + 255 > |ext| then |name| + 255 else |ext|)
  {
    var cleaned := RemoveIllegal(filename);
    assert |cleaned| == |name| + |ext| > 255;
  }

  lemma {:induction false} RemoveIllegalKeeps(s: string)
    requires forall i :: 0 <= i < |s| ==> !IsIllegal(s[i])
    ensures RemoveIllegal(s) == s
  {
    if s != [] {
      RemoveIllegalKeeps(s[1..]);
      assert s == [s[0]] + s[1..];
    }
  }

  // ---------------------------------------------------------------------------
  // chunk_text

  function Concat(parts: seq<string>): string {
    if parts == [] then "" else parts[0] + Concat(parts[1..])
  }

  /** `[text[i:i+size] for i in range(0, len(text), size)]` for a positive size. */
  function Chunks(text: string, size: nat): (r: seq<string>)
    requires size > 0
    ensures Concat(r) == text
    ensures forall k :: 0 <= k < |r| ==> 0 < |r[k]| <= size
    ensures forall k :: 0 <= k < |r| - 1 ==> |r[k]| == size
  {
    if |text| == 0 then []
    else if |text| <= size then [text]
    else
      var rest := Chunks(text[size..], size);
      assert text[..size] + text[size..] == text;
      [text[..size]] + rest
  }

  /** chunk_text: `range` refuses a step of zero; a negative step yields no chunk. */
  function ChunkText(text: string, chunkSize: int): (r: Result<seq<string>, string>)
    ensures chunkSize == 0 <==> r.Err?
    ensures chunkSize < 0 ==> r == Ok([])
    ensures chunkSize > 0 ==> r.Ok? && Concat(r.value) == text
    ensures chunkSize > 0 ==> forall k :: 0 <= k < |r.value| ==> 0 < |r.value[k]| <= chunkSize
    ensures chunkSize > 0 ==> forall k :: 0 <= k < |r.value| - 1 ==> |r.value[k]| == chunkSize
  {
    if chunkSize == 0 then Err("ValueError: range() arg 3 must not be zero")
    else if chunkSize < 0 then Ok([])
    else Ok(Chunks(text, chunkSize))
  }

  // ---------------------------------------------------------------------------
  // extract_keywords

  /** extract_keywords: `text.split()[:max_keywords]`. */
  function ExtractKeywords(text: string, maxKeywords: int): (r: seq<string>)
    ensures maxKeywords >= 0 ==> r == Words(text)[..if maxKeywords < |Words(text)| then maxKeywords else |Words(text)|]
    ensures forall k :: 0 <= k < |r| ==> r[k] != [] && forall j :: 0 <= j < |r[k]| ==> !IsSpace(r[k][j])
  {
    var words := Words(text);
    var r := PyPrefix(words, maxKeywords);
    assert forall k :: 0 <= k < |r| ==> r[k] == words[k];
    r
  }

  /** Tokens joined with single spaces. */
  function JoinSpace(ws: seq<string>): string {
    if ws == [] then "" else if |ws| == 1 then ws[0] else ws[0] + " " + JoinSpace(ws[1..])
  }

  predicate IsWord(w: string) {
    w != [] && forall j :: 0 <= j < |w| ==> !IsSpace(w[j])
  }

  lemma {:induction false} TokenOfWord(w: string, rest: string)
    requires forall j :: 0 <= j < |w| ==> !IsSpace(w[j])
    requires rest == [] || IsSpace(rest[0])
    ensures Token(w + rest) == w
  {
    if w == [] {
      assert w + rest == rest;
    } else {
      assert (w + rest)[1..] == w[1..] + rest;
      TokenOfWord(w[1..], rest);
    }
  }

  /** Splitting the space-joined keywords gives them back. */
  lemma {:induction false} WordsOfJoin(ws: seq<string>)
    requires forall k :: 0 <= k < |ws| ==> IsWord(ws[k])
    ensures Words(JoinSpace(ws)) == ws
  {
    if ws == [] {
    } else if |ws| == 1 {
      var w := ws[0];
      TokenOfWord(w, "");
      assert w + "" == w;
      assert w[|w|..] == [];
    } else {
      var w := ws[0];
      var tail := " " + JoinSpace(ws[1..]);
      var s := w + tail;
      assert JoinSpace(ws) == s;
      TokenOfWord(w, tail);
      assert s[|w|..] == tail;
      assert !IsSpace(s[0]);
      assert Words(tail) == Words(JoinSpace(ws[1..])) by {
        assert tail[1..] == JoinSpace(ws[1..]);
      }
      WordsOfJoin(ws[1..]);
      assert ws == [w] + ws[1..];
    }
  }

  // ---------------------------------------------------------------------------
  // format_time_ago

  datatype Ago = YearsAgo(n: int) | MonthsAgo(n: int) | DaysAgo(n: int)
               | HoursAgo(n: int) | MinutesAgo(n: int) | JustNow

  /** The branch of format_time_ago taken for a difference of `days` days and
      `seconds` seconds (Python normalises `timedelta.seconds` to [0, 86400)). */
  function TimeAgo(days: int, seconds: int): (r: Ago)
    requires 0 <= seconds < 86400
    ensures r.YearsAgo? <==> days > 365
    ensures r.YearsAgo? ==> r.n >= 1 && 365 * r.n <= days < 365 * (r.n + 1)
    ensures r.MonthsAgo? <==> 30 < days <= 365
    ensures r.MonthsAgo? ==> 1 <= r.n <= 12 && 30 * r.n <= days < 30 * (r.n + 1)
    ensures r.DaysAgo? <==> 0 < days <= 30
    ensures r.DaysAgo? ==> r.n == days
    ensures r.HoursAgo? <==> days <= 0 && seconds > 3600
    ensures r.HoursAgo? ==> 1 <= r.n <= 23 && 3600 * r.n <= seconds < 3600 * (r.n + 1)
    ensures r.MinutesAgo? <==> days <= 0 && 60 < seconds <= 3600
    ensures r.MinutesAgo? ==> 1 <= r.n <= 60 && 60 * r.n <= seconds < 60 * (r.n + 1)
    ensures r.JustNow? <==> days <= 0 && seconds <= 60
  {
    if days > 365 then YearsAgo(days / 365)
    else if days > 30 then MonthsAgo(days / 30)
    else if days > 0 then DaysAgo(days)
    else if seconds > 3600 then HoursAgo(seconds / 3600)
    else if seconds > 60 then MinutesAgo(seconds / 60)
    else JustNow
  }

  function RenderAgo(a: Ago): string {
    match a
    case YearsAgo(n) => IntToString(n) + "年前"
    case MonthsAgo(n) => IntToString(n) + "个月前"
    case DaysAgo(n) => IntToString(n) + "天前"
    case HoursAgo(n) => IntToString(n) + "小时前"
    case MinutesAgo(n) => IntToString(n) + "分钟前"
    case JustNow => "刚刚"
  }

  /** format_time_ago */
  function FormatTimeAgo(days: int, seconds: int): string
    requires 0 <= seconds < 86400
  {
    RenderAgo(TimeAgo(days, seconds))
  }

  /** The thresholds are strict: a full year of days still reads as months,
      and a full hour of seconds still reads as minutes. */
  lemma TimeAgoBoundaries()
    ensures TimeAgo(365, 0) == MonthsAgo(12)
    ensures TimeAgo(366, 0) == YearsAgo(1)
    ensures TimeAgo(0, 3600) == MinutesAgo(60)
    ensures TimeAgo(0, 60) == JustNow
    ensures FormatTimeAgo(365, 0) == "12个月前"
    ensures FormatTimeAgo(0, 3600) == "60分钟前"
  {
  }
}
