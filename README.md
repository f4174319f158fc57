# CivilPass core, modelled in Dafny

CivilPass is a Streamlit study assistant for civil-service exams. It stores
its materials in an Aliyun OSS bucket and answers questions through an
OpenAI-compatible chat API. This project models the deterministic rules
beneath the user interface and proves what they guarantee:

- **Essay grading** (`app.py`). `extract_scores` reads twelve rubric scores
  out of the reviewer's feedback. `improve_until_pass` grades, optimizes
  once when the target is missed, and grades again. `process_essay` drives
  both.
- **Answers and knowledge graphs** (`app.py`). `split_answer_and_graph`
  cuts the first "```json" block out of a chat answer.
  `extract_knowledge_graph` picks, in order, the embedded graph, the
  five-node figure-reasoning template, or a complete co-occurrence graph
  over the named entities.
- **Session state** (`app.py`). The chat transcript with its edit button,
  the policy-news pager, and the upload key and content type of the
  monolith.
- **Listings** (`src/modules/`). Exam papers (prefix probing, year
  extraction, filters, the descending sort, the download mime type), the
  exam calendar (loading, year/query filter, month buckets, month images),
  policy news (CSV loading, cleaning, filtering, 30-per-page pagination)
  and shared experience (file list, upload counting).
- **Utilities** (`src/utils/`, `src/config/`). Object keys and content
  types, chunking, extension checks, filename sanitising, keywords,
  relative times, date formatting, configuration loading and validation,
  and the admin password gate.

Every collaborator the code calls out to becomes a parameter of the model:

- the bucket's `list_objects`, whether its `put_object` raises, and the CSV
  reader (the bucket's contents are a map from object key to bytes that an
  upload updates and `get_object` reads);
- the chat API, `review_essay` and `optimize_essay`;
- `json.loads` of a graph, and HanLP's entity list;
- the clock (`time.time()`, `datetime.now()`);
- the environment read by `os.getenv`.

Failures of a collaborator are `None` or `false`. Each Dafny module follows
one source file or one feature of `app.py`:

- `Common` holds the Python string operations the rules rely on (`strip`,
  `split`, `join`, `lower`, `endswith`, `find`, slicing, `str(int)`).
- `Sorting` holds one stable insertion sort that stands for `sorted`,
  `list.sort` and pandas' `sort_values`.

Stateful code keeps its form:

- `Chat.ChatSession` holds `messages`, `current_input` and
  `editing_index`.
- `Pager.NewsPager` holds `current_page`.
- `Materials.MaterialsSession` holds `valid_prefix`.
- The loops of `extract_scores`, `extract_knowledge_graph`,
  `display_files`, the upload counter, `load_calendar_data`, month bucketing
  and `load_all_policy_data` are methods with loop invariants. Each is
  proved equal to a specification function, and the lemmas beside it state
  what that function guarantees.

## Model

| member | source | states |
|---|---|---|
| Essay.ScoresIn | app.py:1020-1027 | a label has an entry exactly when its pattern matches somewhere, and the entry is the score of the first match |
| Essay.ExtractedScores | app.py:1007-1029 | `None` exactly when none of the twelve labels matches (never an empty map); otherwise the map of first-match scores, keyed only by labels |
| Essay.ExtractScores | app.py:1020-1029 | the dictionary-filling loop returns exactly `ExtractedScores(feedback)` |
| Essay.ScoreFrom | app.py:1025 | `re.search` semantics: the result is the score at the leftmost position where the pattern matches, and `None` only when it matches nowhere |
| Essay.DigitRunOfDigits | app.py:1024 | the greedy `(\d+)` takes a whole run of digits and stops at the first non-digit |
| Essay.ScoreLineReadBack | app.py:1024-1027 | a line `label（max分）` followed by an optional colon, an optional `得` and the score `n` is read back as `n`, whichever options are present and whatever text precedes it, provided `label（` starts nowhere before it |
| Essay.TailOfScoreLine | app.py:1024 | after the head, the optional colon, the spaces, the optional `得` and the digits yield the written score |
| Essay.HeadOfScoreLine | app.py:1024 | `label（digits分）` is recognised as the head of the pattern wherever it is written |
| Essay.ImproveUntilPass | app.py:839-875 | always one record with round 1; its total is the sum of its scores, or 0 without scores; its scores are extracted from its feedback, and its feedback is the review of its essay |
| Essay.RoundsIgnored | app.py:839-842 | the `max_rounds` argument has no effect on the result |
| Essay.PassingEssayUnchanged | app.py:850-858 | when the first review reaches the target, the essay comes back unchanged and `optimize` plays no part |
| Essay.FailingEssayOptimizedOnce | app.py:859-875 | otherwise the record holds `optimize(essay, feedback)`, whatever its new total |
| Essay.ProcessEssay | app.py:811-821 | nothing for blank input; otherwise the only record of `improve_until_pass(text, 90, 5)`, with the input essay kept when it already reaches 90 |
| KnowledgeGraph.FencedBlock | app.py:259-260 | the leftmost "```json" and the first closing fence after it (a non-greedy DOTALL match), or `None` when no opening fence is followed by a closing one |
| KnowledgeGraph.SplitAnswerAndGraph | app.py:258-267 | the graph part is the stripped inside of the first fenced block; without a block the answer is the stripped whole text and the graph is `None` |
| KnowledgeGraph.SplitAnswerRoundTrip | app.py:262-265 | text + "```json" + json + "```" + tail splits back into the stripped text and the stripped json |
| KnowledgeGraph.NoFenceNoGraph | app.py:266-267 | an answer without back-ticks gives (stripped answer, `None`) |
| KnowledgeGraph.TemplateShape | app.py:308-352 | the template has five nodes numbered 1..5 and four "包含" edges from node 1 to nodes 2..5, all between existing nodes |
| KnowledgeGraph.TemplateNumbered | app.py:309-345 | the template's node ids are 1..5 in order |
| KnowledgeGraph.TemplateEdgesInRange | app.py:346-351 | every template edge joins two of the five ids |
| KnowledgeGraph.EndpointsOfNumbered | app.py:371-372 | when nodes are numbered 1..n in order, any edge with both ends in 1..n joins existing nodes |
| KnowledgeGraph.EntityNodes | app.py:369-384 | one node per entity, in order, numbered 1..n, labelled with the entity text and grouped by its type |
| KnowledgeGraph.UnknownTypeStyle | app.py:377-379 | an entity of unknown type is described as "实体：text", coloured #9e9e9e and drawn as an ellipse |
| KnowledgeGraph.RowEdgesMembers | app.py:389-398 | the inner loop's edges are exactly the "共现" edges from node i+1 to each later node |
| KnowledgeGraph.PairEdgesMembers | app.py:388-398 | the nested loops' edges are exactly the "共现" edges from a to b with a < b |
| KnowledgeGraph.CoOccurrenceEdges | app.py:386-398 | the co-occurrence edge a→b is present iff 1 <= a < b <= n |
| KnowledgeGraph.RowEdgesCount | app.py:389 | the inner loop adds n-i-1 edges |
| KnowledgeGraph.PairEdgesCount | app.py:388-398 | after `rows` outer iterations, twice the edge count is rows·(2n-rows-1) |
| KnowledgeGraph.CompleteGraphSize | app.py:386-398 | n entities give n·(n-1)/2 edges |
| KnowledgeGraph.EntityGraphWellFormed | app.py:354-400 | in the entity graph every edge joins existing nodes and goes from a lower id to a higher one |
| KnowledgeGraph.BuildNodes | app.py:369-384 | the node-building loop produces exactly `EntityNodes(entities)` |
| KnowledgeGraph.BuildEdges | app.py:386-398 | the nested loops produce exactly the complete co-occurrence edge list |
| KnowledgeGraph.ExtractKnowledgeGraph | app.py:287-400 | the procedure returns the graph chosen by the three-step priority rule |
| KnowledgeGraph.EmbeddedGraphFirst | app.py:292-301 | a fenced block that parses wins over every other step |
| KnowledgeGraph.TemplateForGraphicQuestion | app.py:305-352 | without a parsable block, an answer containing any of the nine keywords gets the template |
| KnowledgeGraph.EntityFallback | app.py:354-400 | otherwise the graph is the entity graph, so its edges join existing nodes; zero entities give no nodes and no edges |
| KnowledgeGraph.BuiltGraphWellFormed | app.py:305-400 | whenever the graph is built rather than parsed, every edge joins existing nodes |
| Chat.UserContent | app.py:701 | the recorded question is the text, or "（仅上传图片）" for an image alone; it is never empty |
| Chat.Kept | app.py:696-698 | editing keeps exactly the messages before the edited index; not editing keeps all |
| Chat.SubmitAppendsPair | app.py:700-715 | a submission appends exactly one question and one answer after the kept prefix |
| Chat.EditReplacesFromQuestion | app.py:696-715 | editing question i replaces it and everything after it by the new pair |
| Chat.SubmitKeepsAlternating | app.py:691-715 | when the editing index is a question, questions and answers still alternate after a submission |
| Chat.ChatSession.constructor | app.py:480-486 | empty transcript, empty input, editing index -1 |
| Chat.ChatSession.Edit | app.py:638-650 | the question's text goes back into the input and its index is marked for editing; the transcript is unchanged |
| Chat.ChatSession.Submit | app.py:691-720 | nothing changes with no text and no image; otherwise the new transcript is the kept prefix plus the question and `ask`'s answer, editing ends and the input is cleared |
| Pager.TotalPages | app.py:1221-1223 | at least one page, one page for no rows, otherwise the ceiling of n/5 |
| Pager.NavigatedInRange | app.py:1227-1241 | after the buttons and the clamp the page lies in 1..total pages |
| Pager.StepsWithinRange | app.py:1227-1232 | "previous" decrements only above page 1, "next" increments only below the last page, and no button keeps the page |
| Pager.StalePageClamped | app.py:1240-1241 | a page left beyond the end by a shorter listing is brought back to the last page |
| Pager.ShownRows | app.py:1243-1245 | the shown rows are rows (page-1)·5 onward, at most five and at least one when there are rows |
| Pager.PagesCover | app.py:1243-1245 | the first k pages together are the first min(5k, n) rows, in order |
| Pager.PagesPartition | app.py:1221-1245 | all pages together are exactly the rows, each once and in order |
| Pager.NewsPager.constructor | app.py:1167-1168 | the page starts at 1 |
| Pager.NewsPager.Navigate | app.py:1227-1241 | the new page is the navigation rule applied to the old one, and lies in 1..total pages |
| Pager.NewsPager.CurrentRows | app.py:1243-1245 | the rows shown are `ShownRows` of the current page |
| AppUpload.Extension | app.py:172 | `os.path.splitext(name)[-1].lower()`: empty or starting with a dot |
| AppUpload.UploadFileToOss | app.py:170-186 | stored under the timestamped key with that content type; on success the public URL and the bucket with the file's bytes under that key, when the put fails `None` and the bucket unchanged |
| AppUpload.DottedKeys | app.py:173-179 | the map's dotted keys are the utility's undotted keys, with the same types |
| AppUpload.ContentTypesAgreeWithExtension | app.py:172-180 | whenever the name has a `splitext` extension, both upload functions pick the same content type |
| AppUpload.BareNameDiverges | app.py:172 | the name "pdf" is octet-stream here but application/pdf in the utility |
| AppUpload.DotFileDiverges | app.py:172 | the name ".png" is octet-stream here but image/png in the utility |
| Oss.UploadKey | src/utils/oss.py:27 | the key starts with "category/" and ends with "_" + name |
| Oss.Extension | src/utils/oss.py:28 | a name without a dot is its own (lower-cased) extension |
| Oss.ExtensionAfterLastDot | src/utils/oss.py:28 | the extension is the lower-cased text after the last dot |
| Oss.ContentTypeByExtension | src/utils/oss.py:29-36 | the content type is decided by the lower-cased text after the last dot alone, whatever the stem and the letter case: the mapped type for the five known extensions, application/octet-stream for any other |
| Oss.UploadFileToOss | src/utils/oss.py:25-43 | the non-empty URL `ENDPOINT/key` and the bucket with the file's bytes stored under that key exactly when the put succeeds; `None` and the bucket unchanged otherwise |
| Oss.UploadThenGet | src/utils/oss.py:17-43 | after a successful upload `get_cached_oss_object` of the key it wrote returns the file's bytes and the URL ends with that key; a failed upload changes no read, and a successful one changes no other key |
| Experience.DisplayName | src/modules/experience.py:74 | empty when the raw name has no underscore |
| Experience.DisplayNameAfterFirstUnderscore | src/modules/experience.py:74 | everything up to and including the first underscore is dropped |
| Experience.ItemOf | src/modules/experience.py:73-80 | type pdf iff the lower-cased key ends in ".pdf", URL `ENDPOINT/key`, raw name the last path segment |
| Experience.UploadedFileDisplaysItsName | src/modules/experience.py:73-74 | a key built by the upload utility displays as the uploaded file's name |
| Experience.FileItems | src/modules/experience.py:71-80 | exactly the keys not ending in "/" become items, and no more items than keys |
| Experience.NoItemsIffOnlyFolders | src/modules/experience.py:82-84 | no items exactly when every key is a folder marker |
| Experience.DisplayFiles | src/modules/experience.py:62-84 | a failed listing, "no materials" exactly when every key is a folder marker (an empty listing included), otherwise the non-empty item list |
| Experience.TargetFolder | src/modules/experience.py:37 | "学习笔记" for that type, "错题集" for every other |
| Experience.Outcomes | src/modules/experience.py:39-41 | one outcome per file |
| Experience.CountTrueBounds | src/modules/experience.py:36-43 | the count is at most the number of files, zero iff no upload succeeded, and full iff all did |
| Experience.UploadFiles | src/modules/experience.py:31-45 | no files gives the warning; otherwise the success count is the number of successful uploads out of all files, and the bucket is the one left by uploading the files in order |
| Experience.StoredUntouched | src/modules/experience.py:39-41 | a key that no file of the batch is uploaded under reads as it did before the batch |
| Experience.StoredReadBack | src/modules/experience.py:39-41 | a file whose upload succeeded reads back under its key after the batch, unless a later successful upload wrote the same key |
| Experience.SuccessShownIffSomeUpload | src/modules/experience.py:39-45 | the success message shows iff some upload's put succeeded |
| Materials.YearFrom | src/modules/materials.py:35 | the leftmost "20dd" at or after a position, or `None` when there is none |
| Materials.ExtractYear | src/modules/materials.py:32-38 | `None` iff no "20dd" occurs; otherwise an occurring "20dd" |
| Materials.LeadingYear | src/modules/materials.py:35-37 | a name starting with a year yields that year |
| Materials.ExtractedYearShape | src/modules/materials.py:35-37 | an extracted year is four characters "20dd" |
| Materials.DropUpperSuffixes | src/modules/materials.py:97 | upper-case entries never match a lower-cased name |
| Materials.UpperEntriesIrrelevant | src/modules/materials.py:97 | the check with the full tuple equals the check with its lower-case entries |
| Materials.PossiblePrefixes | src/modules/materials.py:12-17 | four candidates, the prefix itself first |
| Materials.Probe | src/modules/materials.py:19-27 | the listing of the first candidate with objects, recording it; nothing when all are empty |
| Materials.MaterialsSession.constructor | src/modules/materials.py:53-54 | no valid prefix yet |
| Materials.MaterialsSession.CheckOssPath | src/modules/materials.py:9-30 | the probing loop returns the probe's files and records its prefix when one was found |
| Materials.YearChoices | src/modules/materials.py:74-81 | "全部" followed by the eleven years from the current one down |
| Materials.PaperOf | src/modules/materials.py:96-108 | name is the last path segment, URL `ENDPOINT/key`, year the extracted year or "未知年份" |
| Materials.PapersOf | src/modules/materials.py:95-108 | exactly the supported, year-selected files become papers; with a year selected every paper has that year |
| Materials.KeyLessTransitive | src/modules/materials.py:118 | the (year, name) tuple order is transitive |
| Materials.KeyLessTotal | src/modules/materials.py:118 | the (year, name) tuple order is total |
| Materials.PaperOrder | src/modules/materials.py:118 | the descending sort key is a strict weak order |
| Materials.ListPapers | src/modules/materials.py:83-118 | no objects gives "no materials"; no selected paper gives "not found"; otherwise the papers sorted by (year, name) descending |
| Materials.UndatedFirst | src/modules/materials.py:107-118 | in the sorted list every "未知年份" paper comes before every dated one |
| Materials.SortedPapers | src/modules/materials.py:95-118 | the sorted list is sorted, holds exactly the selected papers, and puts undated papers first |
| Materials.MimeType | src/modules/materials.py:140-142 | one of video/mp4, application/pdf, image/jpeg |
| Materials.MimeTypeBySuffix | src/modules/materials.py:140-142 | video/mp4 iff the name ends in ".mp4", application/pdf iff it ends in ".pdf" |
| Calendar.ImageOf | src/modules/calendar.py:27-31 | key kept, URL `ENDPOINT/key`, name the last path segment |
| Calendar.ImagesOf | src/modules/calendar.py:23-31 | exactly the keys ending, case-insensitively, in .jpg/.jpeg/.png become images |
| Calendar.EventOrder | src/modules/calendar.py:34 | ordering by date string is a strict weak order |
| Calendar.LoadCalendarData | src/modules/calendar.py:16-39 | any failed read gives no events and no images; otherwise the events sorted by date and the listed images |
| Calendar.LoadedEventsSorted | src/modules/calendar.py:34 | the loaded events are sorted by date and are a permutation of the file's events |
| Calendar.MonthOf | src/modules/calendar.py:69 | the month of a parsed date is in 1..12 |
| Calendar.InsertDesc | src/modules/calendar.py:51 | inserting a year keeps the list strictly decreasing and adds only that year |
| Calendar.YearOptions | src/modules/calendar.py:51 | the distinct event years, strictly decreasing |
| Calendar.FilteredEvents | src/modules/calendar.py:58-63 | exactly the events of the selected year whose name or some region contains the query, case-insensitively |
| Calendar.EmptyQueryMatchesAll | src/modules/calendar.py:61-62 | the empty query matches every event |
| Calendar.MonthBucket | src/modules/calendar.py:67-70 | a month's bucket holds exactly the filtered events of that month |
| Calendar.MonthBucketStep | src/modules/calendar.py:68-70 | one more event extends its own month's bucket at the end and leaves the others alone, so order is kept |
| Calendar.MonthlyEvents | src/modules/calendar.py:67-70 | the grouping loop builds a map whose keys are the months with events and whose values are their buckets |
| Calendar.BucketSizesAppend | src/modules/calendar.py:68-70 | an event adds one to the total of the month range holding its month |
| Calendar.BucketsPartition | src/modules/calendar.py:66-70 | the bucket sizes over the twelve months add up to the number of events, so each event is in exactly one bucket |
| Calendar.MonthImages | src/modules/calendar.py:76 | exactly the images whose name contains "YYYY-MM" with a zero-padded month |
| News.CsvFiles | src/modules/news.py:26-27 | exactly the listed keys ending in ".csv" |
| News.Stamp | src/modules/news.py:47-52 | the row keeps title, source, date and url; data source is the last path segment; summary, region and hotness are overwritten by the defaults |
| News.StampAll | src/modules/news.py:47-52 | every row of the file is stamped the same way |
| News.LoadedRows | src/modules/news.py:36-54 | every loaded row carries the defaults and comes from a file that loaded |
| News.LoadedRowsComplete | src/modules/news.py:36-54 | every row of every file that loaded is in the combined frame, stamped with that file's name |
| News.ErrorFiles | src/modules/news.py:43-57 | exactly the CSV files that fail to read or lack a required column |
| News.DropMissing | src/modules/news.py:69 | exactly the rows with a title and a url survive |
| News.DropMissingAppend | src/modules/news.py:69 | the decision is made row by row and the survivors keep their order: dropping from a concatenation concatenates the results |
| News.DropMissingRow | src/modules/news.py:69 | a single row survives exactly when both its title and its url are present |
| News.DedupeByUrl | src/modules/news.py:70 | only input rows are kept |
| News.DedupeDistinct | src/modules/news.py:70 | no two kept rows share a url |
| News.DedupeKeepsFirst | src/modules/news.py:70 | each kept row is the first row with its url |
| News.DedupeCovers | src/modules/news.py:70 | every url of the input is still present |
| News.DateAheadOrder | src/modules/news.py:71 | ordering by date descending is a strict weak order |
| News.CleanSortedDistinct | src/modules/news.py:69-72 | the cleaned rows are sorted by date descending with distinct urls |
| News.CleanRows | src/modules/news.py:69-72 | the cleaned rows are complete input rows, and every complete row's url survives |
| News.CleanKeepsFirst | src/modules/news.py:69-72 | each cleaned row is the first complete row with its url |
| News.UniqueUrlsPermuted | src/modules/news.py:70-71 | sorting a list with distinct urls keeps them distinct |
| News.UrlDeterminesRow | src/modules/news.py:70 | among rows with distinct urls the url identifies the row |
| News.AtMostOnce | src/modules/news.py:70 | with distinct urls every row occurs at most once |
| News.LoadAllPolicyData | src/modules/news.py:15-74 | a failed listing gives nothing; otherwise the cleaned rows of the files that loaded and the files that did not |
| News.FilterRows | src/modules/news.py:110-118 | exactly the rows dated within [start, end] and in the selected sources and regions when any are selected |
| News.ProcessData | src/modules/news.py:110-127 | a permutation of the filtered rows |
| News.ProcessDataProperties | src/modules/news.py:110-127 | the result is sorted by date descending and holds exactly the kept rows |
| News.OtherRegionsEmpty | src/modules/news.py:117-118 | since loading overwrites every region with "全国", selecting only other regions finds nothing |
| News.TotalPages | src/modules/news.py:135-137 | the ceiling of n/30 |
| News.PageRows | src/modules/news.py:149-151 | page p shows rows (p-1)·30 up to min(p·30, n), between 1 and 30 of them |
| News.PageOfRow | src/modules/news.py:149-151 | row i is shown on page i div 30 + 1 and on no other |
| News.Banner | src/modules/news.py:156-157 | the banner range start+1..min(end, n) is within the rows and spans at most 30 |
| News.BannerMatchesPage | src/modules/news.py:149-157 | the banner counts exactly the rows shown |
| News.ButtonTargets | src/modules/news.py:166-186 | on a page within range, every button drawn leads to a different existing page, and a button is left out exactly when its move would stay put or leave the range |
| Helpers.DaysInMonth | src/utils/helpers.py:15 | a month has 28 to 31 days |
| Helpers.ParseYmd | src/utils/helpers.py:15 | a parsed "%Y-%m-%d" date has a year in 1..9999, a month in 1..12 and a day valid for that month |
| Helpers.FormatDateUnchangedIffInvalid | src/utils/helpers.py:58-64 | `format_date` returns its input unchanged exactly when `validate_date_format` rejects it |
| Helpers.UpperSuffixNeverMatches | src/utils/helpers.py:22 | an allowed extension with an upper-case letter never matches |
| Helpers.ValidateIgnoresCase | src/utils/helpers.py:22 | the check gives the same answer for a name and its lower-cased form |
| Helpers.RemoveIllegal | src/utils/helpers.py:35 | no `<>:"/\|?*` remains and every other character is kept |
| Helpers.RemoveIllegalAppend | src/utils/helpers.py:35 | the substitution works character by character: cleaning a concatenation concatenates the cleaned parts, so the legal characters keep their order and repetitions |
| Helpers.RemoveIllegalChar | src/utils/helpers.py:35 | a single character is kept exactly when it is not one of `<>:"/\|?*` |
| Helpers.RFind | src/utils/helpers.py:37 | the last position of the character, or -1 |
| Helpers.SplitExt | src/utils/helpers.py:37 | stem and extension concatenate back to the path, and the extension is empty or one dot with no further dot |
| Helpers.SanitizeFilenameAsWritten | src/utils/helpers.py:32-40 | every call fails, because `os` is not imported |
| Helpers.SanitizeAsWrittenFails | src/utils/helpers.py:37 | even a clean short name fails as written, while the intended function returns it unchanged |
| Helpers.SanitizeFilename | src/utils/helpers.py:32-40 | no illegal character; a cleaned name of at most 255 characters is returned unchanged; a cleaned name longer than 255 characters whose extension has at most 255 characters becomes the first 255 - len(ext) characters of its stem followed by its extension, 255 characters in all; with a longer extension it is `name[:255-len(ext)] + ext` with the negative stop, of length max(len(name) + 255, len(ext)) |
| Helpers.SplitExtAtLastDot | src/utils/helpers.py:37 | `splitext` splits "stem.tail" into "stem" and ".tail" |
| Helpers.LongExtensionKeptWhole | src/utils/helpers.py:38-39 | an extension longer than 255 characters (counting its dot) is kept whole and the stem is cut from its end, emptied once the extension is 255 characters longer than the stem, so the result exceeds 255 characters |
| Helpers.RemoveIllegalKeeps | src/utils/helpers.py:35 | a clean name is unchanged |
| Helpers.Chunks | src/utils/helpers.py:50 | the chunks concatenate to the text; each has 1..size characters and all but the last exactly size |
| Helpers.ChunkText | src/utils/helpers.py:48-50 | a zero size is an error (`range` step 0), a negative size gives no chunks, a positive one gives non-empty chunks of at most that size, all but the last of exactly that size, which concatenate to the text |
| Helpers.ExtractKeywords | src/utils/helpers.py:66-71 | the first `max_keywords` whitespace-separated tokens, each non-empty and space-free |
| Helpers.TokenOfWord | src/utils/helpers.py:70 | a token ends at the first whitespace |
| Helpers.WordsOfJoin | src/utils/helpers.py:70 | splitting space-joined words gives the words back |
| Helpers.TimeAgo | src/utils/helpers.py:73-89 | each unit is chosen by its threshold, and the count is the floor quotient in range for that unit |
| Helpers.TimeAgoBoundaries | src/utils/helpers.py:78-87 | 365 days is "12个月前", 366 days one year, 3600 seconds "60分钟前", 60 seconds "刚刚" |
| Config.ParseInt | src/config/config.py:55-56 | `int()` succeeds only on a non-blank string |
| Config.ParseNatString | src/config/config.py:55-56 | `int(str(n)) == n` |
| Config.ParseNegativeString | src/config/config.py:55-56 | `int("-" + str(n)) == -n` |
| Config.ParseIntRejects | src/config/config.py:55-56 | a string without a digit raises |
| Config.IntSettingReadsBack | src/config/config.py:55-56 | a variable holding the numeral of an integer reads back as that integer, and an unset variable gives the default |
| Config.DebugFlag | src/config/config.py:54 | debug iff DEBUG is set and lower-cases to "true" |
| Config.LoadConfig | src/config/config.py:35-59 | construction succeeds iff CACHE_TTL and MAX_UPLOAD_SIZE parse |
| Config.JoinDefaultExtensions | src/config/config.py:57-58 | the default string is the seven extensions joined by commas |
| Config.DefaultExtensionsSplit | src/config/config.py:57-58 | splitting the default string gives the seven extensions |
| Config.Defaults | src/config/config.py:46-58 | an empty environment gives model "qwen-max", TTL 3600, upload size 50·1024·1024, no API base, debug off and the seven extensions |
| Config.SplitJoin | src/config/config.py:58 | splitting a comma-join of comma-free parts gives the parts |
| Config.AllowedExtensionsSplit | src/config/config.py:57-58 | the allowed extensions are comma-free pieces that comma-join back to the configured string |
| Config.Validate | src/config/config.py:61-72 | success is always `True` |
| Config.ValidateOutcomes | src/config/config.py:64-72 | the OSS error iff an OSS credential is empty; the API-key error iff they are complete and the key is empty; `True` otherwise |
| Config.ValidateIgnoresRest | src/config/config.py:64-70 | region, API base, model and app settings never affect validation |
| Config.EmptyEnvironmentInvalid | src/config/config.py:37-66 | an empty environment loads but fails with the OSS error |
| Auth.RequireAdminAuth | src/utils/auth.py:8-19 | the function's result exactly when the password is "00277", `None` otherwise |
| Auth.RejectedIgnoresFunction | src/utils/auth.py:15-17 | on a wrong password the wrapped function is not consulted |
| Auth.SameGateAsUploadCenter | src/utils/auth.py:4-6 | the gate accepts exactly the passwords the upload centre's hard-coded check accepts |
| Auth.OnlyOnePassword | src/utils/auth.py:4-6 | only one password, of five characters, is accepted |
| Sorting.SortBySorted | src/modules/materials.py:118 | the stable sort's output is sorted under any strict weak order |
| Sorting.SortByMembers | src/modules/calendar.py:34 | sorting keeps exactly the same members |
| Sorting.StrLessOrder | src/modules/calendar.py:34 | Python's string comparison is a strict weak order |
| Common.JoinSplit | src/config/config.py:58 | joining the pieces of a split gives the string back |
| Common.DigitsValueOfNat | src/config/config.py:55 | reading back the digits of `str(n)` gives `n` |
| Common.FindContains | app.py:307 | `find` succeeds exactly when the substring occurs |

## Left out

- Rendering: Streamlit widgets, HTML and CSS, pyvis, charts and `st.rerun` are not modelled.
- `is_mobile`: it reads request headers from the Streamlit runtime.
- Collaborators are parameters with no behaviour of their own. This covers the chat API, `review_essay`, `optimize_essay`, `json.loads`, HanLP NER, the bucket's listing and whether a put raises, the CSV reader and the clock.
- OCR, PDF and DOCX text extraction and image resizing are not modelled; they are calls into foreign libraries.
- The news keyword search is not modelled. It builds a case-insensitive regular expression, and general regex semantics are out of scope.
- `hotness.mean()` and CSV export are not modelled; they are floating point and rendering.
- `generate_cache_key` (MD5), `format_file_size` (float division), `get_date_range` (wall clock) and `create_success_message` (UI and sleep) are not modelled. `create_success_message` also uses `time` without importing it.
- src/utils/logger.py, src/utils/error_handler.py, src/utils/ui.py, src/modules/admin.py, src/modules/chatbot.py and src/config/settings.py are not modelled, apart from `ADMIN_PASSWORD` and `ENDPOINT`. They hold logging, UI dispatch, prompts and constants.
- Two image previews are not modelled; both are rendering-side reads. app.py:1541 reads with a stale loop key, and src/modules/experience.py:92 reads by raw name instead of the key.
- Calendar.DatesParse: year options, filtering and month buckets are modelled only for events whose dates all parse. The source's `strptime` would raise on a bad date, and that exception path is not modelled.
- Helpers.ParseYmd: `strptime` is modelled for the "YYYY-MM-DD" shape with one- or two-digit month and day. Its other leniencies and non-ASCII digits are not modelled.
- Common.Lower: `str.lower()` is modelled on ASCII letters only. The data is Chinese text and ASCII.
- Common.IsDigit: `\d` and `int()` are modelled on ASCII digits only; other Unicode decimal digits are left out.
- Config.ParseInt: `int()` is modelled without its underscore separators.
- Config.LoadConfig: `Config` is modelled as a value built from the environment, not as a class. The constructor assigns each field once, and an `int()` failure becomes an error result instead of an exception.
- Sorting.SortBy: pandas' `sort_values` is not a stable sort by default, so the order of rows with equal dates may differ from the model's stable insertion sort. Python's `sorted` and `list.sort` are stable, as modelled.
- Essay.ExtractedScores: only the twelve labels' first matches are modelled. Scores are naturals, because the pattern reads `\d+`.
- KnowledgeGraph.KnowledgeGraphOf: the parsed graph is taken as the parse collaborator returns it. The unused `node_id_map` is not modelled.
- Chat.ChatSession.Submit: the reset of `uploaded_file` is not modelled; that state lives in the upload widget.
- News.Buttons: the four buttons write `session_state.current_page`, which the page's number input never reads. The model states which buttons appear and where they lead, not that the shown page stays where the number input has it.
- Oss.GetCachedOssObject: a read fails only for a key the bucket does not hold; reads that fail for other reasons (network, permissions) are not modelled.
- Caching: `st.cache_data` is not modelled, so each model function is a fresh computation. `get_cached_oss_object` (src/utils/oss.py:17) has no ttl and so keeps even the `None` of a failed read for the life of the process; `load_calendar_data` and `load_all_policy_data` keep their results for 3600 seconds. Within the cache's lifetime a repeated call returns the earlier result whatever the bucket now holds.
- Calendar.MonthImages: with no events the year selectbox returns `None` and the source searches image names for "None-MM"; the model's year is an integer and does not express that case.
- Default arguments are not modelled as such: callers pass every argument, including `chunk_size=1000` of `chunk_text` and `max_keywords=5` of `extract_keywords`.
- Helpers.Chunks: states the chunk lengths, but not the ceiling formula for the number of chunks.

## Findings

| source | as written | input that shows it | evidently intended | confidence | as-written member | corrected member |
|---|---|---|---|---|---|---|
| src/utils/helpers.py:37 | `sanitize_filename` calls `os.path.splitext`, but the module never imports `os` (lines 1-5), so every call raises `NameError` | `sanitize_filename("a.txt")` | strip the illegal characters and keep the name within 255 characters, preserving the extension | not executed | Helpers.SanitizeFilenameAsWritten | Helpers.SanitizeFilename |
