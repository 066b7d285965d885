# MSIT press-release scraper, modelled in Dafny

This project models the core of a scraper for the press releases of the
Korean Ministry of Science and ICT (msit.go.kr), and the tool that renames
its download folders afterwards. The scraper:

- reads the list pages one after the other;
- takes each row's id and date (the date comes from the page script when it
  gives one, else the date cell, else today);
- stops at the first release dated before the target year;
- skips ids it has already collected;
- fetches each new release's detail page: title, department, body,
  summary and attachments;
- downloads every attachment once into a folder named `<date>_<title>`;
- merges each page's records into a spreadsheet, keeping the last row for
  every id.

The migration tool reads every spreadsheet into a title → date table. It
then renames each `<date>_<title>` download folder. The new date part is
the table's date for the title; without one, it is the old date part with
every '.' replaced by '-', and any other character kept. When a folder with
the new name already exists, it merges into that folder.

The model has one file per part of the program:

- `text.dfy` (module `Text`): Python string operations the program uses.
  These are `str.strip`, the file-name character filter `[\\/*?:"<>|]`,
  `str.zfill`, `str.join`, `str.replace(x, "")` and `re.findall` over a
  matcher.
- `utils.dfy` (module `Utils`): `clean_text`, `parse_date` (with
  `strptime`'s token grammar and calendar check), `normalize_date` and
  `summarize_text`.
- `attachment.dfy` (module `Attachment`): how `download_attachment` names
  the file it saves, the release's folder name, and the loop that
  downloads each attachment once.
- `records.dfy` (module `Records`): the spreadsheet rows and the merge
  `save_data` performs.
- `listing.dfy` (module `Listing`): `_extract_dates_from_script` and
  `get_list_page`.
- `detail.dfy` (module `Detail`): `get_detail_page`.
- `scraper.dfy` (module `Scraper`): the `PressReleaseScraper` class, with
  its fields as class fields and `run` as a method. The run is proved equal
  to a pure fold, `RunFrom`, and the fold's properties are proved as lemmas.
- `migrate.dfy` (module `Migrate`): `migrate_folders`. It has the title
  table loop, the folder-name split, the match rule, the new name, and the
  rename/merge loop over an abstract directory listing.

The network, the HTML parser and the file system are inputs to the model:

- A fetched list page is a `ListHtml`: the text of its scripts and its row
  links.
- A detail page is a `DetailHtml`.
- An attachment response is a `Response`: its `Content-Disposition` header,
  its final URL and whether it was redirected.
- A site (`Scraper.Site`) gives the response to the k-th list page read
  from the start page, and the detail page and download responses of each
  id.
- The current date is a `today` parameter.
- The download directory is a `map` from names to files and folders.

Methods that loop in the source (`FindDept`, `ExtractDates`, `ListItems`,
`DownloadAll`, `LoadTitleTable`, `FindDate`, `MoveFiles`, `MigrateWith`
and the class's methods) are proved equal to a function. The properties
the program promises are proved about those functions.

The source is followed where its documentation differs:

- The command-line help says test mode collects one page. The code stops a
  test run once it has collected 5 records, and the model follows the code
  (`Scraper.TestLimit`).
- The folder title part can be empty (a folder named `2024.01.02_`). It
  matches every table key, so such a folder takes the date of the first
  title in the table. `Migrate.MatchesSpec` states this.

## Model

| member | source | states |
|---|---|---|
| Utils.CleanText | utils.py:4-8 | the empty text gives ""; the result has no edge whitespace and no whitespace other than single spaces |
| Utils.CleanTextIdempotent | utils.py:4-8 | cleaning cleaned text changes nothing |
| Utils.CleanTextKeepsVisible | utils.py:4-8 | cleaning keeps every non-whitespace character, in order |
| Utils.CleanTextFields | utils.py:4-8 | the words of the result (str.split()) are the words of the text, so each whitespace run between words becomes one space |
| Utils.ParseLayoutSpec | utils.py:20-26 | strptime with one layout succeeds with a date exactly when the text is 4-digit year, separator, month token, separator, day token, and that is a real calendar date |
| Utils.ParseDateSpec | utils.py:10-28 | parse_date gives a date exactly when the text is non-empty and its stripped form fits the dotted or the dashed layout as a real date |
| Utils.ParseIsoRoundTrip | utils.py:10-28 | parsing the YYYY-MM-DD spelling of any valid date gives that date back |
| Utils.TrimRightDots | utils.py:46 | rstrip('.') keeps a prefix, removes only dots, and leaves no trailing dot |
| Utils.NormalizeIsoFixed | utils.py:46-50 | text already in YYYY-MM-DD shape is returned unchanged |
| Utils.NormalizeIdempotentOnIso | utils.py:43-75 | normalising a YYYY-MM-DD text twice is normalising it once |
| Utils.CommaBranch | utils.py:43-63 | any non-empty text that, stripped and without trailing dots, is not ISO-shaped, holds a comma and has three fields once commas are dropped becomes the third field, the first field's month number ("01" when unknown) and the second zero-padded, joined by '-' |
| Utils.NormalizeEnglish | utils.py:52-63 | "Mon D, YYYY" for every valid date normalises to its YYYY-MM-DD spelling |
| Utils.MonthNames | utils.py:54-60 | the month table maps each month's abbreviation to its two-digit number |
| Utils.DotBranch | utils.py:43-72 | any non-empty text that, cleaned the same way, took neither earlier branch, holds a dot and has at least three digit runs becomes the first run, then the second and third zero-padded to 2, joined by '-'; later runs are ignored |
| Utils.NormalizeFallback | utils.py:43-75 | a non-empty text no branch applies to comes back stripped and without trailing dots |
| Utils.NormalizeDotted | utils.py:65-72 | "YYYY.MM.DD" for every valid date normalises to its YYYY-MM-DD spelling |
| Utils.NormalizeSpacedDots | utils.py:65-72 | "YYYY. M. D" for every valid date normalises to its YYYY-MM-DD spelling |
| Utils.Sentences | utils.py:83 | the split always has at least one piece |
| Utils.SentencesLossless | utils.py:83 | there is one separator fewer than pieces, and interleaving pieces and separators gives back the text |
| Utils.SeparatorsWhitespace | utils.py:83 | every separator is a non-empty whitespace run |
| Utils.SentencesTerminal | utils.py:83 | every piece but the last ends with '.', '?' or '!' |
| Utils.SentencesNoSplit | utils.py:83 | no piece holds a split point: a whitespace character right after '.', '?' or '!' |
| Utils.SentencesHead | utils.py:83 | the first piece is a prefix of the text |
| Utils.SentencesMaximalRuns | utils.py:83 | each separator is a whole whitespace run: every piece after the first is empty or starts with a non-whitespace character |
| Utils.LongSentences | utils.py:87 | the kept pieces are exactly the pieces longer than 20 characters once stripped |
| Utils.LongSentencesOne | utils.py:87 | a single piece is kept exactly when it is longer than 20 characters once stripped |
| Utils.LongSentencesAppend | utils.py:87 | the filter keeps order: filtering a + b is filtering a, then filtering b |
| Utils.SummarizeFallback | utils.py:89-91 | without a long sentence the summary is the text when it has at most 200 characters, else its first 200 characters and "..." |
| Utils.SummarizeSelected | utils.py:87-94 | with long sentences the summary is the first n of them, or all when fewer, joined by spaces, and begins with the first |
| Utils.SummarizeEmpty | utils.py:77-94 | with n ≥ 1 the summary is empty exactly when the text is |
| Text.Strip | utils.py:8 | the result has no leading or trailing whitespace and is no longer than the text |
| Text.StripIdempotent | utils.py:8 | stripping twice is stripping once |
| Text.Sanitize | scraper.py:101 | the result holds none of the characters \ / * ? : " < > \| |
| Text.SanitizeAppend | scraper.py:101 | filtering a concatenation filters each part |
| Text.CleanNameIdempotent | migrate_folders.py:79 | filtering and stripping a title that is already filtered and stripped changes nothing |
| Text.Zfill | utils.py:61 | the result is as wide as the width or the text; text at least as wide is kept, and shorter unsigned text gets zeros in front |
| Attachment.ExtParamSpec | scraper.py:84-86 | the RFC 5987 value is found exactly when the pattern matches somewhere, and it is the leftmost match |
| Attachment.QuotedParamSpec | scraper.py:88-91 | the quoted value is found exactly when the pattern matches somewhere, and it is the leftmost match |
| Attachment.Basename | scraper.py:98 | the result holds no '/' and ends the path |
| Attachment.FilenamePriority | scraper.py:80-98 | the RFC 5987 value wins over the quoted one; a non-empty header name is used, else the decoded base name of the final URL when redirected or of the requested URL |
| Attachment.SplitExt | scraper.py:104 | stem and extension concatenate to the name; the extension is empty or a dot and no further dot |
| Attachment.SplitExtJoin | scraper.py:104-107 | splitting a stem and extension put together gives them back |
| Attachment.CleanFilename | scraper.py:100-107 | the saved name holds no forbidden character |
| Attachment.CleanFilenameSpec | scraper.py:100-107 | the saved name is the filtered name's stem, unchanged when at most 80 characters long and else its first 80 characters, followed by the filtered name's extension |
| Attachment.FolderTitle | scraper.py:243-244 | the folder title has no forbidden character, no edge whitespace and at most 30 characters |
| Attachment.FolderName | scraper.py:244 | the folder name is the date, '_', then the folder title |
| Attachment.DownloadsOnce | scraper.py:241-255 | as many names as paths as URLs done; every name non-empty; every URL done is one of the references and was downloaded with success; every reference whose download succeeds at its step has its URL done |
| Attachment.DownloadsComplete | scraper.py:246-255 | no successful download is lost: the URL of every reference whose download succeeds at its step ends up done |
| Attachment.DownloadAll | scraper.py:246-255 | the loop computes the download fold |
| Attachment.DownloadLoop | scraper.py:246-255 | the loop, run against any downloader that answers as download_attachment does, computes the download fold over that downloader |
| Records.KeepLastIds | scraper.py:284 | dropping duplicates keeps every id |
| Records.KeepLastUnique | scraper.py:284 | after dropping duplicates no id occurs twice |
| Records.KeepLastLast | scraper.py:284 | every row kept is the last row of its id |
| Records.KeepLastAppend | scraper.py:284 | deduplicating old + new is the old rows whose id the new rows lack, then the deduplicated new rows |
| Records.WithoutSpec | scraper.py:284 | the filter keeps exactly the rows whose id is not excluded |
| Records.MergeSpec | scraper.py:280-284 | the merged sheet has unique ids, all old and new ids, the last new row for a new id and the last old row for any other |
| Listing.ScriptMatchesSound | scraper.py:146-147 | each match is the leftmost match at or after the end of the one before (the start for the first), and none is left after the last |
| Listing.TargetScript | scraper.py:138-141 | a script is chosen exactly when one holds both markers, and it is the first that does |
| Listing.TargetFirst | scraper.py:138-141 | no script before the chosen one holds both markers |
| Listing.DateMapKeys | scraper.py:149-151 | the date map has a key exactly for each captured row index |
| Listing.DateMapLast | scraper.py:149-151 | each key holds the normalised date of the last match with that index |
| Listing.ExtractDates | scraper.py:128-153 | the loop computes the script's date map |
| Listing.DetailIdLeftmost | scraper.py:176 | an id is found exactly when the pattern matches somewhere in the onclick text, and it is that of the leftmost match |
| Listing.ItemDate | scraper.py:185-197 | the date is never empty when today is not |
| Listing.ListItems | scraper.py:171-199 | the loop computes the items fold |
| Listing.DedupSpec | scraper.py:181-183 | the dedup holds exactly the ids given, none twice |
| Listing.ItemsIds | scraper.py:174-199 | the item ids are the links' ids, each taken once in first-occurrence order |
| Listing.ItemsDistinct | scraper.py:181-183 | no id occurs twice among the items |
| Listing.ItemsDates | scraper.py:185-199 | each item carries the date of the first row that gave its id |
| Listing.NewItemFirst | scraper.py:174-199 | a row adds an item exactly when it has an id that no earlier row gave |
| Listing.ItemsDatesNonEmpty | scraper.py:196-197 | with a non-empty today every item date is non-empty |
| Listing.PresentIdsMembers | scraper.py:174-183 | the id of every row whose onclick gives one is among the ids collected |
| Listing.GetListPage | scraper.py:155-205 | the method computes the page's items, none for a failed request |
| Listing.ListPageWellFormed | scraper.py:155-205 | a page's ids are distinct and its dates non-empty |
| Detail.FindDept | scraper.py:220-226 | the loop computes the department |
| Detail.DeptOfSpec | scraper.py:220-226 | the department is the cleaned description of the first term naming it, "" without a description or such a term |
| Detail.DownloadRefAt | scraper.py:240 | a match ends inside the text and has non-empty digit attachment number and file order |
| Detail.DownloadRefsSound | scraper.py:240 | each reference is the leftmost match at or after the end of the one before (the start for the first), and none is left after the last |
| Detail.GetDetail | scraper.py:207-271 | the method computes the release's record, None for a failed request |
| Detail.DetailDownloadsOnce | scraper.py:236-255 | a release's attachments are one per distinct download URL of its page, names and paths paired, no name empty; every URL done succeeded, and every reference whose download succeeds has its URL done |
| Scraper.ItemStepGrows | scraper.py:334-362 | one item adds at most its own record and request, never a seen id outside test mode, and never touches the sheet; a request whose detail gives a record appends that record and marks the id seen |
| Scraper.ItemsFromGrows | scraper.py:334-364 | the item loop only appends to the ids seen, the batch and the requests, counts what it adds, and keeps the sheet |
| Scraper.ItemsFromAdds | scraper.py:350-355 | each record the item loop adds is the detail of one of the page's items |
| Scraper.ItemsFromCollects | scraper.py:342-355 | every request the item loop makes is for one of the page's items, and when its detail gives a record that record is in the batch |
| Scraper.ItemsFromSeen | scraper.py:350-355 | the ids seen afterwards are those before plus the ids of the records added |
| Scraper.ItemsNoRefetch | scraper.py:343-344 | outside test mode the item loop requests no id seen before it |
| Scraper.ItemsTestLimit | scraper.py:359-362 | a test run's item loop collects at most 5 records and stops at 5 |
| Scraper.ItemsCutoff | scraper.py:335-340 | an item before the target year stops the loop, and only ids before the first such item are requested |
| Scraper.MergeIds | scraper.py:280-284 | the ids of the merged sheet are the stored ids and the batch's |
| Scraper.AfterPageGrows | scraper.py:334-368 | a page only appends to the ids seen and the requests, and requests no id seen before outside test mode |
| Scraper.AfterPageSynced | scraper.py:366-368 | after a page's save nothing is pending and the ids seen are the sheet's ids |
| Scraper.RunNoRefetch | scraper.py:324-378 | outside test mode a run never requests an id seen when it started, in particular none in the sheet |
| Scraper.RunSynced | scraper.py:324-378 | a run that starts in step with the sheet ends in step with it |
| Scraper.RunTestLimit | scraper.py:324-378 | a test run collects at most 5 records |
| Scraper.RunStopsAtCutoff | scraper.py:336-378 | a page holding an item before the target year is the last page read |
| Scraper.Fetcher | scraper.py:350 | the detail function answers with get_detail_page's record, which carries the requested id |
| Scraper.PressReleaseScraper.constructor | scraper.py:39-54 | a new scraper holds no batch and counts the sheet's ids as seen, in step with the sheet |
| Scraper.PressReleaseScraper.SaveData | scraper.py:273-307 | a non-empty batch is merged into the sheet and emptied; an empty one changes nothing |
| Scraper.PressReleaseScraper.GetListPage | scraper.py:155-205 | the items of the page read, none past the last page |
| Scraper.PressReleaseScraper.GetDetailPage | scraper.py:207-271 | the record of the release |
| Scraper.PressReleaseScraper.FetchItem | scraper.py:342-362 | the seen check, the request and the recording of one item, as the fold's step |
| Scraper.PressReleaseScraper.CollectPage | scraper.py:334-364 | the item loop leaves the state of the item fold |
| Scraper.PressReleaseScraper.Run | scraper.py:309-381 | the page loop leaves the ids seen, batch, sheet and requests of the run fold |
| Migrate.TitleKey | migrate_folders.py:30-40 | a key is already filtered and stripped |
| Migrate.KeyIndex | migrate_folders.py:41 | the position of a key is found exactly when the key is in the table |
| Migrate.PutSpec | migrate_folders.py:41 | assigning keeps keys unique and in place, appends a new key, sets its value and keeps all others |
| Migrate.PutAllKeys | migrate_folders.py:22-46 | after all assignments keys are unique, old keys keep their places, and every key is old or assigned |
| Migrate.PutAllLast | migrate_folders.py:22-46 | each assigned key holds its last assignment; other keys keep their values |
| Migrate.RowsRead | migrate_folders.py:29-45 | the rows a sheet contributes are its rows before the first NaT date cell, where strftime raises and the except clause ends the sheet |
| Migrate.EntriesDated | migrate_folders.py:37-41 | only rows with a non-empty date text give an entry |
| Migrate.LoadTitleTable | migrate_folders.py:18-48 | the nested loop over the sheets and rows builds the title table |
| Migrate.TitleTableSpec | migrate_folders.py:18-48 | the table has unique keys, each from some row with a non-empty date, holding the date of its last row |
| Migrate.SplitFolderName | migrate_folders.py:61-66 | no split exactly when the name has no '_'; else the date part is the text before the first '_' and the title part the rest stripped |
| Migrate.MatchesSpec | migrate_folders.py:79-89 | a key matches when its 30-character cut is the title part or one is a prefix of the other; the empty title part matches every key |
| Migrate.FindDate | migrate_folders.py:76-91 | the search loop finds the first match |
| Migrate.FirstMatchSpec | migrate_folders.py:76-91 | nothing is found exactly when no key matches, else the date of the first key that matches |
| Migrate.ReplaceChar | migrate_folders.py:97 | replace keeps the length and changes exactly the given character |
| Migrate.ReplaceDotsStable | migrate_folders.py:97 | replacing '.' by '-' adds no '_' and is idempotent |
| Migrate.NewDatePartStable | migrate_folders.py:93-97 | the new date part of a renamed folder is stable under a second pass |
| Migrate.NewNameIdempotent | migrate_folders.py:61-99 | when the table's dates hold no '_', renaming a renamed folder gives the same name |
| Migrate.FolderNameSplits | migrate_folders.py:61-66 | the folder name the scraper builds splits back into its date and folder title |
| Migrate.FolderTitleMatches | migrate_folders.py:76-91 | the folder title the scraper builds for a title matches that title's table key |
| Migrate.ComputeNewName | migrate_folders.py:61-99 | the split, search and date fix compute the new name |
| Migrate.MoveFiles | migrate_folders.py:107-115 | moving empties the source; the target holds the union, the source's files winning |
| Migrate.MoveFolder | migrate_folders.py:101-130 | the merge or rename of one folder is one pass of the migration |
| Migrate.MigrateWith | migrate_folders.py:53-134 | the folder loop computes the migration fold and its count |
| Migrate.MigrateFolders | migrate_folders.py:12-134 | the whole migration is the fold with the loaded table's renaming |
| Migrate.VisitSpec | migrate_folders.py:101-130 | a pass counts exactly when the folder's name is gone, changes nothing else and nothing when it does not count; a missing or unchanged new name is never acted on; a plain rename moves the folder to the new name; a merge leaves the union, the folder's files winning; a file in the way fails unless the folder is empty, and is kept |
| Migrate.MigrateAllSpec | migrate_folders.py:53-134 | the count is at most the number of names, and every entry afterwards was there before or is a new name |

## Left out

- HTTP sessions, retries, headers and timeouts are not modelled. Every response is an input (`Scraper.Site`, `Detail.Files`, `Attachment.Env`), and a failed request is `None`.
- HTML parsing with BeautifulSoup is not modelled. The selected elements arrive already parsed, as `Listing.ListHtml` and `Detail.DetailHtml`.
- pandas reading and writing is not modelled. The sheet is an `Option<seq<Record>>`, and migration reads sheets as `Migrate.Sheet` rows.
- The backup, partial and new-file fallbacks of `save_data` (scraper.py:285-303) are not modelled. The merged rows are what the model stores.
- Writing attachment bytes, `os.makedirs` and the skip of an existing file (scraper.py:109-122) are not modelled. The name and path are what is returned either way.
- Logging, `tqdm`, `time.sleep`, `print`, `setup_logging` and `main`'s argument parsing are not modelled.
- The `new_page_items` counter is not modelled; it only feeds a log line.
- `urllib.parse.unquote` is a function parameter. Percent-decoding is not modelled.
- `os.path.basename`, `splitext` and `join` are modelled with '/' as the only separator.
- `\d` in the patterns matches ASCII digits only. Other Unicode digits are not modelled.
- Ids are strings throughout. pandas may read ids back as numbers; that is not modelled.
- `datetime.now()` is the `today` parameter.
- The model's site serves finitely many list pages (`Scraper.Site.lists`), past which every page is a failed request, so `Scraper.PressReleaseScraper.Run` always ends. The source's page loop (scraper.py:324-378) has no page bound: on a site that keeps serving non-empty pages with no item before the target year, outside test mode, it never ends.
- Pages are counted from the start page. `start_page` is folded into the site's list of responses.
- Migration does not model the early return when the download folder is missing.
- Migration treats a missing data folder as a folder with no sheets.
- Migration does not model folders nested inside download folders; each holds a map of files.
- Migration models only one file-system failure: a merge target that is a file. That fails and keeps the source unless the source is empty. Other rename and move failures are not modelled.
- Migration treats names containing '/' as plain names.
- `str()` of a title cell is taken as given. A date cell is a datetime, NaT or its `str()`. Only NaT's `strftime` failure is modelled inside a sheet; any other exception while reading a sheet drops the whole sheet.
- The `os.listdir` order of sheets and folders is an input.
- `config.py` and `lock_file.py` are not part of this model.
