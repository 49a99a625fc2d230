# SF open-data ingestion: a Dafny model

The repository collects San Francisco open datasets for a question-answering app. A Python
scraper and a few TypeScript scripts do the work. This project models the string handling and
control flow of those pieces:

- **Textract OCR client** (`TextractClient`). It assembles the OCR text of one image from the
  response blocks, joins the pages of a PDF, picks the PDF or image route by file extension,
  and checks credentials in its constructor.
- **File-type helpers** (`get_content_objects`, `download_file`, `download_file_to_local`).
  They accept or reject a file by its extension and build the image content object.
- **Supabase storage paths** (`upload_csv_to_bucket`, `download_csv_to_local`). They normalise
  the title, build the storage path and wrap errors.
- **`download-urls.ts`**. It derives each dataset's id and CSV export URL, and the URL list
  file.
- **The scraper's link filter**. It keeps the links that end in a dot and then xlsx or csv, ignoring case.
- **`backfill-missing-csv.ts`**. It selects the datasets whose CSV is not in the bucket, prints
  and counts them, then downloads and uploads each one in turn.

Everything outside these pieces becomes an input to the model:

- the OCR service and base64 decoding;
- the PDF-to-PNG conversion;
- HTTP downloads;
- Supabase storage calls;
- `uuid4()`;
- the JSON files that are read.

Each input is a function parameter, a `Result` value, a listing value, or an attempt outcome
per dataset.

Modules:

- `Results`: `Option`, `Result`, and the Python exception kinds. Also `Collect`, which runs a
  sequence of fallible steps and stops at the first failure.
- `Text`: the Python and JavaScript string builtins the code relies on.
  - `str.strip()` over the full `str.isspace` set;
  - ASCII `lower()`;
  - `replace` of a single character;
  - `split` on one character, and the last piece of a split;
  - `join`.
- `Seqs`: order-preserving filtering, for both list comprehensions and `Array.filter`.
- `Textract`, `FileTypes`, `StoragePaths`, `DownloadUrls`, `Scrape`, `Backfill`: one module per
  source file.

## Model

| member | source | states |
|---|---|---|
| Results.Collect | python_scraper/scraper/utils/textract.py:88-90 | Succeeds iff every step succeeds; then it holds every value, in order. |
| Results.CollectFirstFailure | python_scraper/scraper/utils/textract.py:88-90 | The error reported is the error of the first failing step. |
| Results.CollectSnoc | python_scraper/scraper/utils/textract.py:86-90 | Appending a successful step appends its value: the `extracted_text.append` loop step. |
| Results.CollectPrefixStep | python_scraper/scraper/utils/textract.py:88-90 | One more page of a loop that has succeeded so far: a failure ends the whole result with its error, and a success appends its value. |
| Text.IsSpace | python_scraper/scraper/utils/textract.py:77 | The characters `str.strip()` removes: exactly those for which Python's `str.isspace()` holds (ASCII space, tab to carriage return, the four information separators U+001C to U+001F, U+0085 (next line), and the Unicode space and line/paragraph separators). |
| Text.Lower | python_scraper/scraper/utils/utils.py:33 | Same length; each character is lowered, as `str.lower()` does for ASCII. |
| Text.ReplaceChar | python_scraper/scraper/utils/supabase_client.py:63 | Same length; exactly the occurrences of the old character become the new one. |
| Text.LeadingSpace | python_scraper/scraper/utils/textract.py:77 | The whitespace prefix removed by `strip()` is maximal: all whitespace, followed by a non-space or the end. |
| Text.SpaceRunFrom | python_scraper/scraper/utils/textract.py:77 | The whitespace run starting at a position is maximal. |
| Text.SpaceRunStart | python_scraper/scraper/utils/textract.py:77 | The whitespace run ending at a position, bounded below, is maximal. |
| Text.Strip | python_scraper/scraper/utils/textract.py:77 | The result is the slice between the maximal whitespace prefix and suffix: it neither starts nor ends with whitespace, and it is the input itself when the input has no whitespace at either end. |
| Text.StripOfSpaceIsEmpty | python_scraper/scraper/utils/textract.py:77 | Stripping text that is all whitespace gives "". |
| Text.StripIdempotent | python_scraper/scraper/utils/textract.py:77 | Stripping twice is stripping once. |
| Text.Split | scripts/download-urls.ts:9 | At least one piece; no piece contains the separator. |
| Text.LastSegment | python_scraper/scraper/utils/utils.py:33 | The text after the last separator: a suffix without the separator, preceded by the separator unless it is the whole string. |
| Text.Join | python_scraper/scraper/utils/textract.py:92 | Python's `sep.join(parts)` and JavaScript's `parts.join(sep)` (also used for the URL list at scripts/download-urls.ts line 27): the pieces with the separator between consecutive ones, "" for no piece and the piece itself for one. |
| Text.JoinSplit | scripts/download-urls.ts:9 | Joining the pieces of a split with the separator gives back the input. |
| Text.SplitJoin | scripts/download-urls.ts:27-28 | Splitting a join of one or more pieces that lack the separator gives back the pieces. |
| Text.SplitNoSeparator | scripts/download-urls.ts:9 | A string without the separator splits into itself alone. |
| Text.SplitPrefix | scripts/download-urls.ts:9 | A separator-free head followed by the separator is the first piece. |
| Text.JoinLast | python_scraper/scraper/utils/textract.py:92 | Joining n ≥ 2 pieces is the join of the first n-1, then the separator, then the last piece. |
| Text.LastSegmentAt | python_scraper/scraper/utils/utils.py:33 | A suffix without the separator that starts the string or follows the separator is the last segment. |
| Text.LastOfSplit | scripts/download-urls.ts:9 | `split(c).pop()` is the text after the last `c`. |
| Seqs.Filter | python_scraper/scraper/scrape.py:32-34 | The kept elements are exactly the input elements that satisfy the predicate. |
| Seqs.FilterMultiplicity | python_scraper/scraper/scrape.py:32-34 | Each kept element is kept as many times as it occurs. |
| Seqs.FilterIsSubsequence | scripts/backfill-missing-csv.ts:79-81 | The result is a subsequence of the input, in the same order. |
| Seqs.FilterAppend | python_scraper/scraper/scrape.py:32-34 | Filtering distributes over concatenation. |
| Seqs.FilterCons | python_scraper/scraper/scrape.py:32-34 | The first element is kept in front exactly when it satisfies the predicate. |
| Textract.NewTextractClient | python_scraper/scraper/utils/textract.py:15-33 | Fails iff the key id, secret key or region is None, or building the `boto3` client raises. A None credential raises the ValueError message before any client is built; otherwise the client's own error is raised unchanged. `encrypt_key` is never looked at. On success the client is built from exactly the three values. |
| Textract.Contribution | python_scraper/scraper/utils/textract.py:73-76 | What one block appends to the running text: a WORD block its text and a space, a LINE block "\n", any other block nothing. |
| Textract.Assemble | python_scraper/scraper/utils/textract.py:71-76 | The running text after the loop over the blocks, before the final strip: the blocks' contributions concatenated in block order. |
| Textract.AssembleAppend | python_scraper/scraper/utils/textract.py:72-76 | The text of two block lists is the text of each, one after the other. |
| Textract.AssembleCons | python_scraper/scraper/utils/textract.py:72-76 | The first block's contribution comes first. |
| Textract.AssemblePrefixStep | python_scraper/scraper/utils/textract.py:72-76 | One more loop iteration appends exactly the block's contribution. |
| Textract.ProcessDetectedTextResponse | python_scraper/scraper/utils/textract.py:69-77 | The loop result is the stripped concatenation of every block's contribution, in block order. |
| Textract.WordInPlace | python_scraper/scraper/utils/textract.py:73-74 | A WORD block puts its text and exactly one space at its own position. |
| Textract.LineInPlace | python_scraper/scraper/utils/textract.py:75-76 | A LINE block puts a single "\n" at its own position; its own text is not used. |
| Textract.OtherBlocksIgnored | python_scraper/scraper/utils/textract.py:72-76 | Removing every block that is neither WORD nor LINE leaves the text unchanged. |
| Textract.LineTextIgnored | python_scraper/scraper/utils/textract.py:75-76 | Two block lists that agree on types and on WORD texts give the same text, whatever their LINE texts. |
| Textract.AssembleLength | python_scraper/scraper/utils/textract.py:71-76 | The unstripped text has exactly (the WORD text lengths + 1 each) + (the number of LINE blocks) characters. |
| Textract.TextLengthBound | python_scraper/scraper/utils/textract.py:71-77 | The result is at most that long. |
| Textract.NoWordsOnlyNewlines | python_scraper/scraper/utils/textract.py:72-76 | Without WORD blocks the running text is all whitespace. |
| Textract.NoWordsGivesEmpty | python_scraper/scraper/utils/textract.py:70-77 | A response without WORD blocks gives "". |
| Textract.ImageText | python_scraper/scraper/utils/textract.py:59-67 | The text of one image: the OCR outcome, then the stripped block assembly; an OCR failure is re-raised unchanged. |
| Textract.ExtractTextFromBase64 | python_scraper/scraper/utils/textract.py:59-67 | OCR of one image, then block assembly; an OCR failure is re-raised unchanged. |
| Textract.PageResults | python_scraper/scraper/utils/textract.py:88-90 | One OCR outcome per page, each the single-image extraction of that page, in page order. |
| Textract.PdfText | python_scraper/scraper/utils/textract.py:82-92 | The text of a PDF: a conversion failure or the first failing page is re-raised; otherwise the page texts joined by "\n" and stripped. |
| Textract.ExtractTextFromPdfBase64 | python_scraper/scraper/utils/textract.py:82-92 | The loop returns the page texts joined by "\n" and stripped. The first failing page, or the failure of the PDF conversion, is re-raised. |
| Textract.JoinTrimmed | python_scraper/scraper/utils/textract.py:92 | A "\n"-join of non-empty stripped pieces neither starts nor ends with whitespace, and is non-empty when there is a piece. |
| Textract.PdfTextOfNonEmptyPages | python_scraper/scraper/utils/textract.py:86-92 | When every page yields non-empty text, the PDF text is exactly the page texts joined by "\n", in page order. |
| Textract.FirstFailingPage | python_scraper/scraper/utils/textract.py:88-90 | The error of the PDF is the error of its first failing page. |
| Textract.RFind | python_scraper/scraper/utils/textract.py:44 | The index of the last occurrence, or -1 when there is none. |
| Textract.SplitExt | python_scraper/scraper/utils/textract.py:44 | `os.path.splitext(filename)[1]` on POSIX: empty, or a suffix of the path that starts with its only dot and holds no '/'; a base name that is nothing but dots before its last dot has no extension. |
| Textract.Transcribe | python_scraper/scraper/utils/textract.py:42-57 | Takes the PDF route exactly when the lowercased `splitext` extension is ".pdf"; otherwise it takes the single-image route. |
| Textract.RFindIsBeforeLastSegment | python_scraper/scraper/utils/textract.py:44 | The last occurrence sits right before the last segment. |
| Textract.RFindInSuffix | python_scraper/scraper/utils/textract.py:44 | Searching a suffix finds the same last occurrence, shifted. |
| Textract.ExtOfBaseName | python_scraper/scraper/utils/textract.py:44 | The extension depends only on the last path component. |
| Textract.ExtOfBaseNameWithDot | python_scraper/scraper/utils/textract.py:44 | When the dot lies in the base name, the extension of the path is that of the base name. |
| Textract.StemShift | python_scraper/scraper/utils/textract.py:44 | Whether the stem holds a non-dot character is the same measured in the path or in the base name. |
| Textract.PdfRouteHasPdfName | python_scraper/scraper/utils/textract.py:44-50 | A base name that takes the PDF route ends in ".pdf" in some letter case, with a non-dot before it. |
| Textract.PdfNameTakesPdfRoute | python_scraper/scraper/utils/textract.py:44-50 | Conversely, such a base name takes the PDF route. |
| Textract.PdfRouteByName | python_scraper/scraper/utils/textract.py:44-52 | PDF route iff the base name ends in ".pdf" in some letter case and is not just dots before it. So ".pdf" alone or "dir.pdf/x" go the image route. |
| FileTypes.GetContentObjects | python_scraper/scraper/utils/utils.py:9-26 | Accepts exactly "jpg", "jpeg" and "png", case-sensitively. On success there is one image_url object with detail "high", and its data URL reads back as the extension and the content. Any other extension raises the ValueError naming it. |
| FileTypes.FirstIndex | python_scraper/scraper/utils/utils.py:17 | The first occurrence, or the end. |
| FileTypes.FirstIndexAfter | python_scraper/scraper/utils/utils.py:17 | A prefix without the character puts its first occurrence right after the prefix. |
| FileTypes.DataUrlRoundTrip | python_scraper/scraper/utils/utils.py:17 | `data:image/<ext>;base64,<content>` reads back as the extension and the content. |
| FileTypes.UrlExtension | python_scraper/scraper/utils/utils.py:33 | `url.split(".")[-1]` is the text after the last dot. |
| FileTypes.DownloadFile | python_scraper/scraper/utils/utils.py:29-37 | A request or status failure is re-raised. Otherwise a lowercased last dot-segment other than "csv" or "xlsx" raises the ValueError naming it, and the streamed body is never read. An accepted URL then reads the body: a failed read is re-raised, and a successful one returns the content and the segment in its original case. |
| FileTypes.DownloadFileToLocal | python_scraper/scraper/utils/utils.py:40-53 | The same check and late body read, returning the lowercased extension. On success the body is written to the save path. A request failure or a rejected URL leaves the file system unchanged; a failed body read leaves an empty file at the save path, which `open(save_path, "wb")` created or emptied first. |
| FileTypes.DownloadFileToLocalTouchesOnlySavePath | python_scraper/scraper/utils/utils.py:48-50 | No path other than the save path is created or changed. |
| FileTypes.DownloadHelpersAgree | python_scraper/scraper/utils/utils.py:29-53 | The two helpers accept the same URLs and differ only in the extension's letter case. |
| FileTypes.AcceptedUrlEnding | python_scraper/scraper/utils/utils.py:33-35 | An accepted URL ends in csv or xlsx in some letter case, right after a dot unless it has no dot. |
| FileTypes.QueryStringRejected | python_scraper/scraper/utils/utils.py:33-35 | A URL whose text after the last dot holds a '?' (a query string after the extension, as in "rows.csv?x=1") is rejected with the ValueError naming that lowercased text. |
| FileTypes.DataExtensionShape | python_scraper/scraper/utils/utils.py:34 | An accepted extension is "csv" or "xlsx" in some letter case, of length 3 or 4. |
| FileTypes.DataExtensionLetters | python_scraper/scraper/utils/utils.py:34 | An accepted extension is letters only, so it never holds a '?'. |
| StoragePaths.NormalizeTitle | python_scraper/scraper/utils/supabase_client.py:62-64 | The title lowered, then every space, '/' and '.' replaced by '_', in that order. |
| StoragePaths.NormalizeTitleChars | python_scraper/scraper/utils/supabase_client.py:62-64 | Each character is lowered, or becomes '_' where it was ' ', '/' or '.'. The result holds none of those three. |
| StoragePaths.NormalizeTitleIdempotent | python_scraper/scraper/utils/supabase_client.py:62-64 | Normalising twice is normalising once. |
| StoragePaths.StoragePath | python_scraper/scraper/utils/supabase_client.py:65-67 | `<folder>/<normalised title>_<uuid>.<ext>`, the same f-string the download builds at lines 92-97. |
| StoragePaths.StoragePathParts | python_scraper/scraper/utils/supabase_client.py:65-67 | The last path component is `<normalised title>_<uuid>.<ext>`, and the text after the last dot is the extension. |
| StoragePaths.StoragePathSeparatesUuids | python_scraper/scraper/utils/supabase_client.py:65-67 | For one folder, title and extension, two uuids give the same path iff they are equal. |
| StoragePaths.UploadCsvToBucket | python_scraper/scraper/utils/supabase_client.py:51-75 | Returns the built path iff the upload reports no error; otherwise raises "Failed to upload CSV to bucket <bucket>: <error>". |
| StoragePaths.DownloadCsvSteps | python_scraper/scraper/utils/supabase_client.py:84-103 | The body of the `try`: a request or status failure, the "File must be a .csv or .xlsx file" ValueError, a write failure, or the built path with the lowercased extension, in that order. |
| StoragePaths.DownloadCsvToLocal | python_scraper/scraper/utils/supabase_client.py:77-105 | Succeeds iff the request succeeds, the lowercased last dot-segment is csv or xlsx, and the write succeeds; the path uses the lowercased extension. Every failure is an Exception prefixed "Failed to download CSV to local: ", followed by the request error's text, the extension message or the write error's text. |
| StoragePaths.UploadAndDownloadPathsAgree | python_scraper/scraper/utils/supabase_client.py:62-67 | The upload and download builders produce the same path for the same folder, title, uuid and extension. |
| DownloadUrls.DatasetId | scripts/download-urls.ts:9 | The id is the text after the URL's last '/'. The empty-string fallback never changes the result: `pop()` on a split always yields a string, and when it yields "" the fallback gives "" too. |
| DownloadUrls.ExportUrl | scripts/download-urls.ts:14 | `https://data.sfgov.org/api/views/<id>/rows.csv`. |
| DownloadUrls.AddDownloadUrl | scripts/download-urls.ts:9-15 | Throws iff `url` is missing or not a string. Otherwise the keys are the input's plus `id` and `downloadUrl`, every other field is unchanged, `id` is the last path segment, and `downloadUrl` is the export URL of that id. |
| DownloadUrls.Callbacks | scripts/download-urls.ts:7-16 | One callback result per dataset, in order. |
| DownloadUrls.AddDownloadUrls | scripts/download-urls.ts:7-16 | `JSON.parse(rawData).map(...)`: the callback on each dataset in order; the first one that throws aborts the map. |
| DownloadUrls.AddDownloadUrlsSucceeds | scripts/download-urls.ts:7-16 | The map succeeds iff every dataset has a string `url`. |
| DownloadUrls.AddDownloadUrlsAt | scripts/download-urls.ts:7-16 | On success the output has the input's length and order, each element the callback's result on its input. |
| DownloadUrls.DownloadUrlsOf | scripts/download-urls.ts:27 | One `downloadUrl` per dataset, in order. |
| DownloadUrls.UrlList | scripts/download-urls.ts:27 | The `downloadUrl` of each dataset joined by "\n", a missing one rendered as "". |
| DownloadUrls.DatasetIdShape | scripts/download-urls.ts:9 | The id holds no '/' and ends the URL. It is the whole URL when there is no '/', and "" when the URL ends in '/'. |
| DownloadUrls.PageUrlGivesId | scripts/download-urls.ts:9 | `<prefix>/<id>` with a '/'-free id yields that id. |
| DownloadUrls.ExportUrlRoundTrip | scripts/download-urls.ts:14 | The export URL is the fixed prefix, the id, and the fixed suffix, so the id can be read back from it. |
| DownloadUrls.UrlListLines | scripts/download-urls.ts:27-28 | For one or more datasets whose URLs have no newline, the list file read back line by line gives each dataset's export URL, in order. There is one line per dataset and no trailing empty line. |
| DownloadUrls.UrlListLine | scripts/download-urls.ts:9-27 | The i-th URL in the list is the export URL of the i-th dataset, and it holds no newline. |
| DownloadUrls.ExportUrls | scripts/download-urls.ts:14 | One export URL per dataset, in order. |
| DownloadUrls.ExportUrlHasNoNewline | scripts/download-urls.ts:14 | An id without a newline gives an export URL without one. |
| DownloadUrls.LastSegmentSuffixChars | scripts/download-urls.ts:9 | The id holds no character that the URL lacks. |
| Scrape.CharMatches | python_scraper/scraper/scrape.py:33 | One pattern character against one link character under IGNORECASE: the character itself, its ASCII upper case, and U+017F for 's'. |
| Scrape.EndAnchor | python_scraper/scraper/scrape.py:33 | Where `$` matches without MULTILINE: at the end of the link, or just before a final "\n". |
| Scrape.MatchAt | python_scraper/scraper/scrape.py:33 | The pattern matches from a position: a literal dot, then xlsx or csv ignoring case, then the end anchor. |
| Scrape.Search | python_scraper/scraper/scrape.py:33 | `re.search` finds the pattern at some position. |
| Scrape.KeepLink | python_scraper/scraper/scrape.py:32-34 | The comprehension's condition decided on the link's ending: ".xlsx" or ".csv" ignoring case, at the end or before one final "\n". |
| Scrape.DotWord | python_scraper/scraper/scrape.py:33 | Matching ".ext" is matching a literal dot and then "ext". |
| Scrape.WordInPrefix | python_scraper/scraper/scrape.py:33 | A match inside a prefix is the same match in the whole string. |
| Scrape.WordEndsAt | python_scraper/scraper/scrape.py:33 | A dot followed by the extension, ending at j, means the prefix up to j ends with ".ext". |
| Scrape.KeepLinkIsSearch | python_scraper/scraper/scrape.py:32-34 | The suffix test agrees with the case-insensitive `re.search` of a dot, then xlsx or csv, then the end, defined by match position with Python's `$` rule and its case-insensitive character classes. |
| Scrape.KeptLinkIsFound | python_scraper/scraper/scrape.py:33 | A kept link is found by the search. |
| Scrape.FoundLinkIsKept | python_scraper/scraper/scrape.py:33 | A link the search finds is kept. |
| Scrape.KeepLinkIsSearchEverywhere | python_scraper/scraper/scrape.py:32-34 | The agreement holds for every link. |
| Scrape.GetDataLinks | python_scraper/scraper/scrape.py:32-34 | The links kept are exactly the listed links that the search finds. |
| Scrape.GetDataLinksKeepsOrder | python_scraper/scraper/scrape.py:32-34 | The kept links are a subsequence of the page's links, in page order. |
| Scrape.GetDataLinksKeepsDuplicates | python_scraper/scraper/scrape.py:32-34 | A link found n times is kept n times. |
| Scrape.GetDataLinksAppend | python_scraper/scraper/scrape.py:32-34 | The filter of two lists is the filter of each, concatenated. |
| Scrape.UpperCaseAccepted | python_scraper/scraper/scrape.py:33 | "a.CSV" is kept: the comparison ignores case. |
| Scrape.FinalNewlineAccepted | python_scraper/scraper/scrape.py:33 | "b.csv\n" is kept: `$` matches before a final newline. |
| Scrape.LongSAccepted | python_scraper/scraper/scrape.py:33 | "c.cſv" (U+017F) is kept: IGNORECASE folds it to 's'. |
| Scrape.QueryStringRejected | python_scraper/scraper/scrape.py:33 | "c.csv?x=1" is dropped: the match is anchored at the end. |
| Scrape.MissingDotRejected | python_scraper/scraper/scrape.py:33 | "dcsv" is dropped: the dot is required. |
| Scrape.SecondNewlineRejected | python_scraper/scraper/scrape.py:33 | "e.csv\n\n" is dropped: `$` skips only one final newline. |
| Backfill.UploadTarget | scripts/backfill-missing-csv.ts:51 | The object path `csv/<id>.csv` a dataset is uploaded to. |
| Backfill.NameSet | scripts/backfill-missing-csv.ts:31 | `new Set(files.map(f => f.name))`: exactly the listed names. |
| Backfill.UploadTargetInjective | scripts/backfill-missing-csv.ts:51 | Different ids are uploaded to different objects. |
| Backfill.ExistingCsvFiles | scripts/backfill-missing-csv.ts:14-32 | A listing error is thrown; otherwise the result is the set of exactly the listed names. |
| Backfill.MissingDatasets | scripts/backfill-missing-csv.ts:79-81 | A dataset is selected iff it is in the file and `<id>.csv` is not among the existing names. |
| Backfill.MissingDatasetsKeepOrder | scripts/backfill-missing-csv.ts:79-81 | The selection keeps the file's order. |
| Backfill.MissingDatasetsKeepDuplicates | scripts/backfill-missing-csv.ts:79-81 | A dataset listed n times whose file is missing is selected n times. |
| Backfill.MissingLines | scripts/backfill-missing-csv.ts:85-88 | One line per missing dataset, in order, with its id, title and download URL. |
| Backfill.StepObjects | scripts/backfill-missing-csv.ts:40-58 | Only a successful download followed by a successful upload changes the bucket, as an upsert of the body at `csv/<id>.csv`. |
| Backfill.StepLog | scripts/backfill-missing-csv.ts:37-62 | Two lines per dataset: the announcement, then the success line or the caught error. A non-ok response logs "Failed to download: <statusText>". |
| Backfill.ErrorMessage | scripts/backfill-missing-csv.ts:42-62 | The text the catch handler logs: the rejection's message, "Failed to download: <statusText>" for a non-ok response, or the upload error. |
| Backfill.ObjectsAfter | scripts/backfill-missing-csv.ts:92-94 | The bucket after the loop, one `downloadAndUploadCsv` step per missing dataset in order. The loop never deletes an object. |
| Backfill.LogAfter | scripts/backfill-missing-csv.ts:92-94 | The console lines the loop writes: two per missing dataset, in order. |
| Backfill.Announcements | scripts/backfill-missing-csv.ts:37 | One "Downloading" line per dataset, in order. |
| Backfill.StepLogStarts | scripts/backfill-missing-csv.ts:37-62 | The lines written for one dataset hold exactly one announcement. |
| Backfill.EachMissingDatasetProcessedOnce | scripts/backfill-missing-csv.ts:92-94 | The announcements in the console are exactly one per missing dataset, in order, whatever the earlier outcomes: a failure does not stop the loop. |
| Backfill.ObjectUntouched | scripts/backfill-missing-csv.ts:41-58 | An object is unchanged unless a successful upload targets it. So failed or non-ok downloads never change the bucket, and nothing outside `csv/<id>.csv` of a missing dataset is touched. |
| Backfill.UploadedBodyKept | scripts/backfill-missing-csv.ts:48-54 | After the loop, a dataset's object holds the body of its successful upload when no later dataset shares its id. |
| Backfill.Backfiller.constructor | scripts/backfill-missing-csv.ts:12 | Starts from the given bucket contents and an empty console. |
| Backfill.Backfiller.DownloadAndUploadCsv | scripts/backfill-missing-csv.ts:36-64 | The new bucket and console are one step of `StepObjects` and `StepLog`; the method never fails. |
| Backfill.Backfiller.PrintMissing | scripts/backfill-missing-csv.ts:84-89 | The printed count equals the number of missing datasets. One line is printed per dataset, then the count; the bucket is unchanged. |
| Backfill.Backfiller.ProcessMissing | scripts/backfill-missing-csv.ts:92-94 | The loop leaves the bucket and console of processing the missing datasets one after the other, in order. |
| Backfill.Backfiller.Run | scripts/backfill-missing-csv.ts:34-97 | An error in the top-level listing crashes the script with no effect. An error in `main`'s listing is logged by the catch handler before anything is filtered. Otherwise the count is the number of missing datasets, and bucket and console are those of the print and the loop. |

## Left out

- Textract: the AWS calls (the construction of the `boto3` client is an optional error outcome), base64 decoding, `pdf_to_base64_pngs` and logging are external. The OCR call is a function from the base64 image to blocks or an error. The PDF-to-PNG conversion is a parameter that returns the page images or an error.
- Textract: `detect_document_text` (python_scraper/scraper/utils/textract.py:35-40) is a bare pass-through to the AWS client with logging; it is the OCR parameter itself.
- Textract: a response without a `Blocks` key, or a WORD block without `Text`, raises KeyError in Python. Blocks are typed here, so those KeyErrors are not modelled.
- Text.Lower: only ASCII letters are lowered. Python's `str.lower()` and JavaScript's `toLowerCase()` also lower other Unicode letters, and a few of them change length.
- Textract.Transcribe: `os.path.splitext` is modelled for POSIX paths only (separator '/').
- FileTypes: `requests.get` and `raise_for_status` are one request outcome, and reading the streamed body is a second one. Their error messages are opaque.
- FileTypes.DownloadFileToLocal: the file system is a map from path to contents. An `open` failure, and a `write` that fails after the body was read, are not modelled.
- Prints: the console output of the Python helpers is left out. That covers `print(f"Downloaded file from {url}")` (python_scraper/scraper/utils/utils.py lines 32 and 43), `print(f"File saved to {save_path}")` (utils.py line 51), `print(f"uploading csv to {bucket_name}")` and the MB-size print (python_scraper/scraper/utils/supabase_client.py lines 59-60), and `print("Downloading CSV to local file")` (supabase_client.py line 83).
- StoragePaths: `uuid4()` is an input string. The upload call's failure is an optional error text. The chunked read and write in `download_csv_to_local` are one write outcome, and the partly written file a failure leaves behind is not modelled.
- DownloadUrls: reading and writing the JSON and text files, `JSON.stringify` formatting and key order, and the completion log line are I/O. JSON objects are maps, so key order is not modelled.
- DownloadUrls.UrlListLines: states nothing for an empty dataset list, whose list file is "" and reads back as one empty line, or for URLs that contain a newline.
- Scrape: the browser session, page navigation and link collection, as well as `get_page_text`, `take_full_page_screenshot` and `display_base64_image`, are browser automation or image display. The links are an input.
- Backfill: the `limit: 700` of the listing lives in the storage service. The listing is an input, so more than 700 existing files, which would make files look missing, is not modelled.
- Backfill: datasets are typed records. A dataset without `id` or `downloadUrl` (which JavaScript renders as "undefined") is not modelled.
- Backfill: the console holds structured lines rather than rendered text; an error object is represented by its message.
- Backfill: each download and upload outcome is the i-th entry of an attempt function given to `Run`. The fetch and upload are not modelled further; `response.text()` rejecting counts as a failed fetch.
