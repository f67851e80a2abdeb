# Product lookup pipeline, modelled in Dafny

The repository puts barcodes through a product-lookup pipeline. `smart.py`
reads a column of barcodes and asks the Go-UPC API about each one. A lookup
retries with exponential backoff while the API answers "429 Too Many
Requests". The successful answers become a product sheet: a missing name,
brand or image URL is backfilled from Open Food Facts, and each product
image is downloaded under a sanitised file name. The barcodes that failed go
to Open Food Facts in a second stage, which writes its own sheet. The two
scripts `newProductDetailsScript.py` and `productDetailsExtractionSeparate.py`
are byte-for-byte copies of one simpler loop. That loop sorts barcodes into
found records and not-found entries from one Go-UPC request each.

The model has one module per concern:

- `Text` (text.dfy): Python's `str.strip`, `strip('_ ')` and ASCII `lower`.
- `ImageName` (image_name.dfy): `make_image_filename`, the extension
  expression `Path(url).suffix.split('?')[0].lower() or '.jpg'` and the
  WebP → PNG rename.
- `GoUpc` (go_upc.dfy): `lookup_upc`. It is a method with the source's loop
  and a ghost log of its sleeps. It is proved against `LookupOutcome`,
  `RequestCount` and `Backoff`.
- `PrimaryStage` (primary_stage.dfy): `process_all`. It is a method proved
  against the row-by-row specification `Run`, with lemmas relating `Run` to
  the filters `FoundOf`, `FailedOf` and `Queried`.
- `OpenFoodFacts` (open_food_facts.dfy): `lookup_off`, `process_off` and
  the found/not-found summary.
- `Reports` (reports.dfy): the row loops of `save_to_xlsx` and
  `save_off_xlsx`. This covers the backfill, the four-cell rows, the
  in-place "Not Found" marking of a row's cells (over an `array`) and the
  name of each stored image.
- `ProductDetailsScript` (product_details_script.dfy): the classifier loop
  of the two scripts.

Every network answer is an input. The caller supplies what each request
would get back (`Attempt`, `OffAttempt`, `ScriptAttempt`), and whether each
image download succeeds (a `bool`). JSON string fields are `string`s; an
absent field is `""`.

The code behaves in ways that are easy to miss, and the model follows
it:

- **Spaces in file names.** Sanitising keeps spaces. For brand
  `Ben & Jerry's!` and name `Choc/Mint`, the code gives
  `Ben _ Jerry_s_Choc_Mint`: the `&` becomes `_` and the spaces around it
  stay. See `SpacedUnsafeKeepsSpaces`.
- **The `unknown` fallback.** It never applies to the sheets' images,
  because their extension always starts with `.`. With an empty brand and
  name and a plain extension such as `.jpg`, the file is the extension
  alone (`.jpg`). An extension ending in `_` or a space, or holding `__`,
  is tidied like the rest of the name: `http://h/a.x_` gives the file `.x`.
  See `EmptyPartsKeepExtension`, `FallbackNeverApplies`,
  `PaddedExtension` and `PaddedFileName`.
- **Dots in the query string.** The extension is taken before the query is
  cut off, so `…/a.png?v=1.2` gets the extension `.2`. See
  `ExtensionOfDottedQuery`.
- **A file name of `.`.** A URL such as `http://x/a.?v=1` has the
  extension `.`; with a brand and name that sanitise to nothing the file
  name is `.`, so `image_dir / fn` is the image directory itself, the write
  raises and is caught, and no image is stored. See
  `DirectoryNameNotStored`.
- **A WebP image with no stem.** Its file is named `.webp`, has no suffix
  for `with_suffix`, and is stored as `.webp.png`. See `WebpStemToPng`.

## Model

| member | source | states |
|---|---|---|
| Text.Trim | smart.py:64 | `strip(chars)` leaves a contiguous part of the input that neither starts nor ends with a stripped character, and every character before it (by `Leading`, which stops at the first kept character) and after it is stripped; it is empty exactly when every character is stripped, and it is the input itself when neither end is stripped |
| Text.StripEnds | smart.py:133 | `str.strip()` removes exactly the whitespace at both ends: what is left is a contiguous part of the input, everything before and after it is whitespace, and it neither starts nor ends with whitespace |
| Text.LastIndexOf | smart.py:179 | the `rfind` that `PurePath.suffix` uses: the index of a `c` with no `c` after it, or -1 when there is none |
| Text.Before | smart.py:179 | `split('?')[0]` is the longest prefix without `?`: it is followed by `?` or is the whole string |
| Text.Lower | smart.py:179 | lowercasing keeps the length, maps each character to its lowercase form and leaves no uppercase letter |
| ImageName.ReplaceUnsafeRuns | smart.py:63 | after `re.sub('[^A-Za-z0-9 _\-]+', '_', s)` only safe characters remain, the string is no longer, and the first character is kept or becomes `_` |
| ImageName.ReplaceSafePrefix | smart.py:63 | safe characters at the front pass through the substitution unchanged |
| ImageName.ReplaceUnsafeRun | smart.py:63 | a maximal run of unsafe characters, of any length, after safe characters becomes one `_`, and the substitution goes on after it; with `ReplaceSafePrefix` this fixes the result for every input (`a!?b` gives `a_b`) |
| ImageName.CollapseUnderscores | smart.py:64 | after `re.sub('_+', '_', s)` there is no `__`, both end characters are kept, and a string without `__` is unchanged |
| ImageName.CollapseKeepsPrefix | smart.py:64 | a part without `__` that does not end in `_` passes through collapsing unchanged |
| ImageName.UnderscoreRun | smart.py:64 | a maximal run of `_` after such a part becomes one `_`, and collapsing goes on after it; every other character stays in place (`a__b__c` gives `a_b_c`) |
| ImageName.Sanitize | smart.py:63-66 | a sanitised brand or name has only characters of `[A-Za-z0-9 _-]`, no `__`, and no `_` or space at either end |
| ImageName.SanitizeIdempotent | smart.py:63-66 | sanitising twice is the same as sanitising once |
| ImageName.SanitizeKeepsTidy | smart.py:63-66 | a brand or name that is already safe and tidy is left unchanged |
| ImageName.SpacedUnsafeKeepsSpaces | smart.py:63-64 | an unsafe character between two spaced safe words becomes ` _ `: the spaces survive |
| ImageName.Joined | smart.py:67-68 | the joined, collapsed and stripped name has no `__`, neither starts nor ends with `_` or a space, and is empty exactly when `brand_name+ext` is made only of `_` and spaces |
| ImageName.JoinedShape | smart.py:67-68 | the joined name is empty exactly when both parts are empty and the extension is only `_` and spaces; it is always tidy |
| ImageName.JoinedLayout | smart.py:67-68 | with a plain extension the joined name is `b_n+ext`, `b_+ext`, `n+ext` or `ext`, depending on which parts are empty |
| ImageName.MakeImageFilename | smart.py:60-69 | in the fallback case (both parts sanitise to nothing and the extension is only `_` and spaces) the name is `unknown+ext`; otherwise it is non-empty and tidy (it can still read `unknown+ext`, for an empty brand and the name `unknown`); all its characters are safe or come from the extension. For a plain extension, `FilenameLayout` states which name it is |
| ImageName.FilenameLayout | smart.py:67-69 | with a plain extension the file name is the stem `brand_name` (or `brand_`, `name`, nothing) followed by the extension |
| ImageName.EmptyPartsKeepExtension | smart.py:67-69 | an empty brand and name with `.jpg` give `.jpg`, not `unknown.jpg` |
| ImageName.FallbackNeverApplies | smart.py:179-180 | for every URL's derived extension the fallback is not taken, even when brand and name sanitise to nothing |
| ImageName.PathName | smart.py:179 | `PurePath(url).name` is one component: it holds no `/` and is not `.` |
| ImageName.PathNameNoSlash | smart.py:179 | a path with no `/` that is not `.` is its own name |
| ImageName.PathNameDot | smart.py:179 | the name of `.` is empty |
| ImageName.PathNameTrailingSlash | smart.py:179 | a trailing `/` does not change the name |
| ImageName.PathNameTrailingDot | smart.py:179 | a trailing `/.` does not change the name |
| ImageName.NameSuffix | smart.py:179 | the suffix is empty or a proper tail of the name that starts at its only dot |
| ImageName.NoSuffixExactly | smart.py:179 | a name has no suffix exactly when no inner dot is its last dot |
| ImageName.ImageExtension | smart.py:179 | the extension starts with `.` and holds no `?`, `/` or uppercase letter; it is `.jpg` when the last component has no suffix, and otherwise the lowercased suffix up to its first `?` |
| ImageName.ExtensionBeforeQuery | smart.py:245 | for a last component `<stem><e>?<q>` with no dot in the query, the extension is `lower(e)` |
| ImageName.ExtensionDefaultsToJpg | smart.py:179 | every URL `<dir>/<file>` whose last component `file` is non-empty and has no dot gets `.jpg` |
| ImageName.PaddedExtension | smart.py:179 | an extension can end in `_`: `http://h/a.x_` gives `.x_` |
| ImageName.PaddedFileName | smart.py:60-69 | such an extension is not kept verbatim: with a brand and name that sanitise to nothing, `.x_` gives the file name `.x` |
| ImageName.DotBeforeQuery | smart.py:179 | a suffix that is only a dot before the query (`a.?v=1`) leaves the extension `.` |
| ImageName.DotFileName | smart.py:60-69 | with a brand and name that sanitise to nothing and the extension `.`, the file name is `.` |
| ImageName.ExtensionOfDottedQuery | smart.py:179 | a dot in the query string becomes the extension: `a.png?v=1.2` gives `.2` |
| ImageName.WithSuffix | smart.py:188 | `with_suffix(sfx)` ends with `sfx`, and what precedes `sfx` followed by the old suffix is the original name: only the suffix is replaced |
| ImageName.DestinationName | smart.py:186-191 | a WebP image is stored under a name ending in `.png`; any other image keeps its file name |
| ImageName.WebpStemToPng | smart.py:188 | `with_suffix('.png')` turns `<stem>.webp` into `<stem>.png`, and `.webp` alone into `.webp.png` |
| ImageName.WebpStoredAsPng | smart.py:180-189 | a WebP image is named `<stem>.webp` and stored as `<stem>.png`; when brand and name both sanitise to nothing the stem is empty, the file is `.webp` and it is stored as `.webp.png` |
| ImageName.StoredNameIsFlat | smart.py:180-181 | the stored file name never holds a `/`, so it never names a file in a subdirectory of the image directory (the name `.` is handled by `Reports.ImageOf`) |
| GoUpc.Settle | smart.py:86-102 | an answer other than 429 ends the lookup: it is found exactly for a status accepted by `raise_for_status` with JSON that decodes, fatal exactly for 401 and 403, and a failure after the loop exactly for timeouts, network errors and undecodable JSON |
| GoUpc.RateLimits | smart.py:80-85 | the answers counted as rate limited are all 429 and stop at the first other answer, at most `MAX_RETRIES` of them |
| GoUpc.LookupOutcome | smart.py:76-103 | five 429 answers raise `HTTPError`; a returned payload is the JSON of an answer accepted by `raise_for_status` that follows only 429s; an exit is for 401 or 403 only |
| GoUpc.RequestCount | smart.py:76-87 | a lookup sends at least one and at most `MAX_RETRIES` requests, and no fewer than the number of 429 answers |
| GoUpc.LookupUpc | smart.py:72-103 | the loop returns what `LookupOutcome` specifies, sends `RequestCount` requests, and sleeps the `Backoff` durations of its 429 answers in order |
| GoUpc.RateLimitedThenFound | smart.py:76-87 | `k < MAX_RETRIES` answers of 429 followed by a good answer return its payload after `k + 1` requests and `k` sleeps |
| GoUpc.BackoffDurations | smart.py:75-84 | sleep `i` lasts `INITIAL_WAIT * 2^i` |
| GoUpc.BackoffTotal | smart.py:75-84 | `k` sleeps last `INITIAL_WAIT * (2^k - 1)` in total |
| GoUpc.AllRateLimited | smart.py:76-103 | five 429 answers give five requests, five sleeps of 1, 2, 4, 8 and 16 (the last after the final attempt), and then `HTTPError` |
| GoUpc.StopsAtFirstOther | smart.py:88-103 | the first answer other than 429, at attempt `n + 1`, ends the lookup after `n + 1` requests and `n` sleeps; 401 or 403 exits, and 404, other statuses, timeouts and network errors all raise `HTTPError` |
| GoUpc.LaterAnswersIgnored | smart.py:76-102 | answers after the last request sent never change the outcome |
| PrimaryStage.ProcessAll | smart.py:123-144 | the loop ends in the state `Run` specifies and pauses for `REQUEST_DELAY` `Paced` times |
| PrimaryStage.StepAppends | smart.py:133-141 | one row (`Step`): a halt is final, a row without its `barcode` cell halts, and otherwise at most one entry is appended to `records` or `failed`, never removing one |
| PrimaryStage.RunBound | smart.py:132-141 | over the whole run (`Run`), `len(records) + len(failed)` never exceeds the number of rows |
| PrimaryStage.HaltPersists | smart.py:132-141 | once the run has halted (a missing cell, or the exit on 401/403), later rows are not looked up and cause no pause |
| PrimaryStage.RunCompletes | smart.py:132-141 | the run returns its two lists exactly when no row is missing its cell and no lookup exits |
| PrimaryStage.RunResults | smart.py:132-141 | when it does, `records` holds the answers of the successful lookups and `failed` the barcodes of the failed ones, both in input order, and empty barcodes appear in neither |
| PrimaryStage.PartitionCounts | smart.py:132-141 | `len(records) + len(failed)` is the number of non-empty stripped barcodes |
| PrimaryStage.FailedAreStripped | smart.py:133-140 | a failed barcode is never empty and has no surrounding whitespace |
| PrimaryStage.PausesPerLookup | smart.py:137-141 | with no halt, each barcode that is looked up is followed by exactly one pause |
| OpenFoodFacts.Canonical | smart.py:116 | the not-found record names the queried barcode, has a status other than 1 and an empty product |
| OpenFoodFacts.Accepted | smart.py:110-117 | an accepted answer is a decoded JSON response with `status` 1; an error status, a timeout or a network error is never accepted |
| OpenFoodFacts.LookupOff | smart.py:106-120 | the lookup never fails; its status is 1 exactly for an accepted answer, an accepted answer is returned unchanged, and anything else becomes the canonical record for the barcode |
| OpenFoodFacts.ProcessOff | smart.py:226-227 | `process_off` keeps length and order: result `i` is the lookup of barcode `i` |
| OpenFoodFacts.FoundCount | smart.py:279 | `found` never exceeds the number of results |
| OpenFoodFacts.SummaryCounts | smart.py:279-280 | `found` is the number of accepted answers, and `found + not_found` is the number of failed barcodes |
| OpenFoodFacts.NotFoundAreCanonical | smart.py:279-280 | `not_found` is the number of records that came back canonical for their barcode |
| Reports.Marked | smart.py:198-202 | a marked cell is never empty; it reads "Not Found" exactly when it was empty or "Not Found", and is then red; any other cell is unchanged |
| Reports.MarkRow | smart.py:198-202 | marking a row keeps its length and marks each cell |
| Reports.MarkMissing | smart.py:198-202 | the loop over the row's cells, in place, leaves the array equal to the marked row |
| Reports.ShapeRow | smart.py:195-202 | a row has four cells (UPC, name, brand, URL), each its value or "Not Found" when empty, and exactly the "Not Found" cells are red |
| Reports.AppendRow | smart.py:195-202 | the appended and marked row is the shaped row of its four values |
| Reports.StoredImage | smart.py:178-189 | a stored image name holds no `/` |
| Reports.ImageOf | smart.py:178-193 | an image is stored exactly when there is a URL, the download succeeds and the name is not `.` (which makes `image_dir / fn` the directory itself, so the write raises and is caught); a stored name is then never `.` and holds no `/` |
| Reports.DownloadImage | smart.py:178-193 | the method stores the image exactly as `ImageOf` specifies: a URL, a successful download and a name other than `.` |
| Reports.DirectoryNameNotStored | smart.py:178-193 | for `http://x/a.?v=1` and a brand and name that sanitise to nothing, the file name is `.` and nothing is stored, even when the download succeeds |
| Reports.Backfill | smart.py:166-175 | a present name, brand or URL is never changed; an empty one takes the Open Food Facts value, and stays empty if that value is empty too |
| Reports.Merged | smart.py:163-175 | after the backfill a present name, brand or URL is unchanged |
| Reports.MergedFields | smart.py:163-175 | an accepted Open Food Facts answer fills the empty fields as `Backfill` does; any other answer changes nothing |
| Reports.CompleteNeedsNoLookup | smart.py:164-165 | a product with every field present is not looked up, so its fields are the same whatever Open Food Facts would answer |
| Reports.ProductRow | smart.py:156-203 | one pass of the loop gives the specified line, and calls `lookup_off` exactly when some field is empty |
| Reports.ProductSheet | smart.py:147-208 | one line per Go-UPC answer, in order, each the specified line, and the codes passed to `lookup_off` are those of the answers with an empty field |
| Reports.OffSheet | smart.py:230-269 | one line per Open Food Facts record, in order, with the same row shape and no backfill |
| Reports.CanonicalLine | smart.py:238-268 | a canonical record gives the row `[upc, Not Found, Not Found, Not Found]` with those three cells red and no image |
| Reports.RowIgnoresImage | smart.py:177-202 | whether the image download succeeds never changes the row |
| ProductDetailsScript.ColumnBarcodes | newProductDetailsScript.py:11-12 | missing cells are dropped, so there are at most as many barcodes as cells, and every barcode is already stripped |
| ProductDetailsScript.ColumnConcat | newProductDetailsScript.py:11-12 | the column is read cell by cell: the barcodes of two stretches of cells concatenate |
| ProductDetailsScript.ColumnCell | newProductDetailsScript.py:11-12 | a present cell gives its stripped value and a missing cell gives nothing; with `ColumnConcat`, the barcodes are the stripped values of the present cells, in order |
| ProductDetailsScript.BlankCellKept | productDetailsExtractionSeparate.py:11-12 | a cell of blanks survives as an empty barcode, which is still queried |
| ProductDetailsScript.Classify | newProductDetailsScript.py:27-49 | a barcode is found exactly when the status is 200 and the JSON has a non-empty `product`; the record takes `barcode` from `code` and the other fields from `product`; otherwise the entry is `{"go_upc_barcodes": barcode}` |
| ProductDetailsScript.FetchAll | newProductDetailsScript.py:19-49 | the loop builds exactly the two specified lists |
| ProductDetailsScript.CountsAddUp | productDetailsExtractionSeparate.py:19-49 | each barcode lands in exactly one list, so the lengths add up to the number of barcodes |
| ProductDetailsScript.FoundSplits | productDetailsExtractionSeparate.py:29-41 | barcodes are handled independently and in order: the found records of two runs concatenate |
| ProductDetailsScript.NotFoundSplits | newProductDetailsScript.py:42-49 | the not-found entries of two runs concatenate too |
| ProductDetailsScript.ErrorIsNotFound | productDetailsExtractionSeparate.py:47-49 | a fetch that raises adds a not-found entry, adds no record, and the loop goes on |
| ProductDetailsScript.EntriesComeFromInput | productDetailsExtractionSeparate.py:29-46 | every not-found entry names an input barcode, and every found record comes from an answer with status 200 |

## Left out

- HTTP: `requests` calls, timeouts and the internals of `raise_for_status` are not modelled. Each request's result is an input; a status from 400 to 599 is treated as one that `raise_for_status` rejects.
- A Go-UPC body that is not JSON is taken to raise `requests`' `JSONDecodeError`, which is a `RequestException`: the loop is left and `HTTPError` raised at smart.py:103 (`Malformed` → `Failed(AfterRetries)`). Older versions of `requests` raise a plain `ValueError` there instead, which would end the program; that variant is not modelled.
- GoUpc.LookupUpc: requires at least `MAX_RETRIES` answers to be supplied, one per possible attempt. Answers after the last request sent are ignored (`LaterAnswersIgnored`).
- Sleeping: `time.sleep` is a ghost log of durations (`Backoff`). The float `REQUEST_DELAY` is only counted as a pause (`Paced`).
- Exits: `sys.exit` on 401/403, and the exit through `main`'s handler when a CSV row has no `barcode` cell, become `Fatal` and `Halted`. The exits for a missing input file, a missing column, a CSV parse error and a failed `wb.save` (smart.py:125-131, 142-143, 205-208) are not modelled, because they concern files.
- File formats: CSV and pandas reading, and workbook writing, are not modelled. A row's cells are kept and column widths and row heights are dropped; `RED_FILL` is a `red` flag on each cell. The header rows are not modelled.
- `save_failed_xlsx` (smart.py:211-223) only writes the failed barcodes to a sheet, one per row, and is not modelled.
- Images: the bytes, the WebP decoding and PNG encoding, and the writes to disk are not modelled. Only the stored name is, and whether the download succeeds is an input.
- Reports.ImageOf: a write can also fail for reasons of the file system (a name longer than it allows, a full disk, no permission); these are not modelled, and only the name `.` is treated as a failed write.
- Suffixes: `NameSuffix` and `WithSuffix` follow `PurePath.suffix` and `with_suffix` as CPython's `pathlib` defines them up to version 3.13, where a name ending in `.` has no suffix. Later versions may treat a trailing dot differently; that variant is not modelled.
- `print` logging is dropped.
- JSON: fields are strings and `""` stands for absent or falsy. Non-string values, `product: null` in a Go-UPC answer kept by `smart.py` (which makes `save_to_xlsx` raise), and non-object JSON in the script (an exception, so a not-found entry, like `ScriptMalformed`) are not modelled separately. An Open Food Facts `status` is an integer: JSON `true` and `1.0` compare equal to 1 at smart.py:114 and smart.py:279, so they are modelled as 1; an absent `status` and every other value are modelled as a status other than 1.
- Text.Lower: lowercases ASCII letters only. `str.lower()` also lowercases other alphabets, and the extension expression uses it.
- pandas: `read_csv` decides which cells are missing (empty fields and NA markers). The model takes that decision as its input (`None`).
- extractBarcodeFromImages.py is not part of this model. It holds OAuth, Google Drive and barcode-image decoding through foreign libraries.
