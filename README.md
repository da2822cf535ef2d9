# regulations.gov comment harvester, modelled in Dafny

The harvester collects the public comments on a docket of regulations.gov.
It works in four steps:

- It lists the docket's documents.
- It pages through each document's comments.
- It fetches each comment's detail payload, extracts text from the comment's PDF or DOCX attachments, and adopts that text when it is longer than the inline comment text.
- It writes one CSV row per comment.

Every HTTP request goes through a fetcher. The fetcher retries failed attempts and rotates the API key on rate limiting.

The harvester comes in two variants with the same pipeline:

- **`cb3.py`**, the index-based client:
  - It keeps a global key index that advances modulo the number of keys.
  - Its fetch allows `max_retries * len(API_KEYS)` attempts and rotates after most failures.
  - It caps the total number of comments at 500.
- **`newcommentbuilder.py`**, the deque-based client:
  - It turns a deque of keys and caches its front key.
  - It starts from a random key.
  - Its fetch allows `max_retries` attempts and rotates only on a 429.
  - It fetches each comment's details up to three times.
  - It collects every comment, with no cap.

Each file of the model is one module:

| file | module | what it models |
|---|---|---|
| `payload.dfy` | `Payload` | the JSON shapes the clients read, `Option`, and the outcome of one HTTP attempt |
| `modular.dfy` | `Modular` | small facts about `%` used by both rotators |
| `cb3_keys.dfy` | `Cb3Keys` | the index rotator (a class), `make_api_request` and `get_comment_details` of `cb3.py` |
| `ncb_keys.dfy` | `NcbKeys` | the deque rotator (a class), the random start, `make_api_request` and `get_comment_details` of `newcommentbuilder.py` |
| `paging.dfy` | `Paging` | the uncapped page-number paginators and the uncapped gathering of comments over documents |
| `cb3_harvest.dfy` | `Cb3Harvest` | the capped comment paginator and `main`'s running cap, both from `cb3.py` |
| `cleaning.dfy` | `Cleaning` | `clean_text` |
| `extension.dfy` | `FileExt` | `get_file_extension` |
| `attachments.dfy` | `Attachments` | `process_attachments` |
| `rows.dfy` | `Rows` | the row builder in `save_comments_to_csv` and the output file name |
| `cb3_main.dfy`, `ncb_main.dfy` | `Cb3Main`, `NcbMain` | each client's `main` |

The model replaces I/O with inputs:

- **HTTP outcomes** are a function `net(n, key)`. It gives the outcome of attempt number `n` of the run, made with API key `key`. The outcome is a status with a body, or an exception.
- **List pages** are a sequence of replies. Reply `k` answers page `k + 1`; `None` means the fetcher gave up.
- **Detail payloads** are a function from comment id to payload.
- **URL paths and decoder output** are functions of the URL.

The code is imperative, so the model is too:

- Each rotator is a class. Its fields are updated in place.
- Each loop is a `while` or `for` loop. It is proved against a state-passing specification function: `Fetch`, `Paginate`, `ScanFormats`/`ScanItems`, `Details`.
- Lemmas then state what the source promises about those functions.

Two behaviours of the code are easy to misread, and the model follows the code in both:

- **Attachment scan.** In `process_attachments` the `break` leaves only the loop over one item's `fileFormats`. A successful extraction therefore does not end the scan of a comment. Later attachment items are still scanned, and a later extraction replaces the earlier text. `Attachments.LaterAttachmentWins` states this.
- **Fetch budget of `newcommentbuilder.py`.** The budget is `max_retries` (5 by default), whatever the number of keys, and only a 429 moves to another key. So under other errors not every key gets a chance. `NcbKeys.SameKeyWithoutRateLimit` states that a request meeting no 429 uses the same key on every attempt.

## Model

| member | source | states |
|---|---|---|
| Cb3Keys.KeyRing.constructor | cb3.py:28-34 | the key list is non-empty and the first key is active |
| Cb3Keys.KeyRing.CurrentKey | cb3.py:36-42 | the header key is one of `API_KEYS` |
| Cb3Keys.KeyRing.Rotate | cb3.py:44-57 | the index becomes `(old + 1) % len(API_KEYS)`, stays in range, and the new active key is returned |
| Cb3Keys.RotatedIsShift | cb3.py:49 | `k` rotations from index `i` give `(i + k) % N` |
| Cb3Keys.RotatedWraps | cb3.py:49 | `k` rotations from index `i` leave an index below N, congruent to `i + k` |
| Cb3Keys.FullCycleRestores | cb3.py:49 | N rotations restore the starting index; the index always stays below N |
| Cb3Keys.NextIndex | cb3.py:73-97 | the key index after a failed attempt: a 429 advances it; another status advances it unless the attempt closes a cycle of N attempts; an exception advances it only when the attempt closes a cycle |
| Cb3Keys.Fetch | cb3.py:63-97 | the loop of `make_api_request` from one attempt on: it stops at the first 200 with its body, otherwise it moves the index by `NextIndex` and goes on until the budget is spent |
| Cb3Keys.Request | cb3.py:59-101 | one call of `make_api_request`: a budget of `max_retries * N` attempts, starting at the active index, ending in `None` when the budget is spent |
| Cb3Keys.MakeApiRequest | cb3.py:59-101 | the loop's response, the key indices it used and the index it leaves are exactly what `Request` computes, and the rotator stays valid |
| Cb3Keys.FetchBoundedAndOkOnly | cb3.py:63-101 | at most `max_retries * N` attempts, each with a valid key index; every attempt before the last failed; a response only from a 200 on the last attempt, carrying that body; `None` only after the whole budget was spent on failures |
| Cb3Keys.FetchRotation | cb3.py:73-97 | the first attempt uses the active key; after failed attempt `k`, a 429 rotates, another status rotates unless `(k + 1) % N == 0`, and an exception rotates only when `(k + 1) % N == 0` |
| Cb3Keys.RateLimitedEverywhere | cb3.py:63-101 | if every attempt gets a 429: the request fails after exactly `max_retries * N` attempts, attempt `k` uses key `(idx + k) % N`, every key is tried, and the starting key is active again |
| Cb3Keys.CoversAll | cb3.py:63-76 | attempts that use keys `idx, idx + 1, ...` modulo N, at least N of them, try every key |
| Cb3Keys.RateLimitedTrail | cb3.py:73-76 | if every attempt gets a 429, each attempt uses the key after the previous one, and the key after the last attempt's stays active |
| Cb3Keys.GetCommentDetails | cb3.py:199-210 | one `make_api_request` with the default `max_retries` of 3; its response, or `None`, is the detail payload |
| NcbKeys.RotL | newcommentbuilder.py:36-53 | the key list turned `k` places to the left, which is the deque after `k` calls of `rotate(-1)` |
| NcbKeys.Step | newcommentbuilder.py:51 | `API_KEY_QUEUE.rotate(-1)`: the front key moves to the back, and the length is kept |
| NcbKeys.Rotations | newcommentbuilder.py:47-55 | the queue after `t` calls of `rotate_api_key` |
| NcbKeys.KeyQueue.constructor | newcommentbuilder.py:29-37 | the queue is `deque(API_KEYS)` and the cached key is its front |
| NcbKeys.KeyQueue.CurrentKey | newcommentbuilder.py:40-45 | the header key is the front of the queue, which is `API_KEYS[shift]` |
| NcbKeys.KeyQueue.Rotate | newcommentbuilder.py:47-55 | the front key moves to the back, the cached key is the new front, and the queue stays a rotation of `API_KEYS` |
| NcbKeys.RotLStep | newcommentbuilder.py:51-53 | turning a rotation by `k` once more gives the rotation by `k + 1`, or the original order after the last place |
| NcbKeys.RotationsAreRotL | newcommentbuilder.py:47-55 | `t < N` calls of `rotate_api_key` turn the queue `t` places |
| NcbKeys.RotLIsRotation | newcommentbuilder.py:36-53 | a turned queue has the same keys (as a multiset) in the same cyclic order |
| NcbKeys.FullCycleRestores | newcommentbuilder.py:47-55 | N rotations restore the queue |
| NcbKeys.RotationsPeriodic | newcommentbuilder.py:47-55 | rotating the queue repeats with period N |
| NcbKeys.RandomStartKey | newcommentbuilder.py:387-390 | `random_start` rotations, with `0 <= random_start < N`, leave `API_KEYS[random_start]` at the front |
| NcbKeys.RandomStart | newcommentbuilder.py:388-390 | the loop leaves the queue rotated `random_start` times and valid |
| NcbKeys.Fetch | newcommentbuilder.py:60-86 | the `while retries < max_retries` loop: a 200 returns its body; a 429 turns the queue; any other failure retries with the same key; the budget counts every attempt |
| NcbKeys.Request | newcommentbuilder.py:57-89 | one call of `make_api_request`: a budget of `max_retries` attempts from the queue as it stands, ending in `None` when the budget is spent |
| NcbKeys.MakeApiRequest | newcommentbuilder.py:57-89 | the loop's response, the keys it sent and the queue it leaves are exactly what `Request` computes |
| NcbKeys.FetchShape | newcommentbuilder.py:60-89 | part-way through a request: the keys sent only grow, within the budget, every attempt before the last failed, and a response comes only from a 200 |
| NcbKeys.FetchBoundedAndOkOnly | newcommentbuilder.py:59-89 | at most `max_retries` attempts; every attempt before the last failed; a response only from a 200 on the last attempt, carrying that body; `None` only after `max_retries` failed attempts |
| NcbKeys.RotatesOnRateLimitOnly | newcommentbuilder.py:70-86 | each attempt sends the front key of the queue turned once per 429 before it; the request leaves the queue turned once per 429 it met |
| NcbKeys.SameKeyWithoutRateLimit | newcommentbuilder.py:79-86 | a request that meets no 429 sends the active key every time and leaves the queue unchanged |
| NcbKeys.LimitedZero | newcommentbuilder.py:79-86 | with no 429 among the first `k` attempts, no rotation is counted |
| NcbKeys.Details | newcommentbuilder.py:164-179 | the remaining calls of `get_comment_details`' loop: each call starts after the attempts already made, the first call with a response ends the loop with it, and `None` after the last call |
| NcbKeys.GetCommentDetails | newcommentbuilder.py:164-179 | up to three calls of `make_api_request` with a budget of `maxRetries` attempts each (5 by default in the source), stopping at the first response; the payload, the keys sent and the queue left are what `Details` computes |
| NcbKeys.DetailsBounded | newcommentbuilder.py:170-179 | at most `3 * max_retries` attempts; a payload only from a 200 on the last attempt made, every earlier attempt having failed; `None` only after `3 * max_retries` attempts that all failed |
| NcbKeys.FirstSuccessWins | newcommentbuilder.py:171-173 | if the first call returns a response, the outcome (payload, keys sent, queue left) is exactly that call's, so no further call is made; the first call makes at most `max_retries` attempts |
| Paging.Stops | cb3.py:119-128 | a failed request or a page whose `meta.hasNextPage` is not true ends pagination |
| Paging.Harvest | cb3.py:103-135 | the uncapped paginator's result: the data of every page in order, up to the first failure (exclusive) or the last page (inclusive) |
| Paging.Requests | cb3.py:109-132 | how many pages the uncapped paginator requests |
| Paging.RequestsStopAtFirstStop | cb3.py:109-132 | the paginator requests pages 1, 2, ... up to and including the first failure or last page, and no further |
| Paging.HarvestStep | cb3.py:117-130 | one page: a failure stops with nothing more; a last page adds its data and stops; otherwise its data comes before what the next pages give |
| Paging.Paginate | cb3.py:148-190 | the paginator's loop from one page on with the data collected so far and an optional cap: the cap check before each request, the cut of each page to the room left, and the stop on failure, a full collection or the last page |
| Paging.PaginateUncapped | newcommentbuilder.py:97-119 | without a cap the loop returns the data of every page in order, up to the first failure or last page, and requests exactly those pages |
| Paging.CollectAll | cb3.py:103-135 | `get_documents_for_docket` and the uncapped `get_comments_for_document`: the in-order concatenation of the pages' data; pages 1, 2, ... requested once each |
| Paging.HarvestIgnoresLaterReplies | newcommentbuilder.py:130-159 | answers after the stopping page are never looked at |
| Paging.HarvestFullList | newcommentbuilder.py:130-159 | when every page succeeds and only the last has no next page, the result is all pages' data and every page is requested once |
| Paging.PagedComments | newcommentbuilder.py:414-419 | every comment of the listed documents in document order: each document with a truthy `objectId` contributes its uncapped comment list |
| Paging.PagedCommentsPrefix | newcommentbuilder.py:414-419 | gathering over a longer document list extends the shorter result |
| Paging.Prefix | cb3.py:173-174 | the first `m` elements, all of them when `m` exceeds the length, none when `m <= 0` |
| Paging.PrefixShape | cb3.py:174 | `Prefix(batch, m)`, which is `batch[:m]` for the `m >= 1` the source slices with, is a prefix of `batch` of length `m` when `m` fits and all of `batch` otherwise (and empty for `m <= 0`, where Python's slice would differ) |
| Paging.PrefixAppend | cb3.py:172-176 | cutting past a short head cuts only the tail |
| Paging.PrefixOfLonger | cb3.py:172-176 | cutting a sequence within one of its prefixes cuts the prefix |
| Cb3Harvest.PaginateCapped | cb3.py:148-190 | with cap `m` the loop returns exactly the first `m` comments the uncapped loop would return |
| Cb3Harvest.PaginateCappedPages | cb3.py:148-188 | the capped loop never requests more pages than the uncapped one, and requests at least one page when there is room for a comment |
| Cb3Harvest.FillFromPage | cb3.py:172-184 | a page that fills the cap contributes the cut of its data, whatever follows |
| Cb3Harvest.AlreadyFull | cb3.py:150-152 | a collection that has reached the cap is its own cut |
| Cb3Harvest.CappedIsPrefix | cb3.py:137-197 | `get_comments_for_document(id, m)` returns the first `m` comments of the uncapped result, so at most `max(m, 0)` of them |
| Cb3Harvest.GetCommentsForDocument | cb3.py:137-197 | the loop's comments and number of pages requested are what `Paginate` computes with the cap; pages are numbered 1, 2, ... |
| Cb3Harvest.PagedCommentsStep | cb3.py:481-484 | one more document appends its comments when its `objectId` is truthy |
| Cb3Harvest.PrefixShort | cb3.py:173-174 | a cut shorter than the cap is the whole sequence |
| Cb3Harvest.CapReached | cb3.py:479-481 | once the cap is reached, later documents change nothing |
| Cb3Harvest.CollectWithCap | cb3.py:476-498 | `main`'s loop returns exactly the first `max_comments` comments of the uncapped gathering, so the total never exceeds `max_comments` |
| Cleaning.Kept | cb3.py:241 | the characters `clean_text` keeps: `\n`, `\t`, `\r` and the code points 32 to 126 |
| Cleaning.IsSpace | cb3.py:244 | the characters `str.strip()` removes, as Python's `str.isspace` defines them |
| Cleaning.TrimStart | cb3.py:244 | `lstrip()`: the text without its opening whitespace |
| Cleaning.TrimEnd | cb3.py:244 | `rstrip()`: the text without its closing whitespace |
| Cleaning.Strip | cb3.py:244 | `strip()`: both ends trimmed |
| Cleaning.Cleaned | cb3.py:233-244 | `clean_text`: the kept characters, stripped; "" for falsy input |
| Cleaning.Filter | cb3.py:239-242 | the filter never lengthens its input, and every character it keeps is a kept character |
| Cleaning.LeadingSpace | cb3.py:244 | the count of opening whitespace: all those characters are whitespace and the next one is not |
| Cleaning.TrailingSpace | cb3.py:244 | the count of closing whitespace: all those characters are whitespace and the one before them is not |
| Cleaning.CleanText | cb3.py:233-244 | the loop builds the filtered text and strips it; falsy input gives "" |
| Cleaning.FilterIsSubsequence | cb3.py:239-242 | filtering only deletes characters |
| Cleaning.FilterOfKept | cb3.py:239-242 | text made only of kept characters passes the filter unchanged |
| Cleaning.TrimStartShape | cb3.py:244 | `lstrip` cuts exactly the opening whitespace |
| Cleaning.TrimEndShape | cb3.py:244 | `rstrip` cuts exactly the closing whitespace |
| Cleaning.StripSlice | cb3.py:244 | `strip` returns a contiguous slice of its input |
| Cleaning.StripEnds | cb3.py:244 | what `strip` returns neither starts nor ends with whitespace |
| Cleaning.StripCutsOnlySpace | cb3.py:244 | everything `strip` cuts away is whitespace |
| Cleaning.StripOfStripped | cb3.py:244 | text without surrounding whitespace is left unchanged |
| Cleaning.CleanedShape | cb3.py:233-244 | every output character is `\n`, `\t`, `\r` or printable ASCII, with no whitespace at either end |
| Cleaning.CleanedIsSubsequence | newcommentbuilder.py:202-213 | the output is a subsequence of the input |
| Cleaning.CleanedIdempotent | newcommentbuilder.py:202-213 | cleaning twice equals cleaning once |
| FileExt.RFind | cb3.py:231 | the last position of a character, or -1: it holds that character and no later position does |
| FileExt.SplitExt | cb3.py:231 | `splitext` splits the path into root and extension; the extension is empty, or one dot followed by no dot and no slash |
| FileExt.Lower | cb3.py:231 | ASCII lower-casing, character by character, of the same length |
| FileExt.FileExtension | cb3.py:227-231 | `get_file_extension`: the lower-cased `splitext` extension of the URL's path |
| FileExt.FileExtensionShape | cb3.py:227-231 | the extension is empty, or a single-dot suffix of the path, lower-cased, without '/' and with no upper-case letter |
| FileExt.NamedFileExtension | newcommentbuilder.py:196-200 | a file name with a non-dot character followed by one extension gives that extension lower-cased ("report.v2.PDF" gives ".pdf") |
| FileExt.DotFileHasNoExtension | newcommentbuilder.py:196-200 | a last component that is a dot and an extension (".docx") has no extension |
| Attachments.Downloadable | cb3.py:300-303 | a URL is downloaded iff its extension is `.pdf`, `.docx` or `.doc` |
| Attachments.Extracted | cb3.py:246-272 | the text extracted from a downloaded URL: the PDF decoder's output for `.pdf`, the DOCX decoder's otherwise, cleaned with `clean_text` |
| Attachments.ScanFormats | cb3.py:295-320 | the inner loop from one format on: a truthy URL sets the flag; an eligible one is downloaded; the first non-empty extraction sets the text and ends the loop |
| Attachments.ScanItems | cb3.py:291-320 | the outer loop from one item on: each `attachments` item runs the inner loop, other items are skipped |
| Attachments.Resolve | cb3.py:274-327 | what `process_attachments` returns and downloads: nothing for a missing payload or empty `included`, otherwise the outer loop from the start |
| Attachments.ProcessAttachments | cb3.py:274-327 | the nested loop returns the text, flag and downloads `Resolve` gives; `("", False)` for a missing payload or empty `included` |
| Attachments.ScanFileFormats | cb3.py:293-320 | the loop over one item's `fileFormats` ends in the state `ScanFormats` gives: it marks truthy URLs, downloads only eligible ones, and stops at the first non-empty extraction |
| Attachments.FirstHit | cb3.py:309-320 | the first format from a position on whose download yields text, or the end |
| Attachments.FirstHitIsFirst | cb3.py:309-320 | that format yields text and no earlier format from the starting position does |
| Attachments.EligibleUrls | cb3.py:295-303 | the truthy eligible URLs among some formats, in order |
| Attachments.ScanFormatsDownloads | cb3.py:295-320 | the inner loop downloads exactly the eligible URLs up to and including the first format that yields text, in order; no later format of the item is downloaded |
| Attachments.ScanFormatsHas | cb3.py:295-300 | the inner loop sets the flag exactly when some format from `j` on has a truthy `fileUrl` |
| Attachments.ScanFormatsText | cb3.py:301-320 | the inner loop's text is the first non-empty extraction among its formats, else the text so far |
| Attachments.DownloadOne | cb3.py:303-309 | recording one more eligible URL keeps every recorded URL eligible |
| Attachments.ScanFormatsKeeps | cb3.py:303-320 | the inner loop downloads only non-empty eligible URLs and finds text only after setting the flag |
| Attachments.ScanItemsHas | cb3.py:291-300 | the outer loop sets the flag exactly when some attachment item has a truthy `fileUrl` |
| Attachments.ScanItemsText | cb3.py:291-320 | the outer loop's text is the last non-empty contribution of an item |
| Attachments.ScanItemsKeeps | cb3.py:291-320 | the outer loop keeps both download and flag invariants |
| Attachments.ResolveHasAttachment | cb3.py:276-300 | `has_attachment` is true iff some `attachments` item has a format with a truthy `fileUrl`, whether or not anything is extracted |
| Attachments.ResolveText | cb3.py:276-320 | the text is the last item's first non-empty extraction; "" when the payload is missing or yields none |
| Attachments.ResolveDownloadsAndText | cb3.py:303-320 | only non-empty `.pdf`/`.docx`/`.doc` URLs reach `download_file`; text is found only when an attachment is present |
| Attachments.LastTextIsLast | newcommentbuilder.py:260-296 | the text is "" iff no item contributes; otherwise it is one item's contribution and no later item contributes |
| Attachments.FormatYieldsText | cb3.py:309-315 | an eligible URL that yields text sets the text, records the download and ends the item's scan |
| Attachments.LaterAttachmentWins | cb3.py:291-320 | when two attachment items both yield text, both are downloaded and the second one's text is returned |
| Attachments.FirstFormatWins | cb3.py:313-315 | for an item with two eligible formats where the first yields text: the scan ends with that text and only the first URL downloaded |
| Rows.Reconcile | cb3.py:383-388 | attachment text wins iff it is non-empty and strictly longer; the flag says which text won |
| Rows.RemoveHyphens | cb3.py:332 | the result has no hyphen and keeps every other character the same number of times; `RemoveHyphensConcat` and `RemoveHyphensOne` give their order |
| Rows.RemoveHyphensConcat | cb3.py:332 | removing hyphens works piece by piece, so the other characters keep their order |
| Rows.RemoveHyphensOne | cb3.py:332 | a single hyphen vanishes and any other single character is kept |
| Rows.OutputFileName | cb3.py:331-332 | the file name: the docket id without hyphens, `_comments_`, the timestamp and `.csv` |
| Rows.RowAttributes | cb3.py:360-364 | a row is filled from the detail payload's attributes when the detail was fetched, from the list item's otherwise |
| Rows.BuildRow | cb3.py:343-391 | the row for one comment: the id, the fields of `RowAttributes` with "" for missing ones, and, when extraction is on and a detail was fetched, the attachment flag and the reconciled text |
| Rows.SaveCommentsToCsv | cb3.py:329-394 | one row per comment in input order, each the row `BuildRow` gives; the file name is `OutputFileName` |
| Rows.RowFlags | cb3.py:377-391 | `fromAttachment` implies `hasAttachment`; the attachment text wins iff extraction ran on a payload and the text is non-empty and strictly longer; ties keep the inline text; the written text is never shorter than the attachment text |
| Rows.RowSources | cb3.py:343-375 | the id comes from the list item; with a payload every field comes from the payload's attributes, otherwise from the list item's; missing fields become ""; without extraction no attachment is reported |
| Rows.PdfOnlyComment | newcommentbuilder.py:344-360 | a comment with no inline text and one PDF attachment that yields text gets that cleaned text, with both flags set |
| Rows.ReconcileCases | cb3.py:383-388 | the four reference cases: nothing, a longer attachment, a shorter attachment, a tie |
| Rows.FileNameDistinguishesRuns | cb3.py:331-332 | different timestamps give different file names for one docket, and the docket part has no hyphen |
| Cb3Main.RunEnding | cb3.py:436-507 | how `main` ends: no keys, no docket id, no documents, no comments among the first 500, or the saved rows of those comments |
| Cb3Main.RunHarvest | cb3.py:436-510 | `main` ends as `RunEnding` says: no keys, no docket id, no documents, no comments, or the saved rows |
| Cb3Main.RunSavesWhenFound | cb3.py:440-505 | rows are saved iff there is a key, a docket id, a document and a comment; then at most 500 rows, one per gathered comment in order, go to the docket's file |
| NcbMain.CollectDocketComments | newcommentbuilder.py:414-419 | the loop over documents gathers every truthy-`objectId` document's uncapped comments, in document order |
| NcbMain.RunEnding | newcommentbuilder.py:392-428 | how `main` ends: no docket id, no documents, no comments, or the saved rows of every comment |
| NcbMain.RunHarvest | newcommentbuilder.py:382-428 | `main` rotates the queue `random_start` times, so it starts at `API_KEYS[random_start]`, then ends as `RunEnding` says |
| NcbMain.RunSavesWhenFound | newcommentbuilder.py:396-426 | rows are saved iff there is a docket id, a document and a comment; then one row per gathered comment, in order, goes to the docket's file |

## Left out

- HTTP itself, `download_file`, JSON parsing, PyPDF2 and docx2txt are outside the model. They become the inputs `net`, the page replies, the details function and `Attachments.Env`. The `PDF_SUPPORT` and `DOCX_SUPPORT` flags are folded into `Env`: a missing decoder yields "".
- `time.sleep`, `print`, the progress messages and `check_dependencies` have no effect on results.
- `tempfile.mkdtemp` and `shutil.rmtree` are left out. They only scope where downloads land.
- `datetime.now()`, `random.randint`, `input()`, `sys.argv` and `load_api_keys_from_file` become parameters: the timestamp, `randomStart`, the docket id, `extractAttachments` and the key list.
- `urlparse` is an input (`Env.urlPath`); only `os.path.splitext` and `lower()` are modelled.
- `lower()` is modelled on ASCII letters only. Python also lower-cases other letters; no eligible extension contains any.
- The details payload a row uses is an input function of the comment id. The model does not tie it to the fetcher's state across rows. Both fetchers are still modelled with global attempt numbers, so successive calls see different outcomes.
- A missing payload and an empty payload are both `None` in the model. Python treats both as falsy.
- A JSON `null` is read as an absent key, so the reader's default applies. In Python `d.get(key, default)` returns `None` for a key holding `null`, and the code then raises an exception that the model does not capture:
  - `data` or `fileFormats` set to `null` raises a `TypeError` when it is iterated or extended (cb3.py:124, cb3.py:295, newcommentbuilder.py:111, newcommentbuilder.py:145);
  - `meta` set to `null` raises an `AttributeError` (cb3.py:126, cb3.py:178, newcommentbuilder.py:113, newcommentbuilder.py:147);
  - a document's or an included item's `attributes` set to `null` raises an `AttributeError` (cb3.py:485, cb3.py:293);
  - a detail payload whose `data` or `data.attributes` is `null` raises an `AttributeError` (cb3.py:362-367).
- The page replies are a finite sequence; a request past its end reads as a failed request. `Paging.HarvestIgnoresLaterReplies` shows this changes nothing once a page in the sequence stops the loop.
- Cb3Harvest.GetCommentsForDocument: takes the cap as an `int`. The `max_comments=None` default is never used by `main`; without a cap the loop is `Paging.CollectAll`.
- The `totalElements` progress report in the comment paginators is not modelled. With a numeric value it only prints; a `null` or string value raises a `TypeError` at the comparison (cb3.py:193, newcommentbuilder.py:158), which the model does not capture.
- `requests.get` is called without a timeout (cb3.py:66, newcommentbuilder.py:63). The attempt bounds of `Cb3Keys.FetchBoundedAndOkOnly` and `NcbKeys.FetchBoundedAndOkOnly` count attempts; they are not time bounds.
- The paginators loop with `while True` and no page limit, so a server that always reports `hasNextPage` keeps them running forever. The model's page replies are finite, and a request past their end reads as a failure; only that makes the modelled loops stop.
- NcbKeys.GetCommentDetails: takes the attempt budget of each call as the parameter `maxRetries` rather than fixing it at the source's default of 5; every property holds for each budget, 5 included.
- `app.py`, the web layer, is not part of this model.
