# AMBOSS screenshot scraper — verified model of its bookkeeping core

The scraper collects article URLs of the AMBOSS web library and stores them as jobs in a
SQLite job store. Each job is then visited with a logged-in browser, which expands every
collapsed section, checks that nothing is still hidden, and screenshots the article section
by section. This project models the parts of that pipeline that are decisions, arithmetic
and bookkeeping rather than browser automation:

- **Job store** (`Db`). `DatabaseManager` is a class holding the three tables:
  - `urls`, keyed by slug, with `order` keeping rowid order;
  - `runs`, keyed by (run id, slug);
  - `images`, in rowid order.

  Its methods keep the status CHECK constraint, the primary keys and the foreign keys as a
  class invariant.
- **Batch bookkeeping** (`Tasks`). This covers `process_pending_urls`, `retry_failed_urls`,
  `_save_results` and the result of `process_slug`. The browser work of one visit is an
  oracle value (`Visit`) supplied by the caller.
- **Screenshot geometry and naming** (`Shooter`): file-name sanitising, the section clips,
  the chunk loop over the content area, header filtering and sorting, and section numbering.
- **URL extraction and cleaning**:
  - `SearchExtractor` and `ExtractAmbossUrls`: cleaning and the "show more" loops;
  - `FastProcessor` and `FastAmbossProcessor`: the line parser and the batch counters;
  - `Discover`: the crawler;
  - `SimpleSlugExtractor`.

  URL parsing (`Urls`) follows Python's `urlsplit` rules, and the regular expressions are
  character-class predicates.
- **Validation and expansion decisions** (`Validator`, `Expander`). A page is an abstract
  list of elements (`Dom`): each has the selectors it matches, a visibility flag, and
  whether clicking it raises. Selectors whose query raises are listed too.

Shared modules:

| Module | Contents |
|---|---|
| `Wrappers` | Option, Result and Outcome |
| `Text` | Python string operations |
| `LexOrder` | code-point string order and `sorted(set(...))` |
| `Sorting` | stable in-place `list.sort(key=...)` |
| `Retry` | tenacity's `@retry(stop_after_attempt(n))` |

## Model

| member | source | states |
|---|---|---|
| Db.DatabaseManager.constructor | amboss/db.py:33-70 | A fresh store has three empty tables and satisfies the table invariant (admitted statuses, primary keys, foreign keys). |
| Db.DatabaseManager.AddUrl | amboss/db.py:73-84 | Always reports True. An existing slug keeps its row untouched. A new slug gets a `pending` row with no error and retry count 0, appended in rowid order. |
| Db.DatabaseManager.PendingUrls | amboss/db.py:86-93 | Returns only `pending` rows with their URL. A positive limit bounds the count; `None` or a non-positive limit does not truncate. |
| Db.PendingUrlsAll | amboss/db.py:86-93 | Without a positive limit every pending row is returned. |
| Db.PendingUrlsDistinct | amboss/db.py:86-93 | No slug is returned twice, and each returned slug has a row. |
| Db.PendingUrlsFilled | amboss/db.py:86-93 | With `n` distinct pending slugs present, `LIMIT n` returns exactly `n` rows. |
| Db.DatabaseManager.FailedUrls | amboss/db.py:95-100 | Each returned row has status `failed_expansion` or `failed_validation` and carries that row's URL and last error. |
| Db.FailedUrlsComplete | amboss/db.py:95-100 | Every failed row is returned, so with the previous row the result is exactly the failed rows. |
| Db.FailedUrlsDistinct | amboss/db.py:95-100 | No failed slug is returned twice. |
| Db.FailedOfDistinct | amboss/db.py:95-100 | Selecting from distinct slugs gives distinct slugs. |
| Db.WithStatusDistinct | amboss/db.py:86-93 | Selecting by status from distinct slugs gives distinct slugs. |
| Db.LikeFailedOnStatuses | amboss/db.py:40 | On the five admitted statuses, `LIKE 'failed_%'` (ASCII case-insensitive) holds exactly for the two failure statuses. |
| Db.FailedOfMembers | amboss/db.py:95-100 | A slug is selected exactly when it is listed, has a row and its status is LIKE `failed_%`. |
| Db.FailedOfStatuses | amboss/db.py:40 | Under the CHECK constraint, the LIKE query selects only the two failure statuses. |
| Db.DatabaseManager.UpdateUrlStatus | amboss/db.py:102-114 | A status outside the CHECK set raises (`CheckStatusError` stands in for SQLite's message) and changes nothing. An unknown slug changes nothing. Otherwise only that row changes: a non-empty error sets `last_error` and adds exactly 1 to `retry_count`; `None` or `""` changes only the status. |
| Db.DatabaseManager.StartRun | amboss/db.py:116-127 | Succeeds exactly when the (run id, slug) key is new and the slug exists. It then adds an open run; otherwise nothing changes. |
| Db.DatabaseManager.FinishRun | amboss/db.py:129-135 | Only the matching run row changes: it becomes finished with the given outcome and error. A missing run changes nothing. |
| Db.DatabaseManager.AddImage | amboss/db.py:137-143 | Fails exactly when (run id, slug, idx) is taken (unique-key error) or the run is missing (foreign-key error). Otherwise it appends exactly the new row. |
| Db.DatabaseManager.RunImages | amboss/db.py:145-151 | Returns one run's rows, each of that run and slug, ascending by `idx`, as a permutation of that run's rows. |
| Db.RowsOfMembers | amboss/db.py:145-151 | The rows of one run are exactly the image rows with that run id and slug. |
| Db.DatabaseManager.GetStats | amboss/db.py:153-176 | The three totals are the table sizes. A status is a key of `urls_by_status` exactly when some row has it. Its count is the number of url rows with that status, so it is positive. |
| Db.StatsAddUp | amboss/db.py:153-176 | The per-status counts over the admitted statuses add up to `total_urls`. |
| Db.StatusTotalAll | amboss/db.py:153-176 | Summing the per-status counts over distinct statuses that cover every row counts each row once. |
| Db.MapTotalIsStatusTotal | amboss/db.py:153-176 | A map holding the per-status counts sums to the per-status total. |
| Db.StatusListDistinct | amboss/db.py:40 | The five admitted statuses are pairwise different. |
| Db.WithStatusMembers | amboss/db.py:86-93 | `WHERE status = st` selects exactly the listed slugs with a row of that status. |
| Db.DistinctIndices | amboss/db.py:74 | "No repetitions", stated element by element, equals the positional statement. |
| Tasks.ScrapingTask.constructor | amboss/tasks.py:29-32 | A new task has no job store attached. |
| Tasks.AsTuple | amboss/tasks.py:94-104 | `process_slug` returns `(True, None)` exactly on success and `(False, message)` otherwise. |
| Tasks.Navigate | amboss/tasks.py:195-205 | Navigation succeeds exactly when one of its 3 attempts succeeds. After 3 failures the error is the text of tenacity's `RetryError`: the last future's address and the type of the exception the last attempt raised, not its message. |
| Tasks.Precheck | amboss/tasks.py:65-86 | The steps before the screenshots, in order: open, navigate, authenticate, expand (as written, without `reraise`), validate. The first failure decides the outcome, which is never a saving failure. |
| Tasks.PrecheckPasses | amboss/tasks.py:65-86 | A visit reaches the screenshots exactly when the page opens, navigation succeeds, the session is valid, one of the four expansion checks finds nothing hidden, and the page validates. |
| Tasks.PrecheckAuthentication | amboss/tasks.py:75-76 | Once navigation works, a failed session check is exactly the outcome "Authentication failed". |
| Tasks.PrecheckExpansion | amboss/tasks.py:78-79 | The visit fails while expanding exactly when the earlier steps pass and all four expansion checks still find hidden sections; the recorded message is the `RetryError` text naming `ExpansionFailure`, not the count. |
| Tasks.PrecheckValidation | amboss/tasks.py:81-86 | Validation fails the visit exactly when all earlier steps passed and a hidden section is still visible. The message names that count in Python's list repr. |
| Tasks.VisitOutcomesAt | amboss/tasks.py:133-141 | Entry `k` of the batch's foreseen outcomes is that of slug `k`. |
| Tasks.VisitOutcomes | amboss/tasks.py:133-141 | One foreseen outcome per slug of the batch. |
| Tasks.AllFollowAt | amboss/tasks.py:133-141 | The recursive "each outcome follows its visit" equals the positional statement. |
| Tasks.VisitOutcome | amboss/tasks.py:54-104 | How a visit ends when saving cannot fail. It succeeds exactly when the checks, the capture and closing all pass; a failed open is the outcome; once open, a close failure replaces any other result; otherwise the first failing check, then a capture failure, decides. Never a saving failure. |
| Tasks.FollowsExactly | amboss/tasks.py:88-104 | Outcomes that follow their visits, none of which failed while saving, are exactly the foreseen outcomes. |
| Tasks.ScrapingTask.ProcessSlug | amboss/tasks.py:54-104 | The outcome follows the visit: a failure `VisitOutcome` foresees (a check, the screenshot capture, or closing the page, which overrides even a success) is the outcome; otherwise the visit succeeds or fails while saving. No image row is added unless the checks and the capture pass. With an open run and no earlier rows for it, the outcome is exactly `VisitOutcome`. |
| Tasks.ScrapingTask.ShootAndSave | amboss/tasks.py:88-92 | When `shoot_sections` raises, the outcome is a capture failure with its message and no row is added. Otherwise only image rows are appended, and the outcome is success or a unique-key or foreign-key error while saving. With an open run and no earlier rows for it, saving succeeds. |
| Tasks.ScrapingTask.SaveResults | amboss/tasks.py:227-238 | Without a store nothing happens and the result is a pass. Otherwise rows are appended one per tuple, in order, stopping at the first insert that raises. With an open run, no earlier rows and rising indices, every tuple is saved. |
| Tasks.SaveShots | amboss/tasks.py:237-238 | The `add_image` loop appends the rows of a prefix of the tuples and fails only on a taken key or a missing run. With an open run, no earlier rows and rising indices it saves them all. |
| Tasks.SaveShot | amboss/tasks.py:238 | One `add_image`: the row is appended on success. A failure is a unique-key or a foreign-key error, and neither occurs under the conditions above. |
| Tasks.KeyFree | amboss/db.py:63-64 | With no earlier rows for the run and rising section indices, the key of the next tuple is still free. |
| Tasks.ImageRowsAt | amboss/tasks.py:237-238 | Image row `k` records tuple `k` under the run id and slug. |
| Tasks.ImageRows | amboss/tasks.py:237-238 | One image row per screenshot tuple. |
| Tasks.ImageRowsStep | amboss/tasks.py:237-238 | Saving one more tuple appends exactly its row. |
| Tasks.StatusAfterAsWritten | amboss/tasks.py:143-150 | The status the loop writes: `done` exactly on success, admitted by the CHECK constraint, never `failed_validation`. |
| Tasks.ValidationFailureRecordedAsExpansion | amboss/tasks.py:148 | A visit that fails validation (and closes cleanly) ends as a validation failure, yet is recorded as `failed_expansion`, where the intended status is `failed_validation`. |
| Tasks.StatusAfter | amboss/tasks.py:143-150 | The intended status (not what line 148 writes): `done` exactly on success, `failed_validation` exactly for a validation failure, `failed_expansion` exactly for any other failure. |
| Tasks.Settled | amboss/tasks.py:143-150 | The row as the loop leaves it: URL kept, `done` exactly on success and `failed_expansion` for every failure. A non-empty failure message becomes the last error and adds 1 to the retry count; otherwise both are kept. |
| Tasks.SettledAsIntended | amboss/tasks.py:143-150 | The intended row: `done` exactly on success, `failed_validation` exactly for a validation failure; error and retry count as in the written row. |
| Tasks.SettledAsIntendedUnlessValidation | amboss/tasks.py:148 | The written row equals the intended row exactly when the visit did not fail validation. |
| Tasks.RunAfter | amboss/tasks.py:145-149 | The closed run row is finished, `ok` equals success, and its error is the message. |
| Tasks.OpenSlug | amboss/tasks.py:134-138 | The slug is marked `processing` and logged. The run is opened exactly when its key is new, in which case it has no image rows. |
| Tasks.RecordOutcome | amboss/tasks.py:143-149 | The slug gets `done`, or `failed_expansion` with the message as error, exactly as line 148 writes it; the change is logged, and the run is closed with the outcome. |
| Tasks.ScrapingTask.ProcessOne | amboss/tasks.py:133-150 | One loop pass: the slug's row is settled as written (`done` or `failed_expansion`), its run closed, two status changes logged (`processing`, then final) and only image rows appended. The outcome follows the visit; with a fresh run key it is exactly `VisitOutcome`. |
| Tasks.SuccessCount | amboss/tasks.py:130-150 | The number of successes never exceeds the number of visits. |
| Tasks.SuccessCountAll | amboss/tasks.py:130-150 | All visits succeed exactly when the count equals their number. |
| Tasks.SettleAllEffect | amboss/tasks.py:133-150 | For distinct slugs, each ends with its row settled as written, and rows outside the batch are unchanged. |
| Tasks.BatchStatuses | amboss/tasks.py:133-150 | After a batch of distinct slugs, each is `done` exactly when its visit succeeded and `failed_expansion` otherwise; none is `failed_validation`. |
| Tasks.SettleAll | amboss/tasks.py:133-150 | Settling the batch keeps the set of slugs with rows. |
| Tasks.CloseAll | amboss/tasks.py:135-149 | The run keys after the batch are the old ones plus one per batch slug under the batch's single run id. |
| Tasks.CloseAllEffect | amboss/tasks.py:135-149 | Each batch slug ends with its closed run, and runs of other ids or slugs are unchanged. |
| Tasks.BatchStep | amboss/tasks.py:133-150 | One more loop pass extends the urls, runs, status log (`processing`, then `done` or `failed_expansion`) and success count by exactly that slug's changes. |
| Tasks.FreshRunKey | amboss/tasks.py:112-113 | A run id no earlier run used gives every slug of the batch a new run key. |
| Tasks.RowsDone | amboss/tasks.py:133-150 | After the last slug, the loop state is the batch's final state. Every outcome follows its visit, and with a fresh run id no visit fails while saving (capture and close failures can still occur). |
| Tasks.FollowStep | amboss/tasks.py:133-150 | The next outcome, following its visit, extends the "all follow" relation. |
| Tasks.ScrapingTask.ProcessRows | amboss/tasks.py:129-150 | The counters are `successful == SuccessCount(outcomes)` and `failed == n - successful`. `urls`, `runs` and the status log equal the batch functions of the old tables; images only grow. Each batch slug ends `done` exactly when its visit succeeded and is never `failed_validation`. With a fresh run id, outcomes equal `VisitOutcomes`. |
| Tasks.ScrapingTask.ProcessPendingUrls | amboss/tasks.py:106-167 | The pending rows are fetched once. With none, the result is `(0, 0, 0)` with no run id and no image is added. Otherwise `processed` is their number, `successful + failed == processed`, and the run id is reported. Tables and log equal the batch functions; each fetched slug ends `done` exactly when its visit succeeded and never `failed_validation`; with a fresh run id every outcome is its `VisitOutcome`. |
| Tasks.ResetAll | amboss/tasks.py:188-190 | Resetting keeps the set of slugs with rows. |
| Tasks.ResetAllEffect | amboss/tasks.py:188-190 | A reset row becomes `pending` with its URL, last error and retry count kept; every other row is unchanged. |
| Tasks.ResetPending | amboss/tasks.py:180-190 | Every failed slug is then `pending`, and every pending row was pending or failed before. |
| Tasks.ResetLog | amboss/tasks.py:189-190 | The reset loop logs one `pending` change per slug, in order. |
| Tasks.ResetStep | amboss/tasks.py:189-190 | One more pass of the reset loop resets and logs one more slug. |
| Tasks.ResetFailed | amboss/tasks.py:188-190 | The `urls` table and status log after the loop equal the reset functions of the old ones. |
| Tasks.FetchAndResetFailed | amboss/tasks.py:179-190 | Returns exactly the failed rows and resets them. Afterwards the pending query limited to their number returns that many rows, and each pending row was pending or failed before. |
| Tasks.ScrapingTask.RetryFailedUrls | amboss/tasks.py:169-193 | Nothing to retry exactly when there are no failed rows, and then nothing changes. Otherwise it resets them, then runs a batch limited to their number (`processed` equals that number). Every slug processed was pending or failed before, so it need not be a reset slug, and it ends `done` or `failed_expansion`, never `failed_validation`. |
| Shooter.ReplaceBad | amboss/shooter.py:330 | Each of `< > : " / \ \| ? *` becomes `_`; every other character is kept, and the length is unchanged. |
| Shooter.SanitizeFilename | amboss/shooter.py:325-339 | The result is non-empty and at most 50 long. It has none of the bad characters and neither starts nor ends with a space or dot. |
| Shooter.StripKeepsGoodChars | amboss/shooter.py:333 | Stripping spaces and dots introduces no bad character. |
| Shooter.SanitizeKeepsSafe | amboss/shooter.py:325-339 | A name that is already safe is returned unchanged. |
| Shooter.SanitizeIdempotent | amboss/shooter.py:325-339 | Sanitising twice equals sanitising once. |
| Shooter.SectionClipInArea | amboss/shooter.py:272-299 | Keeps the area's x and width, with y = max(area top, header - 50). The height is exactly the smaller of 1200 (first section) or 1000 and the distance from y to the area bottom, so the bottom is within the area. The height is negative exactly when header - 50 lies below the area bottom. |
| Shooter.NegativeClipBelowArea | amboss/shooter.py:290-297 | A header at y = 1400 under the fixed content area gets a clip of height -94. |
| Shooter.SectionClip | amboss/shooter.py:301-323 | x = 0, y = max(0, header - 50), the viewport width, and height = min(1200 or 1000, viewport height). |
| Shooter.CeilDiv | amboss/shooter.py:206-237 | A height in (1000(n-1), 1000n] gives exactly n chunks. |
| Shooter.CaptureContentArea | amboss/shooter.py:190-243 | Yields ⌈height/1000⌉ chunks numbered 0, 1, … with names `content_chunk_NNN_slug.png`. Each is 1 to 1000 high, each starts where the previous ends, the first at the area top and the last ending exactly at the bottom. |
| Shooter.KeptHeaders | amboss/shooter.py:112-128 | A header is kept exactly when it is visible, has a box, and lies horizontally within the content area. |
| Shooter.KeptHeadersAppend | amboss/shooter.py:112-128 | Keeping distributes over concatenation: candidates are kept in selector and document order, each as often as it occurs. |
| Shooter.KeptHeadersOne | amboss/shooter.py:112-128 | One candidate is kept exactly when it is in the area. |
| Shooter.GetSectionHeaders | amboss/shooter.py:98-132 | The kept headers, as a permutation, ascending by y. |
| Sorting.SortByKey | amboss/shooter.py:131 | `sort(key=...)` yields ascending keys and the same multiset. |
| Sorting.SortByKeyStable | amboss/shooter.py:131 | The sort is stable: for every key, the elements with that key keep their input order. |
| Sorting.InsertByKeyStable | amboss/shooter.py:131 | Inserting into a sorted list puts the new element after every element with the same key. |
| Sorting.WithKeyAppend | amboss/shooter.py:131 | Selecting one key's elements commutes with concatenation. |
| Sorting.InsertByKeyAscending | amboss/shooter.py:131 | Inserting by key keeps a key-sorted list sorted. |
| Shooter.SectionTitle | amboss/shooter.py:151-155 | A non-empty header text gives a safe name. Otherwise the title is `section_` plus the index. It is never empty and never has a bad character. |
| Shooter.CapturedIndicesShape | amboss/shooter.py:61-72 | The tuple indices rise strictly and are missing exactly where a capture raised. |
| Shooter.CapturedIndices | amboss/shooter.py:61-72 | The indices of the captured sections lie below the number of headers. |
| Shooter.CaptureSections | amboss/shooter.py:60-72 | Tuple `k` is the shot of the `k`-th header whose capture did not raise, named `sec_NNN_title.png` with the header's sorted position as index. |
| Shooter.ShootSections | amboss/shooter.py:27-78 | What it raises is `ShootOutcome`, and then it returns no tuple. Otherwise the headers are the kept ones, sorted by y; with none, the fixed 1200-pixel content area gives exactly chunks 0 and 1, and otherwise it returns the captured sections. Indices always rise. |
| Shooter.ShootOutcome | amboss/shooter.py:38-59 | `shoot_sections` raises exactly when creating the directory raises, or when no header is kept and the content-area capture (which re-raises, lines 241-243) raises; the exception is the directory's when both could. |
| Text.Pad3 | amboss/shooter.py:172 | `f"{n:03d}"` is at least three digits and reads back as `n`. |
| Text.NatToStringRoundTrip | amboss/shooter.py:172 | A number's decimal text reads back as that number. |
| SearchExtractor.FilterMap | amboss/search_extractor.py:181-186 | Every output is the cleaned form of a kept input, and every kept input's cleaned form is in the output. |
| SearchExtractor.CleanUrls | amboss/search_extractor.py:175-189 | The result is strictly ascending (sorted, no duplicates). `x` is in it exactly when `x` is the cleaned form of an input matching the article pattern. The `_clean_urls` of extract_amboss_urls.py (lines 137-151) is the same rule. |
| SearchExtractor.CleanUrlsShape | amboss/search_extractor.py:181-186 | Every output still matches the article pattern, carries no query or fragment, and is its own cleaned form. |
| Urls.CleanArticle | amboss/search_extractor.py:181-186 | A URL matching the article pattern cleans to a prefix of itself that still matches with the same id. |
| Urls.ParseSeparators | amboss/search_extractor.py:186 | `urlparse` splits so that no component holds the separator that ends it: no `/`, `?` or `#` in the netloc, no `?` or `#` in the path, no `#` in the query. |
| Urls.CleanHasNoQueryOrFragment | amboss/search_extractor.py:186 | The cleaned URL `scheme://netloc/path` has no query and no fragment. |
| Urls.CleanKeepsMatch | amboss/search_extractor.py:185-186 | Cleaning an article URL keeps a prefix that still contains the whole matched id. |
| Urls.PathOfKeeps | amboss/search_extractor.py:186 | The path reaches at least to the first `?`, `#` or `;`, and stops only at one of them. |
| Urls.PathOfIdempotent | amboss/search_extractor.py:186 | Taking the path of a path changes nothing. |
| Urls.MatchPrefixRun | amboss/search_extractor.py:23 | `re.match(prefix + '([class]+)')` matches exactly when the prefix is followed by a class character, and captures the longest run of them. |
| Urls.MatchConfigured | amboss/config.py:55-58 | `article_pattern` matches exactly when the article or the knowledge alternative does. The capture is a non-empty run of class characters after one of the two prefixes. |
| Urls.NormalizeHasNoFragment | amboss/discover.py:87-90 | The normalised link `scheme://netloc path[?query]` never has a fragment. |
| SearchExtractor.CleanUrlsDependOnlyOnCleanedSet | amboss/search_extractor.py:177-189 | Two inputs with the same cleaned matches give the same list. |
| SearchExtractor.CleanUrlsIdempotent | amboss/search_extractor.py:175-189 | Cleaning the cleaned list changes nothing. |
| LexOrder.SortedSet | amboss/search_extractor.py:189 | `sorted(list(set(...)))` is strictly ascending with the same elements. |
| LexOrder.AscendingUnique | amboss/search_extractor.py:189 | A strictly ascending list is determined by its set of elements. |
| LexOrder.LessTransitive | amboss/search_extractor.py:189 | Python's string order is transitive. |
| LexOrder.LessTotal | amboss/search_extractor.py:189 | Python's string order is total. |
| SearchExtractor.ArticleLinks | amboss/search_extractor.py:150-173 | The in-page filter keeps exactly the hrefs containing `/de/article/`. |
| SearchExtractor.CleanUrlsOfArticleLinks | amboss/search_extractor.py:150-189 | Filtering hrefs in the page first does not change the cleaned list. |
| SearchExtractor.ArticleMatchContainsArticlePath | amboss/search_extractor.py:150-189 | Every URL the article pattern matches contains `/de/article/`, so the in-page filter drops no article. |
| SearchExtractor.ProducedOfSubsequence | amboss/search_extractor.py:177-186 | Two inputs with the same kept elements produce the same cleaned URLs. |
| SearchExtractor.ExpandAllResults | amboss/search_extractor.py:75-137 | At most 50 counted attempts, each of which raised or clicked with a changed link count. The stop reason is exhaustion exactly at 50. Otherwise the loop stopped at a pass without a button, or at a click that left the count unchanged. |
| SearchExtractor.ExtractArticleUrls | amboss/search_extractor.py:38-73 | Succeeds exactly when authenticated, returning the cleaned list of the page's hrefs. Otherwise it fails with the authentication message. |
| ExtractAmbossUrls.ExtractUrls | extract_amboss_urls.py:32-68 | Same as the package's extractor: the cleaned hrefs when authenticated, otherwise the script's own authentication error. |
| ExtractAmbossUrls.TryButtons | extract_amboss_urls.py:86-100 | A button is found exactly when some selector's probe clicks, and it is the first such one. A raising probe is passed over. |
| ExtractAmbossUrls.ExpandAllResults | extract_amboss_urls.py:70-114 | At most 50 attempts, each a click or a raised pass. The cap is reported exactly at 50. An earlier stop means a pass found no button. With no progress check, 50 counted passes always exhaust the cap. |
| ExtractAmbossUrls.SaveToFile | extract_amboss_urls.py:153-165 | Succeeds exactly when the file opens. It then writes each URL followed by `\n`, in order; otherwise it writes nothing. |
| ExtractAmbossUrls.SavedListReadsBack | extract_amboss_urls.py:153-165 | Clean, whitespace-free article URLs that are saved are read back unchanged, in order, by `extract_urls_from_file`. |
| ExtractAmbossUrls.LinesReadBack | amboss/fast_processor.py:38-61 | Lines that each read back as themselves read back in order from the joined text. |
| ExtractAmbossUrls.LineReadsBack | amboss/fast_processor.py:40-61 | A clean, whitespace-free article URL on its own line reads back as itself. |
| ExtractAmbossUrls.NotSkipped | amboss/fast_processor.py:42 | A line starting with `h` is neither blank nor a header line. |
| ExtractAmbossUrls.LineReadsBackFirst | amboss/fast_processor.py:38-61 | The first saved line is read back in front of the rest. |
| FastProcessor.Candidate | amboss/fast_processor.py:45-54 | A line not starting with a digit, or without `". "`, is its own candidate. Otherwise the candidate is a prefix of the text between the first and second `". "`. |
| FastProcessor.CandidateOfListing | amboss/fast_processor.py:45-51 | The listing line `N. url - title` gives back exactly `url`, for a URL without spaces that does not end in `.`. |
| FastProcessor.AfterNumber | amboss/fast_processor.py:46-47 | After a run of digits, the first `". "` is the one following them. |
| FastProcessor.BeforeFirst | amboss/fast_processor.py:48-49 | `split(sep)[0]` is the text before the first occurrence. |
| FastProcessor.CutAtDash | amboss/fast_processor.py:48-49 | Cutting at the first `" - "` returns the space-free text before it. |
| FastProcessor.NoStopBeforeDash | amboss/fast_processor.py:47-49 | A space-free URL not ending in `.` and followed by `" - "` holds no `". "` before the dash. |
| FastProcessor.LineUrl | amboss/fast_processor.py:40-61 | A line contributes only a clean article URL: matching the pattern, with no query or fragment, and its own cleaned form. |
| FastProcessor.UrlsOfLinesClean | amboss/fast_processor.py:57-61 | Every URL read from a file is a clean article URL. |
| FastProcessor.UrlsOfLines | amboss/fast_processor.py:39-61 | No more URLs than lines. |
| FastProcessor.UrlsOfLinesAppend | amboss/fast_processor.py:39-61 | Lines are read independently and in file order, so duplicates stay and nothing is reordered. |
| FastProcessor.UrlsOfLinesStep | amboss/fast_processor.py:39-61 | One more line appends its URL, if any. |
| FastProcessor.UrlsOfOneLine | amboss/fast_processor.py:39-61 | One line gives its URL or nothing. |
| FastProcessor.UrlsOfLinesPointwise | amboss/fast_processor.py:39-61 | Lines that each yield one URL read back as exactly those URLs, in order. |
| FastProcessor.SkippedLinesContributeNothing | amboss/fast_processor.py:40-43 | Blank lines and the three header lines contribute nothing. |
| FastProcessor.ExtractUrlsFromFile | amboss/fast_processor.py:32-71 | A file that cannot be opened or read gives `[]`. Otherwise the result is the URLs of its lines in file order. The reader of fast_amboss_processor.py (lines 40-79) is the same code. |
| Text.FileLines | amboss/fast_processor.py:39 | Iterating a text file gives pieces each ending just after a newline, except possibly the last. |
| FastProcessor.ProcessArticleReading | amboss/fast_processor.py:73-125 | Success exactly when there is no message. A URL outside the pattern gets `(False, "Invalid URL format")`. Otherwise, with the page open and closed cleanly, the reply is that of the page steps. |
| FastProcessor.PageSteps | amboss/fast_processor.py:83-125 | Success exactly when navigation, authentication, one of the four expansion checks, the validation key read and capture all pass. Four failed expansion checks raise `RetryError`, which the `ExpansionFailure` branch does not catch: the reply is "Processing error: " and the `RetryError` text. |
| FastProcessor.InvalidUrlFormatIff | amboss/fast_processor.py:77-79 | `"Invalid URL format"` is the reply for exactly the URLs outside the article pattern. |
| FastProcessor.ProcessArticleAsWrittenNeverSucceeds | amboss/fast_processor.py:101 | Reading `is_valid`, no article ever succeeds. A page passing every step is refused with `"Validation failed: []"`. |
| FastProcessor.SucceededAsWrittenIsZero | amboss/fast_processor.py:101 | As written, no URL of a batch succeeds. |
| FastProcessor.ProcessArticleSucceedsIff | amboss/fast_processor.py:73-125 | With the keys `validate_page` sets, an article succeeds exactly when it matches, opens and closes cleanly, every step passes and no hidden section is visible. |
| FastProcessor.CorrectKeysAccept | amboss/validator.py:29-65 | A page passing every step is accepted with the correct keys and refused as written. |
| FastProcessor.Limited | amboss/fast_processor.py:131-132 | `urls[:limit]` under `if limit:`. `None` and 0 keep all URLs; a positive limit keeps min(limit, n); a negative limit drops from the end. The result is always a prefix. |
| FastProcessor.SucceededStep | amboss/fast_processor.py:149-157 | One more URL adds 1 to the successes exactly when it succeeds. |
| FastProcessor.Succeeded | amboss/fast_processor.py:149-157 | The successes never exceed the batch size. |
| FastProcessor.FirstCallRate | amboss/fast_processor.py:175 | With successes at most the total, the rate lies in [0, 1]. |
| FastProcessor.Processor.constructor | amboss/fast_processor.py:23-30 | All three counters start at 0. |
| FastProcessor.Processor.Count | amboss/fast_processor.py:150-157 | One more processed, and one more success or one more failure. |
| FastProcessor.Processor.ProcessAllArticles | amboss/fast_processor.py:127-179 | If the first session check fails, the call raises the authentication error and nothing changes. Otherwise every URL is processed as written (reading `is_valid`): `processed` and `failed` grow by the batch size, `successful` does not change, and on a fresh instance the rate is 0. The report's total is the truncated length. It pauses after every URL but the last. |
| FastProcessor.ProcessNth | amboss/fast_processor.py:149-157 | Processing URL `i` as written adds 1 to the successes exactly when it succeeds, and it never succeeds. |
| FastAmbossProcessor.ProcessArticle | fast_amboss_processor.py:81-139 | Success exactly when there is no message. A URL outside the pattern gets `(False, "Invalid URL format")`; a page that does not open gets "Processing error: " and its error; four failed expansion checks get "Processing error: " and the `RetryError` text, not "Expansion failed". |
| FastAmbossProcessor.ProcessArticleSucceedsIff | fast_amboss_processor.py:81-139 | Success exactly when the URL matches, every step passes and no hidden section is visible. A failure while closing does not matter. |
| FastAmbossProcessor.HiddenSectionsRefused | fast_amboss_processor.py:109-111 | A page still showing `n` hidden sections is refused with the validator's own message. |
| FastAmbossProcessor.AgreesWithPackageProcessor | fast_amboss_processor.py:128-139 | The script agrees with the corrected package processor whenever closing works. When closing raises, only the package processor fails. |
| FastAmbossProcessor.Visit | fast_amboss_processor.py:149-160 | Processing URL `i` adds 1 to the successes exactly when it succeeds. |
| FastAmbossProcessor.Processor.constructor | fast_amboss_processor.py:31-38 | All three counters start at 0. |
| FastAmbossProcessor.Processor.Count | fast_amboss_processor.py:150-160 | One more processed, and one more success or one more failure. |
| FastAmbossProcessor.Processor.ProcessAllArticles | fast_amboss_processor.py:141-181 | There is no session check. The counters grow by the batch size, the successes and the failures, the report's total is the truncated length, and there is no pause after the last URL. |
| Discover.TestUrlCutAsWritten | test_slug_extraction.py:11-12 | With the configured `[a-z0-9-]` class, `…/article/--0D-i` captures `--0`. |
| Discover.TestUrlKept | test_slug_extraction.py:11-12 | With the id class, the whole `--0D-i` is captured. |
| Discover.AsWrittenCutsAtCapital | amboss/config.py:56 | On an article URL the configured pattern fails exactly when the id starts with a capital. Otherwise it captures a prefix of the id, and the whole id exactly when the id has no capital. |
| Discover.SlugPatternAgreesWithArticlePattern | amboss/discover.py:150-152 | The corrected pattern captures exactly what the article pattern captures. |
| Discover.MatchOnOwnText | amboss/discover.py:150-152 | A match found in page text matches again, identically, on its own text. |
| Discover.FindAll | amboss/discover.py:54-55 | Every `finditer` hit matches the pattern in full. |
| Discover.Unseen | amboss/discover.py:54-58 | The kept matches have no repetitions and are exactly the matches not seen before. |
| Discover.UnseenAppend | amboss/discover.py:54-58 | Scanning two pages in turn equals scanning the concatenation, with the second seeing what the first added. |
| Discover.UnseenStep | amboss/discover.py:54-58 | One more match is kept exactly when it was not seen before or earlier on the page. |
| Discover.PrefixesExclusive | amboss/config.py:55-58 | A URL with the article prefix does not have the knowledge prefix, so at most one alternative of the pattern applies. |
| Discover.URLDiscoverer.constructor | amboss/discover.py:21-24 | The discovered set starts empty. |
| Discover.URLDiscoverer.ExtractSlugs | amboss/discover.py:51-59 | Returns the full matches of the configured pattern (slug class `[a-z0-9-]`) not discovered before, in first-occurrence order. All matches are added to the discovered set, so nothing is returned twice on one instance. |
| Discover.HrefAt | amboss/discover.py:64 | `href=`, a quote, a non-empty quote-free value and a quote. |
| Discover.Hrefs | amboss/discover.py:64-68 | Every captured href is non-empty and holds no quote. |
| Discover.LinkOf | amboss/discover.py:67-92 | A contributed link never has a fragment. |
| Discover.LinkOfSkips | amboss/discover.py:70-90 | Anchors and `javascript:`, `mailto:` and `tel:` references are dropped. Absolute `http` links without the site origin are dropped; those with it are only normalised. Root-relative links are joined to the base's origin. |
| Discover.Directory | amboss/discover.py:83-84 | The directory `urljoin` resolves a relative reference against ends with `/`. |
| Discover.SplitOnFreeOf | amboss/discover.py:83-84 | No piece of `s.split(c)` holds `c`. |
| Discover.JoinSplit | amboss/discover.py:83-84 | Joining the pieces of `s.split(c)` with `c` gives back `s`. |
| Discover.SplitOnLast | amboss/discover.py:83-84 | When `y` has no `c`, the pieces of `x + c + y` are those of `x`, then `y`. |
| Discover.SplitOnNonEmpty | amboss/discover.py:83-84 | A string without `cc` that does not end with `c` splits into pieces that are non-empty past the first. |
| Discover.JoinNoDouble | amboss/discover.py:83-84 | Joining `c`-free pieces whose inner pieces are non-empty never puts two `c` side by side. |
| Discover.NonEmpty | amboss/discover.py:83-84 | `filter(None, ...)` keeps only non-empty pieces, and no more than it is given. |
| Discover.NonEmptyAppend | amboss/discover.py:83-84 | Filtering distributes over concatenation, so order is kept. |
| Discover.NonEmptyKeeps | amboss/discover.py:83-84 | Filtering pieces that are all non-empty changes nothing. |
| Discover.MergeSegments | amboss/discover.py:83-84 | `segments[1:-1] = filter(None, segments[1:-1])` leaves the inner segments non-empty, keeps at least one segment, and adds no `/`. |
| Discover.MergedSegments | amboss/discover.py:83-84 | The segments of a relative-path merge hold no `/`, and those strictly between the first and the last are non-empty. |
| Discover.MergePath | amboss/discover.py:83-84 | The path a relative-path reference resolves to is never empty and never holds `//`. |
| Discover.BaseSegmentsPlain | amboss/discover.py:83-84 | For a base path starting with `/` and free of `//`, the segments before its last `/` rejoin to that prefix and are non-empty past the first. The base keeps them, plus one empty segment when the path ends with `/`. The directory is that prefix plus `/`. |
| Discover.MergedOnto | amboss/discover.py:83-84 | Merging keeps all the base's segments and drops the reference's empty segments before its last. |
| Discover.MergePathPlain | amboss/discover.py:83-84 | On a base path starting with `/` and free of `//` (or empty), a one-segment reference resolves to the base's directory followed by the segment. |
| Discover.SplitDoubleSlash | amboss/discover.py:83-84 | `a//c` splits into `a`, an empty segment and `c`. |
| Discover.MergeDropsEmptySegment | amboss/discover.py:83-84 | `a//c` against such a base path resolves to the base's directory, then `a/c`: the empty segment is dropped. |
| Discover.JoinPath | amboss/discover.py:75-76 | A reference whose path is absolute stands as written, query and fragment included. |
| Discover.JoinPathRelative | amboss/discover.py:83-84 | A relative-path reference is merged with the base's path; its query and fragment follow unchanged. |
| Discover.JoinPathOneSegment | amboss/discover.py:83-84 | A one-segment reference without query or fragment resolves to the merged path alone. |
| Discover.UrlJoinSameOrigin | amboss/discover.py:83-84 | A reference without netloc, and with no scheme or the base's scheme, keeps the base's scheme and netloc. |
| Discover.UrlJoinAbsolute | amboss/discover.py:75-76 | A root-relative reference (`/` but not `//`) resolves to the base's scheme and netloc followed by the reference. |
| Discover.CapitalSchemeSplit | amboss/discover.py:77-84 | The scheme of `HTTPS:rest` is read as `https`, with `rest` left over. The case-sensitive `startswith('http')` test sends such a reference to `urljoin`. |
| Discover.SameSchemeResolved | amboss/discover.py:77-84 | A reference that carries the base's scheme but no netloc and no `/` is resolved against the base's path, not taken as an absolute URL. |
| Discover.LinksOf | amboss/discover.py:67-92 | At most one link per href, none with a fragment. |
| Discover.LinksOfStep | amboss/discover.py:67-92 | One more href appends its link, if any. |
| Discover.ResolveLink | amboss/discover.py:68-92 | The loop body for one href computes exactly `LinkOf`. |
| Discover.LinksOfMembers | amboss/discover.py:67-92 | A link is collected exactly when some href yields it. |
| Discover.LinkList | amboss/discover.py:94 | `list(set(links))` has no duplicates and holds exactly the links some href yields. |
| Discover.URLDiscoverer.ExtractLinks | amboss/discover.py:61-94 | Returns the page's links without repetition (the model's order is first occurrence). |
| Discover.EnqueueNew | amboss/discover.py:124-126 | The old queue is a prefix of the new one. Each new entry was neither visited nor already queued. Every link ends up visited or queued, and nothing else is queued. |
| Discover.URLDiscoverer.CrawlPage | amboss/discover.py:114-126 | One fetched page: its new matches of the configured `[a-z0-9-]` pattern, and a queue that keeps the old entries and holds every link of the page not yet visited. |
| Discover.CrawlStep | amboss/discover.py:105-133 | One turn of the crawl keeps "every start URL visited or queued" and "every link of a visited page visited or queued". |
| Discover.CrawlDone | amboss/discover.py:105 | With the queue empty, every start URL and every link of a visited page was visited. |
| Discover.VisitShrinks | amboss/discover.py:108-111 | Visiting a new reachable URL shrinks the set of reachable unvisited URLs, so the crawl terminates. |
| Discover.Visited | amboss/discover.py:108-111 | Marking a new URL visited keeps the visit order free of repetitions. |
| Discover.LinksReachable | amboss/discover.py:118-126 | Every link of a fetched page is reachable. |
| Discover.MatchesOfStep | amboss/discover.py:114-116 | One more fetch adds its page's matches of the configured `[a-z0-9-]` pattern; a failed fetch adds none. |
| Discover.YieldStep | amboss/discover.py:114-116 | Yielding one page's unseen matches extends the unseen matches of all pages fetched so far. |
| Discover.URLDiscoverer.DiscoverFromStartUrls | amboss/discover.py:96-133 | Each URL is fetched at most once, and every start URL is visited. Every link of a fetched page is visited, and only reachable URLs are. The yield is exactly the unseen matches of the configured `[a-z0-9-]` pattern on the fetched pages in fetch order; a failed fetch contributes nothing. |
| Discover.YieldedMatch | amboss/discover.py:148-152 | Every yielded URL is matched in full by the configured `[a-z0-9-]` pattern, so none is dropped. |
| Discover.MatchingAll | amboss/discover.py:150-151 | Filtering by the configured pattern URLs that all match it keeps them all. |
| Discover.MatchingStep | amboss/discover.py:150-151 | One more URL is kept exactly when the configured `[a-z0-9-]` pattern matches it. |
| Discover.MatchesOfMatch | amboss/discover.py:54-58 | Every match found on fetched pages is matched in full by the configured `[a-z0-9-]` pattern. |
| Discover.StoredStep | amboss/discover.py:150-157 | Storing one more URL under the slug the configured pattern captures keeps the store's shape: old rows unchanged, and each new row a pending row of a reported URL. |
| Discover.StoredSlugsLower | amboss/config.py:56 | Every slug the store gained is a non-empty run of `[a-z0-9-]`. |
| Discover.StoreAll | amboss/discover.py:148-157 | Every URL the configured `[a-z0-9-]` pattern matches is reported, since `add_url` answers True even when the slug existed. Existing rows are unchanged, every reported URL's captured slug (for `…/--0D-i`, `--0`) has a row, and new rows are pending rows of reported URLs. |
| Discover.URLDiscoverer.DiscoverArticles | amboss/discover.py:135-161 | Crawls from the given or the three default start URLs. Reports exactly the yielded URLs, each matched in full by the configured pattern, and stores them under their captured slugs as above; every new slug is a non-empty run of `[a-z0-9-]`. |
| Validator.CheckHiddenSections | amboss/validator.py:89-120 | The sum over the five selectors of their visible matches, a raising selector counting 0. |
| Dom.CountVisibleTotal | amboss/validator.py:96-118 | The nested counting loop computes that sum. |
| Dom.VisibleTotalZero | amboss/validator.py:89-120 | The total is 0 exactly when no working selector has a visible match. |
| Dom.VisibleCountZero | amboss/expander.py:700-712 | No visible match exactly when every matching element is invisible. |
| Dom.MatchCountZero | amboss/expander.py:525-533 | No match exactly when no element matches the selector. |
| Dom.CountVisible | amboss/validator.py:105-116 | The loop over one selector's matches counts exactly the visible ones. |
| Validator.ReportOf | amboss/validator.py:29-65 | `expansion_valid == validation_passed`. From a count: pass exactly when it is 0, with one "Found N hidden sections" error exactly when it is positive. From an exception: not passed, count 0, and one "Validation error: …" message. |
| Validator.ValidatePage | amboss/validator.py:29-65 | The method computes the page's report. |
| Validator.PagePassesIff | amboss/validator.py:42-52 | A page passes exactly when no working hidden-section selector has a visible match, and exactly when its error list is empty. |
| Validator.GetFlag | amboss/validator.py:33-38 | Only `expansion_valid` and `validation_passed` can read True; `is_valid` is absent. |
| Validator.GetList | amboss/validator.py:33-38 | Only `errors` holds a list; `issues` is absent. |
| Validator.ValidateSingleScreenshot | amboss/validator.py:153-210 | Valid exactly when there is no error, which requires: the file exists, is at least 1024 bytes, opens as an image of at least 100×100, and passes the density check. The first failing check gives the message ("does not exist", "too small: N bytes", "dimensions too small: (w, h)"). |
| Validator.ValidateScreenshots | amboss/validator.py:67-87 | One result per path, in input order, each that of its file. |
| Validator.ValidCount | amboss/validator.py:226 | The valid count is at most the total. It equals the total exactly when every result is valid, and is 0 exactly when none is. A single result counts 1 exactly when it is valid. |
| Validator.ValidCountAppend | amboss/validator.py:226 | Counting is additive over concatenation. With the one-result case, this fixes the count as the number of valid results. |
| Validator.ReportedErrors | amboss/validator.py:227-229 | Every listed error is the non-empty message of an invalid result, and every such message is listed. There is at most one per failure. A single result lists its message exactly when it is invalid with a non-empty error. |
| Validator.ReportedErrorsAppend | amboss/validator.py:227-229 | The errors of concatenated results are the first part's errors followed by the second's, so they appear in result order. |
| Validator.ErrorsMatchFailures | amboss/validator.py:227-229 | When every invalid result has a message, there is exactly one error per failure. |
| Validator.SuccessRate | amboss/validator.py:232 | The rate is 0 with no results, otherwise valid/total, and it lies in [0, 1]. |
| Validator.RateBounds | amboss/validator.py:232 | valid/total lies in [0, 1] and times total gives back valid. |
| Validator.ValidationSummary | amboss/validator.py:212-235 | total = length and valid + failed = total. All are valid exactly when valid = total. The rate is `SuccessRate`, and there are no more errors than failures. `valid_files` is `ValidCount` and `errors` is `ReportedErrors` of the results. |
| Validator.SummaryOfValidated | amboss/validator.py:67-87 | For results of `validate_screenshots`, the summary has exactly one error per failed file. |
| Expander.VerifyContentIsExpanded | amboss/expander.py:521-544 | True exactly when neither count raises, no collapsed marker exists, and an expanded marker exists. |
| Expander.IsFullyExpanded | amboss/expander.py:694-715 | True exactly when counting does not raise and no collapsed marker is visible. In particular it is True when none exists. |
| Expander.ContentExpandedMeansFullyExpanded | amboss/expander.py:521-544 | What `verify_content_is_expanded` accepts, `is_fully_expanded` accepts. |
| Expander.Verdict | amboss/expander.py:612-652 | Raises exactly when the visible count over the three selectors is positive, with the message "N sections still hidden after expansion". |
| Expander.VerifyExpansion | amboss/expander.py:612-652 | The counting loop computes that verdict. |
| Expander.ValidatedPagePassesVerification | amboss/expander.py:612-652 | A page that `validate_page` passes also passes `_verify_expansion`. |
| Expander.Trace | amboss/expander.py:40-56 | `n` attempts run consent, click, JS fallback, wait and verify, in that order, `n` times. |
| Retry.RetryUpTo | amboss/expander.py:35 | Stops at the first success, within `n` attempts. After `n` failures the error is `RetryError[<Future at ADDR state=finished raised TYPE>]`, naming the last attempt's exception type only. |
| Retry.RetryFrom | amboss/expander.py:35 | From attempt `i` on, after earlier failures: the first success is returned; otherwise all `n` attempts were used and the error is the `RetryError` text for the last attempt's exception type. |
| Expander.VerifyRuns | amboss/expander.py:35-56 | 1 to 4 attempts. Success exactly when some attempt's verification passes; every attempt before the last failed; after four failures the error is the `RetryError` text naming `ExpansionFailure`. |
| Expander.FullyExpandAsWritten | amboss/expander.py:35-58 | As written, the steps are the attempt trace and success is as above. After four failures the error is the `RetryError` text naming `ExpansionFailure`, without the hidden-section count. |
| Expander.FullyExpandLosesExpansionFailure | tests/test_expander.py:44-54 | After four failed verifications, the raised error is not the `ExpansionFailure` message the test expects: one starts with `R`, the other with a digit. |
| Expander.FullyExpand | amboss/expander.py:35-58 | Corrected: after the fourth failure the last `ExpansionFailure` itself propagates. |
| Expander.RowIff | amboss/expander.py:410-422 | One selector's clicks are exactly its visible matches, each once, in document order. |
| Expander.Row | amboss/expander.py:410-422 | Each planned click is of that selector and of an element before the bound. |
| Expander.ClickPlanIff | amboss/expander.py:396-424 | Every visible match of every selector whose count does not raise is attempted, and nothing else. |
| Expander.ClickPlan | amboss/expander.py:396-424 | Each planned click is of a listed selector and an existing element. |
| Expander.SucceededIff | amboss/expander.py:414-422 | The clicks that went through are exactly the attempted ones whose click does not raise. |
| Expander.Succeeded | amboss/expander.py:414-422 | No more clicks go through than were attempted. |
| Expander.SucceededAppend | amboss/expander.py:402-424 | The clicks of two groups of attempts go through independently and in order. |
| Expander.ClickMatches | amboss/expander.py:410-422 | The inner loop attempts exactly that selector's visible matches. A raising click does not stop the rest. |
| Expander.ClickExpansionButtons | amboss/expander.py:396-424 | Attempts exactly the click plan. The clicks that go through are the attempts whose click does not raise. |
| Expander.Tier3AggressiveRetry | amboss/expander.py:292-335 | 1 to 3 rounds. Every round but the last left the modal in place, and stopping before 3 means the modal was gone or the round raised. |
| SimpleSlugExtractor.ExtractSlugFromUrl | simple_slug_extractor.py:6-9 | The slug has no `/` and is a suffix of the URL. Without a `/` it is the URL; otherwise it follows the last `/`. |
| SimpleSlugExtractor.ArticleSlugRecovered | simple_slug_extractor.py:6-9 | The slug of `…/de/article/<id>` is the id, whatever its case. |
| SimpleSlugExtractor.TestIdsRecovered | simple_slug_extractor.py:28-33 | The four test ids, `--0D-i` included, are extracted whole. |
| SimpleSlugExtractor.ValidateSlugAgainstList | simple_slug_extractor.py:11-13 | Valid exactly when some list entry equals the slug. |
| SimpleSlugExtractor.KnownSlugs | simple_slug_extractor.py:18 | No more slugs than lines. Each is non-empty and has no surrounding whitespace. |
| SimpleSlugExtractor.KnownSlugsAppend | simple_slug_extractor.py:18 | Lines are filtered one by one, in file order. |
| SimpleSlugExtractor.BlankLinesDropped | simple_slug_extractor.py:18 | Whitespace-only lines contribute nothing. |
| SimpleSlugExtractor.LoadKnownSlugs | simple_slug_extractor.py:15-18 | A file that cannot be opened passes its error on. Otherwise the result is the stripped non-empty lines. |
| SimpleSlugExtractor.SlugListRoundTrip | simple_slug_extractor.py:15-18 | A slug list written one slug per line loads back unchanged. |
| SimpleSlugExtractor.ListedArticleValidates | simple_slug_extractor.py:6-18 | An article whose id is in the saved list validates against the loaded list. |
| Text.StripWhereIdempotent | simple_slug_extractor.py:18 | `strip` is idempotent. |

## Left out

- Browser automation is not modelled: Playwright pages, clicks, scrolling, waits, `page.evaluate`, screenshots themselves, cookie consent, the JS fallback and `_expand_all_sections`. Each page becomes an abstract value: elements with selectors, visibility and click failures; header boxes as integer records; and per-visit oracles (`Visit`, `ArticleVisit`, `Round`, `Pass`, `RoundEnd`) supplied by the caller.
- Async execution, the request throttler, random and linear delays, and tenacity's backoff timing are not modelled. Only retry attempt counts are kept, and the pauses of the fast processors are returned as `pausedAfter`.
- The SQLite engine, SQL text, commits and timestamps are not modelled. The tables are maps and sequences with the constraints explicit. `get_run_images` returns whole image rows, not the `(filename, idx, section_title)` projection.
- Run ids are a parameter. `uuid4` is randomness; the property a fresh id gives is the hypothesis `RunIdUnused`.
- `discover.fetch_html` is not modelled (network). The site is a map from URL to page text, and a URL missing from it is a failed fetch.
- `list(set(links))` in `extract_links` has an unspecified order. The model keeps first occurrences, and its contracts speak only of membership and no repetition.
- Of `urlparse`, the model keeps the scheme, netloc, path, `;params`, query and fragment split, per section 3 of RFC 3986 and Python's rules. It leaves out the stripping of whitespace and unsafe bytes, port and IPv6 checks.
- `urljoin` handles network-path, absolute, root-relative, query-only and relative-path references, drops the empty segments inside a merged path, and resolves a reference that carries the base's scheme without a netloc. Dot segments (`..`, `.`) are not resolved. An empty `?` or `#` in a reference is carried over as written, where Python drops it. The base's scheme is assumed to be one `urljoin` resolves (http or https).
- Python's `str.isdigit` accepts non-ASCII digits. The model's `IsDigit` is ASCII `0`-`9` only.
- Pillow image handling and the OCR density score are not modelled. A screenshot file is a record of existence, size, decoded dimensions or a decoding error, and the density check's outcome. The average density of `get_validation_summary` is omitted.
- `_capture_full_page` is unreachable: `_find_content_area` always returns the fixed area (380, 56, 848, 1200). The model uses that constant and has no full-page branch.
- `_capture_section` is not modelled as a browser step. Its title and file name are modelled; scrolling and the screenshot are a per-index success flag.
- `_navigate_to_page` is a retried oracle: each attempt's outcome and exception type are given. `_expand_content` is `Expander.FullyExpandAsWritten` on the pages seen by each attempt. The addresses tenacity prints for its futures are parameters (`navigationFuture`, `expansionFuture`).
- `Tasks.Visit`: creating the browser context and opening the page are one outcome (`open`), and closing the page and the context are one outcome (`close`). When opening the page raises after the context was created, the unclosed context is not modelled.
- The batch (`Tasks`), the package processor (`FastProcessor.Processor.ProcessAllArticles`, `FastProcessor.PageSteps`), the script processor and the crawl (`Discover`) follow the code as written. `Tasks.StatusAfter`, `Tasks.SettledAsIntended`, `Expander.FullyExpand`, `Discover.MatchSlugPattern` and `FastProcessor.ProcessArticle` are the intended behaviour, stated and proved beside it (see Findings), and no batch path uses them.
- Text.FileLines: splits only at `\n`. Python's text mode also ends a line at a lone `\r` (universal newlines), so a file with lone-`\r` line ends reads as one line in the model; `\r\n` files agree because each line is stripped.
- The `@retry(stop_after_attempt(3))` around `extract_article_urls` is not modelled. `SearchExtractor.ExtractArticleUrls` models one attempt.
- auth.py, cli.py, the config validators, logging and the debug and demo scripts are not part of this model.
- `FastProcessor.FirstCallRate`: the success rate is bounded by 1 only when the successes do not exceed the batch size. The counters accumulate across calls, so a second call on one instance can report a rate above 1.
- `Discover.URLDiscoverer.DiscoverFromStartUrls`: the crawl and the `add_url` calls of `discover_articles` interleave in the source. The model runs the crawl to completion, then stores the yielded URLs in the same order. The store is touched only by `add_url`, so the end state is the same.

## Findings

| source | as written | input that shows it | evidently intended | confidence | as-written member | corrected member |
|---|---|---|---|---|---|---|
| amboss/tasks.py:148 | every failed visit is recorded as `failed_expansion` | a visit whose page still shows a hidden section after expansion (validation raises `ExpansionFailure` "Page validation failed: …") | a validation failure recorded as `failed_validation`, a status the schema admits and `get_failed_urls` selects | not executed | Tasks.ValidationFailureRecordedAsExpansion | Tasks.SettledAsIntended |
| amboss/fast_processor.py:101 | reads `validation_result.get("is_valid", False)` and `"issues"` | any matching URL whose every step passes and whose page shows no hidden section: the reply is `(False, "Validation failed: []")` | read `validation_passed` and `errors`, the keys `validate_page` sets (as fast_amboss_processor.py:110 does) | not executed | FastProcessor.ProcessArticleAsWrittenNeverSucceeds | FastProcessor.ProcessArticleSucceedsIff |
| amboss/config.py:56 | slug class `[a-z0-9-]+` | `https://next.amboss.com/de/article/--0D-i` captures `--0` (test_slug_extraction.py:12 expects `--0D-i`) | class `[a-zA-Z0-9-]+`, as the extractors' article pattern uses | not executed | Discover.TestUrlCutAsWritten | Discover.TestUrlKept |
| amboss/expander.py:35 | `@retry(stop=stop_after_attempt(4))` without `reraise=True` | a page whose collapsed sections stay visible on all four attempts: the caller gets `RetryError[…]` | the last `ExpansionFailure` propagates (tests/test_expander.py:53 expects it) | not executed | Expander.FullyExpandLosesExpansionFailure | Expander.FullyExpand |

The batch, the processors and the crawl are modelled as written; each corrected member stands beside them with its property proved, and `Tasks.SettledAsIntendedUnlessValidation`, `FastProcessor.CorrectKeysAccept` and `Discover.AsWrittenCutsAtCapital` relate the two halves.
