# MopsDownloader, modelled in Dafny

MopsDownloader is an Android app that downloads Taiwanese companies' quarterly
financial reports and annual reports as PDF files from the public filings site.
This project models its three core pieces and proves properties of them.

- **The resolver** (`MopsRepository`, module `MopsRepository` in `repository.dfy`).
  Given a company id, a Gregorian year and, for a financial report, a quarter,
  it sends the listing query for the local civil year (the year minus 1911).
  It checks the page for the "no data" phrase, then scans the `readfile2("kind","co_id","filename")`
  anchors for the first whose file name is accepted (`AI1`/`AI2`, or `F04`).
  It posts that anchor's fields. If the answer does not start with `%PDF`, it
  follows the first `.pdf` link of the intermediate page. The result is the
  document bytes, a not-found message or an error message. The server is an
  input: three functions answering the listing query, the POST and the final GET.
  The result records every request sent, in order.
- **The download queue** (`DownloadWorker`, module `DownloadWorker` in `worker.dfy`).
  `doWork` runs the tasks in order:
  - it logs a start line, then for each task a progress line;
  - it calls the resolver and saves any document found;
  - it logs exactly one ✓/✗ outcome line per task;
  - it waits a delay drawn from the window between tasks;
  - it checks the stop flag at the top of each iteration.

  `savePdfToFile` deletes the old file of the same name, creates the new one and
  copies the body, closing it on every path. The worker is a class whose fields
  are what it records: the log, the progress, the folder, the tasks handed to the
  resolver, the delays waited and the bodies closed. The repository's answers
  for each iteration, the folder's failures for each save, and the iteration at
  which a stop is seen are inputs. The delay is a nondeterministic choice.
- **The screen logic** (`MainViewModel`, module `MainViewModel` in `viewmodel.dfy`).
  It covers:
  - the quarter and annual-report selections;
  - building the task list from them;
  - the checks `startDownload` makes before enqueuing: a folder, a stock code,
    a non-empty batch, and at most `MAX_DOWNLOAD_LIMIT` tasks;
  - the delay window chosen by batch size;
  - the in-place sort of the tasks (financial first, later years first, lower
    quarters first);
  - the log and cancel actions.

  `MainUiState` is a datatype. The view model is a class holding the current
  state, the requests it enqueued and the ones it cancelled.

`text.dfy` (module `Text`) holds the Kotlin string and number operations the
core relies on: `contains`, `removePrefix`, `toInt()`, `toString()`,
`isBlank()`, `lowercase()` on ASCII letters, and 32-bit wrap-around. `wrappers.dfy` holds `Option`.

The two halves are connected by `MainViewModel.SubmittedRunSucceeds`. It proves
that every batch the screen enqueues runs without the worker failing: every
financial task has its quarter, so `season!!` cannot throw, and the delay window
is never empty, so `random()` cannot throw. Without a stop, every task is resolved
in order. A successful start leaves the log empty, so the strategy line logged just
before (`MainViewModel.kt` line 120) never survives it (`StartDownload`).

## Model

| member | source | states |
|---|---|---|
| Text.ContainsSpec | app/src/main/java/com/mops/mopsdownloader/data/MopsRepository.kt:41 | `contains` holds exactly when the needle occurs at some offset of the text |
| Text.RemovePrefix | app/src/main/java/com/mops/mopsdownloader/data/MopsRepository.kt:48 | when the prefix is present the result is exactly what follows it, and otherwise the input unchanged |
| Text.LowerAsciiKeepsLowerSegment | app/src/main/java/com/mops/mopsdownloader/data/MopsRepository.kt:45 | a lower-case needle found in a text is still found after lower-casing, so a case-insensitive attribute test accepts it |
| Text.ParseInt | app/src/main/java/com/mops/mopsdownloader/data/MopsRepository.kt:34 | `toInt()` returns an `Int` only for an optional `+` or `-` followed by a non-empty run of decimal digits |
| Text.ParseIntValue | app/src/main/java/com/mops/mopsdownloader/data/MopsRepository.kt:34 | a sign and a digit run parse to the run's value, negated after `-`, when it fits in an `Int`; an out-of-range run such as "3000000000" is rejected, so the year gives 年份格式錯誤 |
| Text.ParseIntToString | app/src/main/java/com/mops/mopsdownloader/data/MopsRepository.kt:35 | the decimal form of any `Int` parses back to that number |
| Text.IntToStringInjective | app/src/main/java/com/mops/mopsdownloader/ui/MainViewModel.kt:166 | two different numbers never render to the same decimal text, so distinct quarters give distinct file names |
| Text.DigitsValueOfNatToString | app/src/main/java/com/mops/mopsdownloader/data/MopsRepository.kt:35 | the digits of a non-negative number read back as that number |
| Text.Wrap32 | app/src/main/java/com/mops/mopsdownloader/data/MopsRepository.kt:34 | `year.toInt() - 1911` is the exact difference when it fits in an `Int` and otherwise agrees with it modulo 2^32 |
| MopsRepository.MatchPrefixSpec | app/src/main/java/com/mops/mopsdownloader/data/MopsRepository.kt:49-53 | the `readfile2("…","…","…")` pattern matches at a position, capturing an anchor, exactly when that anchor's call text with quote-free groups starts there |
| MopsRepository.QuoteFreePrefix | app/src/main/java/com/mops/mopsdownloader/data/MopsRepository.kt:49 | a `[^"]*` group consumes the longest quote-free run, which ends at a quote or at the end of the text |
| MopsRepository.GroupThenSpec | app/src/main/java/com/mops/mopsdownloader/data/MopsRepository.kt:49 | a group followed by a literal that starts with a quote matches exactly the splits of the text into a quote-free group, the literal and the rest |
| MopsRepository.AttemptSpec | app/src/main/java/com/mops/mopsdownloader/data/MopsRepository.kt:50-52 | the pattern tried at an offset of the cleaned href captures an anchor exactly when that anchor's call text, with quote-free arguments, begins there |
| MopsRepository.FirstSome | app/src/main/java/com/mops/mopsdownloader/data/MopsRepository.kt:52 | the first match found is the earliest offset where the pattern matches; there is none only when it matches nowhere |
| MopsRepository.ParseHrefSpec | app/src/main/java/com/mops/mopsdownloader/data/MopsRepository.kt:47-53 | an `href` yields an anchor exactly when that anchor's call text occurs in the `href` without its `javascript:` prefix and no call text starts earlier |
| MopsRepository.ParseAtStart | app/src/main/java/com/mops/mopsdownloader/data/MopsRepository.kt:47-53 | an `href` that starts with an anchor's call text yields that anchor |
| MopsRepository.ParseRender | app/src/main/java/com/mops/mopsdownloader/data/MopsRepository.kt:47-53 | the call text of a well-formed anchor, with or without `javascript:`, parses back to the same three arguments |
| MopsRepository.SelectLinks | app/src/main/java/com/mops/mopsdownloader/data/MopsRepository.kt:45 | the selector keeps exactly the `href`s whose lower-cased value contains `readfile2` |
| MopsRepository.ParsedIsSelected | app/src/main/java/com/mops/mopsdownloader/data/MopsRepository.kt:45-52 | every `href` in which the pattern matches is one the selector keeps |
| MopsRepository.FirstTargetSpec | app/src/main/java/com/mops/mopsdownloader/data/MopsRepository.kt:46-89 | the link loop finds nothing exactly when no link both matches and has an accepted file name, and otherwise returns the captures of the first such link |
| MopsRepository.SelectorRedundant | app/src/main/java/com/mops/mopsdownloader/data/MopsRepository.kt:45-54 | looping over the selected links finds the same target as looping over every anchor |
| MopsRepository.FirstQualifyingIsTarget | app/src/main/java/com/mops/mopsdownloader/data/MopsRepository.kt:46-56 | the first qualifying link is the one the loop acts on |
| MopsRepository.LaterAnchorsIgnored | app/src/main/java/com/mops/mopsdownloader/data/MopsRepository.kt:46-89 | anchors after a qualifying one never change the target |
| MopsRepository.FirstPdfHrefSpec | app/src/main/java/com/mops/mopsdownloader/data/MopsRepository.kt:70-72 | `selectFirst("a[href*='.pdf']")` returns nothing exactly when no `href` mentions `.pdf` in any case, and otherwise the first that does |
| MopsRepository.AfterPost | app/src/main/java/com/mops/mopsdownloader/data/MopsRepository.kt:59-86 | a failed POST gives POST請求失敗: with its status message, an exception or a body shorter than four bytes gives 網路連線或解析時發生錯誤:, a `%PDF` body is the result with no further request; otherwise at most one GET of the base URL plus the first PDF link, whose success gives its body and whose failure gives 最終PDF下載失敗: with its status message; no PDF link gives 在中介頁面中未找到PDF連結 |
| MopsRepository.AfterListing | app/src/main/java/com/mops/mopsdownloader/data/MopsRepository.kt:37-96 | a failed listing query gives 查詢頁面失敗: with its status message and an exception gives 網路連線或解析時發生錯誤:, with no further request; otherwise at most a POST and a final GET follow, success needs the POST, and the not-found messages are the no-data phrase, the report's own message or the intermediate-page message |
| MopsRepository.Resolve | app/src/main/java/com/mops/mopsdownloader/data/MopsRepository.kt:29-166 | a year that does not parse gives 年份格式錯誤 with no request; otherwise the first request is the listing query for the local year, whose failure or exception gives 查詢頁面失敗: or 網路連線或解析時發生錯誤: after that one request, then at most a POST and a GET; success needs at least the POST; every error and not-found message is one of the known ones |
| MopsRepository.QueryYear | app/src/main/java/com/mops/mopsdownloader/data/MopsRepository.kt:34-35 | the query's `year` value reads back as the year minus 1911 |
| MopsRepository.ErrorNamesStage | app/src/main/java/com/mops/mopsdownloader/data/MopsRepository.kt:34-96 | the error message tells which request failed: 年份格式錯誤 exactly when nothing was sent, 查詢頁面失敗: only after a failed listing query alone, POST請求失敗: only with a failed POST as the second request, 最終PDF下載失敗: only with a failed final GET as the third |
| MopsRepository.NoDataWins | app/src/main/java/com/mops/mopsdownloader/data/MopsRepository.kt:41-43 | a listing page whose text holds 查無所需資料 gives that not-found result after the one query, whatever anchors the page carries |
| MopsRepository.NoTargetFound | app/src/main/java/com/mops/mopsdownloader/data/MopsRepository.kt:45-90 | with no qualifying link the result is the report's own not-found message and nothing is posted |
| MopsRepository.PostsTarget | app/src/main/java/com/mops/mopsdownloader/data/MopsRepository.kt:54-58 | once a target is found, its own fields are posted and the rest of the run is what the POST's answer leads to |
| MopsRepository.FirstQualifyingDecides | app/src/main/java/com/mops/mopsdownloader/data/MopsRepository.kt:45-90 | the first qualifying anchor's `kind`, `co_id` and file name are posted and decide the result, whatever later anchors hold |
| MopsRepository.DownloadFinancialReport | app/src/main/java/com/mops/mopsdownloader/data/MopsRepository.kt:29-97 | the listing query carries exactly the keys step, colorchg, co_id, year, seamon and mtype, with step 1, colorchg 1, the company id, the given season and mtype A |
| MopsRepository.DownloadAnnualReport | app/src/main/java/com/mops/mopsdownloader/data/MopsRepository.kt:99-166 | the listing query carries exactly step, colorchg, co_id, year and mtype, with no season and mtype F |
| DownloadWorker.DeleteFirstUnique | app/src/main/java/com/mops/mopsdownloader/worker/DownloadWorker.kt:172 | deleting the file of a name from a folder without duplicate names leaves no file of that name and every other file in place |
| DownloadWorker.ReplaceFile | app/src/main/java/com/mops/mopsdownloader/worker/DownloadWorker.kt:172-173 | deleting the old file and creating the new one leaves exactly one file of that name, the new one, and no other file changes |
| DownloadWorker.SaveKeepsNamesUnique | app/src/main/java/com/mops/mopsdownloader/worker/DownloadWorker.kt:168-193 | a save never leaves two files of one name; a failed lookup leaves the folder unchanged; a failed create leaves the name absent; a created file is a PDF holding the whole body, or a prefix of it when copying throws; no other file changes |
| DownloadWorker.Worker.SavePdfToFile | app/src/main/java/com/mops/mopsdownloader/worker/DownloadWorker.kt:168-193 | returns true exactly when the file was created and copying did not throw (also when there is no output stream); logs the create-failure or exception line; closes the body on every path |
| DownloadWorker.MopsOutcome | app/src/main/java/com/mops/mopsdownloader/worker/DownloadWorker.kt:89-105 | with the resolver answering, a task past `season!!` always gets a result, and a failed task's ✗ line carries a known error message or a not-found message of that task's kind of report |
| DownloadWorker.EndFrom | app/src/main/java/com/mops/mopsdownloader/worker/DownloadWorker.kt:75-116 | the loop ends at an iteration that exists, and an empty delay range can only end it before the last task |
| DownloadWorker.LineKinds | app/src/main/java/com/mops/mopsdownloader/worker/DownloadWorker.kt:70-121 | the ✓ and ✗ lines are outcome lines; the start, progress, wait, save-error, cancel and completion lines are not |
| DownloadWorker.OutcomeCountAppend | app/src/main/java/com/mops/mopsdownloader/worker/DownloadWorker.kt:95-106 | outcome lines are counted line by line |
| DownloadWorker.StepAccounts | app/src/main/java/com/mops/mopsdownloader/worker/DownloadWorker.kt:83-106 | one iteration adds one progress line, hands its task to the resolver and logs exactly one outcome line |
| DownloadWorker.RunToAccounts | app/src/main/java/com/mops/mopsdownloader/worker/DownloadWorker.kt:75-117 | after k iterations the first k tasks were resolved in order, with k outcome lines and k progress lines |
| DownloadWorker.EndFromClear | app/src/main/java/com/mops/mopsdownloader/worker/DownloadWorker.kt:75-116 | every iteration before the one that ends the loop saw no stop, had a season if financial and, if not last, a non-empty delay range |
| DownloadWorker.EndFromAt | app/src/main/java/com/mops/mopsdownloader/worker/DownloadWorker.kt:75-116 | a cancelled run saw the stop at its last iteration; a run ended by a missing season or an empty delay range did not |
| DownloadWorker.RunAccounts | app/src/main/java/com/mops/mopsdownloader/worker/DownloadWorker.kt:75-122 | a run resolves a prefix of the tasks in order, logs one outcome line per resolved task, and succeeds exactly when it completed or was cancelled |
| DownloadWorker.StopHonouredFrom | app/src/main/java/com/mops/mopsdownloader/worker/DownloadWorker.kt:75-81 | a stop requested before task s ends the loop at or before s |
| DownloadWorker.StopHonoured | app/src/main/java/com/mops/mopsdownloader/worker/DownloadWorker.kt:75-81 | tasks from the stop on are never resolved and get no outcome line; with every earlier task well formed the run stops exactly at s, reports success, adds one progress line per task run plus a final 已取消, and ends its log with the cancel line |
| DownloadWorker.CancelledOnlyByStop | app/src/main/java/com/mops/mopsdownloader/worker/DownloadWorker.kt:76-81 | a run is cancelled only at the iteration where the stop was requested |
| DownloadWorker.NoFailureFrom | app/src/main/java/com/mops/mopsdownloader/worker/DownloadWorker.kt:89-116 | with a non-empty delay range and every financial task carrying a season, only the end of the list or a stop ends the loop |
| DownloadWorker.WellFormedRunSucceeds | app/src/main/java/com/mops/mopsdownloader/worker/DownloadWorker.kt:75-122 | such a run reports success whenever the stop comes, and without a stop it resolves every task in order |
| DownloadWorker.RunToKeepsNamesUnique | app/src/main/java/com/mops/mopsdownloader/worker/DownloadWorker.kt:95-103 | the iterations never leave two files of one name in the folder |
| DownloadWorker.RunKeepsNamesUnique | app/src/main/java/com/mops/mopsdownloader/worker/DownloadWorker.kt:58-123 | a whole run never leaves two files of one name in the folder |
| DownloadWorker.SecondsExact | app/src/main/java/com/mops/mopsdownloader/worker/DownloadWorker.kt:110-111 | a delay of a whole number of tenths of a second is shown as those seconds, a point and the tenths digit |
| DownloadWorker.Worker.constructor | app/src/main/java/com/mops/mopsdownloader/worker/DownloadWorker.kt:43-46 | a worker starts with empty records over the given folder |
| DownloadWorker.Worker.Step | app/src/main/java/com/mops/mopsdownloader/worker/DownloadWorker.kt:83-106 | one iteration logs and reports the progress line, calls the repository for its kind of report, saves a found document and logs its outcome; it reports whether the task could be resolved |
| DownloadWorker.Worker.Pause | app/src/main/java/com/mops/mopsdownloader/worker/DownloadWorker.kt:108-115 | the delay drawn lies in the inclusive range and its wait line is logged |
| DownloadWorker.Worker.WaitBetween | app/src/main/java/com/mops/mopsdownloader/worker/DownloadWorker.kt:108-116 | after an iteration that is not the last, one delay within the range is waited and its wait line logged, so the record becomes that of one more iteration |
| DownloadWorker.Worker.RunTasks | app/src/main/java/com/mops/mopsdownloader/worker/DownloadWorker.kt:75-122 | the loop draws its delays from the range, as many as the run needs, and leaves the record and the result that `Run` gives |
| DownloadWorker.Worker.DoWork | app/src/main/java/com/mops/mopsdownloader/worker/DownloadWorker.kt:58-123 | missing tasks or folder fail with nothing recorded; absent delays default to 3000 and 5000; otherwise the start line is logged and the run proceeds as `Run` describes |
| MainViewModel.Toggled | app/src/main/java/com/mops/mopsdownloader/ui/MainViewModel.kt:68-80 | toggling flips the one quarter of the one year, drops the year when its last quarter goes, leaves every other year alone, and never keeps an empty set |
| MainViewModel.ToggleTwice | app/src/main/java/com/mops/mopsdownloader/ui/MainViewModel.kt:68-80 | toggling the same quarter twice gives back the selections |
| MainViewModel.Flipped | app/src/main/java/com/mops/mopsdownloader/ui/MainViewModel.kt:82-89 | the year's flag, absent meaning false, is negated and recorded; no other year changes |
| MainViewModel.FlipTwice | app/src/main/java/com/mops/mopsdownloader/ui/MainViewModel.kt:82-89 | flipping twice restores a recorded year, and records an absent one as false |
| MainViewModel.ViewModel.ToggleFinancialSelection | app/src/main/java/com/mops/mopsdownloader/ui/MainViewModel.kt:68-80 | the financial selections become the toggled map and nothing else in the screen state changes |
| MainViewModel.ViewModel.ToggleAnnualSelection | app/src/main/java/com/mops/mopsdownloader/ui/MainViewModel.kt:82-89 | the annual selections become the flipped map and nothing else changes |
| MainViewModel.FinancialTaskInjective | app/src/main/java/com/mops/mopsdownloader/ui/MainViewModel.kt:166 | different years or quarters give different financial tasks |
| MainViewModel.SeasonTotalTake | app/src/main/java/com/mops/mopsdownloader/ui/MainViewModel.kt:164-168 | the number of chosen quarters does not depend on the order the years are visited |
| MainViewModel.ChosenTotalTake | app/src/main/java/com/mops/mopsdownloader/ui/MainViewModel.kt:171-175 | the number of chosen annual reports does not depend on the order the years are visited |
| MainViewModel.AddQuarters | app/src/main/java/com/mops/mopsdownloader/ui/MainViewModel.kt:165-167 | one task per quarter of the year, each new, with its season and `code_year_Q{s}_財報.pdf` name |
| MainViewModel.AddAllQuarters | app/src/main/java/com/mops/mopsdownloader/ui/MainViewModel.kt:163-169 | one distinct task per chosen quarter over all years, as many as there are chosen quarters |
| MainViewModel.AddAnnualReports | app/src/main/java/com/mops/mopsdownloader/ui/MainViewModel.kt:170-176 | one distinct annual task, with no season and a `code_year_年報.pdf` name, per year flagged true, appended after the earlier tasks |
| MainViewModel.BuildTasks | app/src/main/java/com/mops/mopsdownloader/ui/MainViewModel.kt:161-178 | the tasks are exactly the requested ones, without duplicates, as many as the chosen quarters (when financial is ticked) plus the chosen years (when annual is ticked), every financial task before every annual one |
| MainViewModel.DelayStrategy | app/src/main/java/com/mops/mopsdownloader/ui/MainViewModel.kt:180-186 | the window is never empty and never shorter than one second |
| MainViewModel.DelayMonotone | app/src/main/java/com/mops/mopsdownloader/ui/MainViewModel.kt:180-186 | a larger batch never gets a shorter delay |
| MainViewModel.FastStrategyLine | app/src/main/java/com/mops/mopsdownloader/ui/MainViewModel.kt:188-197 | one to five tasks announce the fast mode at 1-2 seconds per file |
| MainViewModel.RegularStrategyLine | app/src/main/java/com/mops/mopsdownloader/ui/MainViewModel.kt:188-197 | six to fifteen tasks announce the regular mode at 3-5 seconds per file |
| MainViewModel.SlowStrategyLine | app/src/main/java/com/mops/mopsdownloader/ui/MainViewModel.kt:188-197 | any other count announces the slow mode at 4-7 seconds per file |
| MainViewModel.SortedOrder | app/src/main/java/com/mops/mopsdownloader/ui/MainViewModel.kt:122-126 | in a sorted list financial tasks come before annual ones, later years before earlier ones within a kind, lower quarters first within a year |
| MainViewModel.SeasonKeys | app/src/main/java/com/mops/mopsdownloader/ui/MainViewModel.kt:125 | a quarter task sorts by its own quarter number and an annual task as quarter 5 |
| MainViewModel.NotBeforeTrans | app/src/main/java/com/mops/mopsdownloader/ui/MainViewModel.kt:122-126 | the comparator's "not after" relation is transitive |
| MainViewModel.BeforeAsym | app/src/main/java/com/mops/mopsdownloader/ui/MainViewModel.kt:122-126 | no two tasks each sort before the other |
| MainViewModel.InsertLast | app/src/main/java/com/mops/mopsdownloader/ui/MainViewModel.kt:122-126 | one insertion step extends the sorted prefix by one task and only permutes the list |
| MainViewModel.SortTasks | app/src/main/java/com/mops/mopsdownloader/ui/MainViewModel.kt:122-126 | the list ends up sorted by the comparator and is a permutation of the original |
| MainViewModel.SortedCopy | app/src/main/java/com/mops/mopsdownloader/ui/MainViewModel.kt:122-126 | the sorted list is a permutation of the built one |
| MainViewModel.AdmittedExactly | app/src/main/java/com/mops/mopsdownloader/ui/MainViewModel.kt:103-117 | a batch goes ahead exactly when a folder is set, the code is not blank and the count is between one and the limit; a rejection logs at most two lines |
| MainViewModel.SubmissionOf | app/src/main/java/com/mops/mopsdownloader/ui/MainViewModel.kt:119-137 | an admitted batch, sorted, is enqueued with the folder and the delay window for its size |
| MainViewModel.SubmittedRunSucceeds | app/src/main/java/com/mops/mopsdownloader/ui/MainViewModel.kt:119-137 | whatever the site answers and whenever a stop comes, the worker reports success for an enqueued batch, and without a stop it resolves every task |
| MainViewModel.ViewModel.constructor | app/src/main/java/com/mops/mopsdownloader/ui/MainViewModel.kt:28-60 | the screen state starts at its defaults with the saved folder |
| MainViewModel.ViewModel.AddLog | app/src/main/java/com/mops/mopsdownloader/ui/MainViewModel.kt:152-154 | the line is appended and earlier lines are kept |
| MainViewModel.ViewModel.ClearLogs | app/src/main/java/com/mops/mopsdownloader/ui/MainViewModel.kt:155-159 | while downloading nothing changes; otherwise the log is emptied and the progress reads 準備就緒 |
| MainViewModel.ViewModel.CancelDownloads | app/src/main/java/com/mops/mopsdownloader/ui/MainViewModel.kt:143-149 | the last enqueued request, if any, is cancelled, the dialog is closed, downloading stops and the progress reads 已取消 |
| MainViewModel.ViewModel.StartDownload | app/src/main/java/com/mops/mopsdownloader/ui/MainViewModel.kt:100-141 | the checks run in order (folder, code, empty batch, limit); a rejection only logs its lines and enqueues nothing; an admitted batch is enqueued sorted with its window, the work id is recorded, downloading starts with 已提交任務... and the log is emptied, which drops the strategy line |
| MainViewModel.ViewModel.Submit | app/src/main/java/com/mops/mopsdownloader/ui/MainViewModel.kt:119-139 | the admitted half of the start: one request enqueued, its id recorded, the screen state updated |

## Left out

- Network, HTML parsing and the platform are not modelled:
  - The server's answers are inputs. `isSuccessful && body() != null` is folded into the `Ok` case of `Response`, with the HTTP status message otherwise.
  - An HTML page is its body text and its anchors' `href` values in document order. jsoup's parser is not modelled.
- jsoup's `[href*=…]` test lower-cases both sides with full Unicode case mapping. The model lower-cases ASCII letters only, which decides every case for the all-ASCII needles `readfile2` and `.pdf` except exotic non-ASCII letters whose lower case is ASCII.
- Text.ParseInt: Kotlin's `toInt()` also accepts non-ASCII Unicode decimal digits. The model accepts ASCII digits only, because the screen offers `Int.toString()` years.
- DownloadWorker.Worker.DoWork: the stop is seen only at the check at the top of each iteration. A cancellation that interrupts a suspension point (a network call, `delay`, `setForeground`) is not modelled, because coroutine cancellation is concurrency.
- DownloadWorker.Worker.DoWork: the one-second pause after the start line and the timing of every delay are not modelled; only the delay values drawn are recorded.
- Notifications, `setForeground` and the progress/log reporting through `setProgress` are not modelled. Log lines and progress values are kept as two ordered sequences, so how they interleave is not recorded.
- Gson serialisation of the task list and WorkManager are not modelled:
  - An enqueued request is the worker's input record.
  - The `REPLACE` policy that cancels an earlier run of the same unique work is not modelled.
  - `workInfo` observation is not modelled.
- The wait line's `%.1f`: the model rounds the delay to tenths of a second half up and prints a `.` separator. The locale's decimal separator is not modelled, and neither is the binary rounding of `ms / 1000.0`.
- `DocumentFile.fromTreeUri` is not modelled as returning null: from API level 21 on it returns a tree document or throws, and the app requires API level 35 or later. A throw there is the `FindThrows` fault, which leaves the folder unchanged and logs the exception line.
- A provider's renaming of a new file whose name still exists is not modelled. Neither is `delete()` reporting failure. The model's folder holds each name once.
- MainViewModel.ViewModel.StartDownload: requires every year the batch can draw on to read as an integer. The comparator's `year.toInt()` would otherwise throw and end the coroutine. The screen offers only `Int.toString()` years.
- MainViewModel.SortTasks: states sorted order and permutation. It does not state the stability of Kotlin's `sortWith`.
- MainViewModel.ViewModel.StartDownload: the enqueued list is stated to hold exactly the requested tasks, as many as `TaskCount`. Their distinctness is proved of the built list (`BuildTasks`), not restated after sorting.
- `MAX_DOWNLOAD_LIMIT` is a constructor parameter of the view model. The folder saved in the settings store is a constructor argument. `saveDirectoryUri` and the settings store are not modelled.
- The one-line setters are not modelled: `onStockCodeChange`, `onFinancialCheckedChange`, `onAnnualCheckedChange`, `onShowCancelDialog`, `onDownloadingStateChange` and `updateProgress`. Each copies one field.
- Quarters are unbounded integers. Kotlin's `Int` is 32 bits, but the screen offers only quarters 1 to 4.
