/**
 * The background download queue of `DownloadWorker`: `doWork` runs the tasks
 * one after another, reporting progress and log lines, waiting a random delay
 * between tasks and saving each document found; `savePdfToFile` replaces the
 * file of the same name in the chosen folder.
 *
 * The worker's observable effects are fields of a class: the log lines and the
 * progress values it reports (in order), the files of the folder, the tasks it
 * handed to the resolver, the delays it waited and the number of response
 * bodies it closed. The repository's answers, the folder's failures and the moment a stop is
 * requested are inputs; the random delay is a nondeterministic choice.
 */
module DownloadWorker {
  import opened Wrappers
  import opened Text
  import Repo = MopsRepository

  datatype ReportType = Financial | Annual

  /** `DownloadTask`: one document to fetch and the file name to store it under. */
  datatype DownloadTask = DownloadTask(coId: string, year: string, season: Option<string>, reportType: ReportType, fileName: string)

  /** A document in the chosen folder. */
  datatype FileEntry = FileEntry(name: string, mimeType: string, content: seq<Repo.byte>)

  /**
   * How the storage layer behaves during one `savePdfToFile`: it works; looking
   * up or deleting the old file throws; `createFile` returns null or throws;
   * there is no output stream for the new file; or copying throws after
   * `written` bytes. Exception messages may be null.
   */
  datatype StorageFault =
    | Healthy
    | FindThrows(message: Option<string>)
    | CreateReturnsNull
    | CreateThrows(message: Option<string>)
    | NoOutputStream
    | WriteThrows(message: Option<string>, written: nat)

  /** WorkManager's `Result.success()` / `Result.failure()`. */
  datatype WorkResult = Success | Failure

  /** The worker's input data; absent delays take their defaults. */
  datatype WorkInput = WorkInput(tasks: Option<seq<DownloadTask>>, directoryUri: Option<string>,
                                 delayMin: Option<int>, delayMax: Option<int>)

  const DefaultDelayMin := 3000
  const DefaultDelayMax := 5000
  const PdfMime := "application/pdf"
  const CancelLine := "下載已由使用者取消。"
  const CancelledProgress := "已取消"
  const DoneProgress := "下載完成"
  const DoneLine := "全部下載任務完成！"
  const CreateFailedLine := "錯誤: 無法在指定資料夾建立檔案，請檢查權限。"

  function StartLine(n: int): string { "準備下載 " + IntToString(n) + " 個檔案..." }

  function ProgressLine(i: int, n: int, name: string): string {
    "正在下載 (" + IntToString(i + 1) + "/" + IntToString(n) + "): " + name
  }

  function SavedLine(name: string): string { "✓ " + name + " 儲存成功!" }

  function SaveFailedLine(name: string): string { "✗ " + name + " 儲存失敗 (無法建立檔案)。" }

  function FailureLine(name: string, message: string): string { "✗ " + name + " - " + message }

  function SaveExceptionLine(message: Option<string>): string { "錯誤: 儲存檔案時發生異常 - " + MessageText(message) }

  /** `String.format("%.1f", ms / 1000.0)`: seconds with one decimal, rounded half away from zero. */
  function Seconds(ms: int): string {
    var tenths := Tenths(ms);
    var digits := NatToString(tenths / 10) + "." + NatToString(tenths % 10);
    if ms < 0 then "-" + digits else digits
  }

  /** The magnitude of `ms` in tenths of a second, halves rounded up. */
  function Tenths(ms: int): nat {
    ((if ms < 0 then -ms else ms) + 50) / 100
  }

  function WaitLine(ms: int): string { "...等待 " + Seconds(ms) + " 秒後繼續..." }

  // ---- savePdfToFile ----

  /** The files without the first one named `name` (what `findFile(name)?.delete()` removes). */
  function DeleteFirst(files: seq<FileEntry>, name: string): (r: seq<FileEntry>)
    ensures |r| <= |files|
  {
    if files == [] then []
    else if files[0].name == name then files[1..]
    else [files[0]] + DeleteFirst(files[1..], name)
  }

  /** Whether `savePdfToFile` returns true: the new file was created and nothing threw. */
  predicate Saves(fault: StorageFault) {
    fault.Healthy? || fault.NoOutputStream?
  }

  /** Whether a new file was created, even if writing it then threw. */
  predicate Creates(fault: StorageFault) {
    fault.Healthy? || fault.NoOutputStream? || fault.WriteThrows?
  }

  /** The lines `savePdfToFile` itself reports. */
  function SaveLines(fault: StorageFault): seq<string> {
    match fault
    case CreateReturnsNull => [CreateFailedLine]
    case FindThrows(m) => [SaveExceptionLine(m)]
    case CreateThrows(m) => [SaveExceptionLine(m)]
    case WriteThrows(m, _) => [SaveExceptionLine(m)]
    case _ => []
  }

  /** The first `written` bytes of `body`, or all of it. */
  function Written(body: seq<Repo.byte>, written: nat): seq<Repo.byte> {
    body[..if written < |body| then written else |body|]
  }

  /** The folder after `savePdfToFile(name, body)`. */
  function SaveEffect(files: seq<FileEntry>, name: string, body: seq<Repo.byte>, fault: StorageFault): seq<FileEntry> {
    match fault
    case FindThrows(_) => files
    case CreateReturnsNull => DeleteFirst(files, name)
    case CreateThrows(_) => DeleteFirst(files, name)
    case NoOutputStream => DeleteFirst(files, name) + [FileEntry(name, PdfMime, [])]
    case WriteThrows(_, written) => DeleteFirst(files, name) + [FileEntry(name, PdfMime, Written(body, written))]
    case Healthy => DeleteFirst(files, name) + [FileEntry(name, PdfMime, body)]
  }

  /** The names of the files in the folder. */
  function Names(files: seq<FileEntry>): set<string> {
    if files == [] then {} else {files[0].name} + Names(files[1..])
  }

  /** No two files share a name: the first name does not recur, and so on down the folder. */
  predicate UniqueNames(files: seq<FileEntry>) {
    files == [] || (files[0].name !in Names(files[1..]) && UniqueNames(files[1..]))
  }

  lemma {:induction false} NameOfMember(files: seq<FileEntry>, e: FileEntry)
    requires e in files
    ensures e.name in Names(files)
  {
    if files[0] != e {
      assert files == [files[0]] + files[1..];
      NameOfMember(files[1..], e);
    }
  }

  lemma {:induction false} NamesSnoc(files: seq<FileEntry>, e: FileEntry)
    ensures Names(files + [e]) == Names(files) + {e.name}
  {
    if files == [] {
      assert files + [e] == [e];
      assert [e][1..] == [];
    } else {
      assert (files + [e])[1..] == files[1..] + [e];
      NamesSnoc(files[1..], e);
    }
  }

  lemma {:induction false} UniqueSnoc(files: seq<FileEntry>, e: FileEntry)
    requires UniqueNames(files) && e.name !in Names(files)
    ensures UniqueNames(files + [e])
  {
    if files == [] {
      assert files + [e] == [e];
      assert [e][1..] == [];
    } else {
      assert (files + [e])[1..] == files[1..] + [e];
      UniqueSnoc(files[1..], e);
      NamesSnoc(files[1..], e);
    }
  }

  /** Deleting the first file of a name deletes every file of that name, when names are unique. */
  lemma {:induction false} DeleteFirstUnique(files: seq<FileEntry>, name: string)
    requires UniqueNames(files)
    ensures UniqueNames(DeleteFirst(files, name))
    ensures Names(DeleteFirst(files, name)) == Names(files) - {name}
    ensures forall e: FileEntry :: e in DeleteFirst(files, name) <==> e in files && e.name != name
  {
    if files != [] {
      var rest := files[1..];
      assert files == [files[0]] + rest;
      if files[0].name == name {
        forall e | e in rest ensures e.name != name {
          NameOfMember(rest, e);
        }
      } else {
        DeleteFirstUnique(rest, name);
        var d := DeleteFirst(rest, name);
        assert ([files[0]] + d)[1..] == d;
      }
    }
  }

  /** Replacing the file of `e`'s name by `e` keeps names unique and leaves every other file as it was. */
  lemma ReplaceFile(files: seq<FileEntry>, e: FileEntry)
    requires UniqueNames(files)
    ensures var r := DeleteFirst(files, e.name) + [e];
      && UniqueNames(r)
      && Names(r) == Names(files) + {e.name}
      && r[|r| - 1] == e
      && e.name !in Names(r[..|r| - 1])
      && (forall x: FileEntry :: x.name != e.name ==> (x in r <==> x in files))
  {
    DeleteFirstUnique(files, e.name);
    var d := DeleteFirst(files, e.name);
    UniqueSnoc(d, e);
    NamesSnoc(d, e);
    assert (d + [e])[..|d|] == d;
  }

  /**
   * Saving never leaves two files of one name and leaves every other file as
   * it was. A created file is the only one of its name, last in the folder; a
   * healthy save holds the whole body, a write that throws a prefix of it.
   */
  lemma SaveKeepsNamesUnique(files: seq<FileEntry>, name: string, body: seq<Repo.byte>, fault: StorageFault)
    requires UniqueNames(files)
    ensures UniqueNames(SaveEffect(files, name, body, fault))
    ensures forall e: FileEntry :: e.name != name ==> (e in SaveEffect(files, name, body, fault) <==> e in files)
    ensures fault.FindThrows? ==> SaveEffect(files, name, body, fault) == files
    ensures fault.CreateReturnsNull? || fault.CreateThrows? ==>
      Names(SaveEffect(files, name, body, fault)) == Names(files) - {name}
    ensures Creates(fault) ==>
      var r := SaveEffect(files, name, body, fault);
      && |r| > 0 && r[|r| - 1].name == name && r[|r| - 1].mimeType == PdfMime
      && Names(r) == Names(files) + {name} && name !in Names(r[..|r| - 1])
    ensures fault.Healthy? ==> var r := SaveEffect(files, name, body, fault); r[|r| - 1].content == body
    ensures fault.WriteThrows? ==> var r := SaveEffect(files, name, body, fault); r[|r| - 1].content <= body
  {
    match fault {
      case FindThrows(_) =>
      case CreateReturnsNull => DeleteFirstUnique(files, name);
      case CreateThrows(_) => DeleteFirstUnique(files, name);
      case NoOutputStream => ReplaceFile(files, FileEntry(name, PdfMime, []));
      case WriteThrows(_, written) => ReplaceFile(files, FileEntry(name, PdfMime, Written(body, written)));
      case Healthy => ReplaceFile(files, FileEntry(name, PdfMime, body));
    }
  }

  // ---- doWork ----

  /** Whether a task gets past `season!!`: a financial task needs its season. */
  predicate Resolvable(task: DownloadTask) {
    task.reportType.Annual? || task.season.Some?
  }

  /**
   * The two calls the worker makes on `MopsRepository`, as answered at one
   * iteration: `financial(coId, year, season)` and `annual(coId, year)`.
   */
  datatype Repository = Repository(financial: (string, string, string) -> Repo.DownloadResult,
                                   annual: (string, string) -> Repo.DownloadResult)

  /** `MopsRepository` answering from `server`. */
  function Mops(server: Repo.Server): (repo: Repository)
    ensures forall c, y, s :: repo.financial(c, y, s) == Repo.DownloadFinancialReport(c, y, s, server).result
    ensures forall c, y :: repo.annual(c, y) == Repo.DownloadAnnualReport(c, y, server).result
  {
    Repository((c, y, s) => Repo.DownloadFinancialReport(c, y, s, server).result,
               (c, y) => Repo.DownloadAnnualReport(c, y, server).result)
  }

  /** What the worker asks of the repository for one task; `None` when `season!!` throws. */
  function ResolveTask(task: DownloadTask, repo: Repository): Option<Repo.DownloadResult> {
    if !Resolvable(task) then None
    else match task.reportType
      case Financial => Some(repo.financial(task.coId, task.year, task.season.value))
      case Annual => Some(repo.annual(task.coId, task.year))
  }

  /** The lines reported for one resolved task: the save's own lines, then exactly one ✓ or ✗ line. */
  function OutcomeLines(name: string, result: Repo.DownloadResult, fault: StorageFault): seq<string> {
    match result
    case Success(_) => SaveLines(fault) + [if Saves(fault) then SavedLine(name) else SaveFailedLine(name)]
    case NotFound(m) => [FailureLine(name, m)]
    case Error(m) => [FailureLine(name, m)]
  }

  /**
   * With `MopsRepository` answering, a task past `season!!` always gets a
   * result, and its ✗ line carries one of the resolver's own messages: a known
   * error, or a not-found message that belongs to the task's kind of report.
   */
  lemma MopsOutcome(task: DownloadTask, server: Repo.Server, fault: StorageFault)
    requires Resolvable(task)
    ensures ResolveTask(task, Mops(server)).Some?
    ensures var result := ResolveTask(task, Mops(server)).value;
      !result.Success? ==>
        && OutcomeLines(task.fileName, result, fault) == [FailureLine(task.fileName, result.message)]
        && (result.Error? ==> Repo.KnownError(result.message))
        && (result.NotFound? ==> result.message in {Repo.NoDataMarker, Repo.NoPdfLinkMessage,
              if task.reportType.Financial? then Repo.FinancialNoTargetMessage else Repo.AnnualNoTargetMessage})
  {
  }

  /** Everything the worker records; the class's fields, as one value. */
  datatype Trace = Trace(log: seq<string>, progress: seq<string>, files: seq<FileEntry>,
                         resolved: seq<DownloadTask>, closedBodies: nat)

  /** One iteration up to its outcome: the progress line, the resolver call, and the outcome or the save. */
  function TaskStep(t: Trace, task: DownloadTask, i: int, n: int, repo: Repository, fault: StorageFault): Trace {
    var line := ProgressLine(i, n, task.fileName);
    match ResolveTask(task, repo)
    case None => Trace(t.log + [line], t.progress + [line], t.files, t.resolved, t.closedBodies)
    case Some(result) =>
      var files := if result.Success? then SaveEffect(t.files, task.fileName, result.body, fault) else t.files;
      var closed := if result.Success? then t.closedBodies + 1 else t.closedBodies;
      Trace(t.log + [line] + OutcomeLines(task.fileName, result, fault), t.progress + [line], files, t.resolved + [task], closed)
  }

  /** The number of waits after `k` completed iterations of `n`: one after every iteration but the last. */
  function WaitsAfter(k: nat, n: nat): nat {
    if k == n && n > 0 then n - 1 else k
  }

  /**
   * The record after `k` completed iterations, the run having waited `ws[i]`
   * after iteration `i` whenever it was not the last.
   */
  function RunTo(t0: Trace, tasks: seq<DownloadTask>, k: nat, repos: nat -> Repository, storage: nat -> StorageFault,
                 ws: seq<int>): Trace
    requires k <= |tasks| && |ws| == WaitsAfter(k, |tasks|)
  {
    if k == 0 then t0
    else
      var t := TaskStep(RunTo(t0, tasks, k - 1, repos, storage, ws[..k - 1]), tasks[k - 1], k - 1, |tasks|,
                        repos(k - 1), storage(k - 1));
      if k < |tasks| then t.(log := t.log + [WaitLine(ws[k - 1])]) else t
  }

  /** How a run that got its input ends. */
  datatype Ending = Completed | Cancelled(at: nat) | SeasonMissing(at: nat) | EmptyDelayRange(at: nat)

  /** The stop is first requested before the check at iteration `stopAt`, and stays requested. */
  predicate StopSeen(stopAt: Option<nat>, i: nat) {
    stopAt.Some? && stopAt.value <= i
  }

  /**
   * The first event, from iteration `i` on, that ends the loop: the stop check,
   * `season!!` throwing, or `random()` on an empty range of delays.
   */
  function EndFrom(tasks: seq<DownloadTask>, i: nat, stopAt: Option<nat>, lo: int, hi: int): (e: Ending)
    requires i <= |tasks|
    ensures !e.Completed? ==> i <= e.at < |tasks|
    ensures e.EmptyDelayRange? ==> e.at < |tasks| - 1
    decreases |tasks| - i
  {
    if i == |tasks| then Completed
    else if StopSeen(stopAt, i) then Cancelled(i)
    else if !Resolvable(tasks[i]) then SeasonMissing(i)
    else if i < |tasks| - 1 && lo > hi then EmptyDelayRange(i)
    else EndFrom(tasks, i + 1, stopAt, lo, hi)
  }

  /** The number of delays drawn before the run ends. */
  function WaitCount(e: Ending, n: nat): nat {
    match e
    case Completed => WaitsAfter(n, n)
    case Cancelled(k) => k
    case SeasonMissing(k) => k
    case EmptyDelayRange(k) => k
  }

  /** The number of tasks handed to the resolver before the run ends. */
  function Handled(e: Ending, n: nat): nat {
    match e
    case Completed => n
    case Cancelled(k) => k
    case SeasonMissing(k) => k
    case EmptyDelayRange(k) => k + 1
  }

  /** The record once the start line is logged. */
  function Start(t: Trace, n: int): Trace {
    t.(log := t.log + [StartLine(n)])
  }

  /**
   * The record and the result of a run that got its input, started from `t0`
   * and drew the delays `ws`. A completed run appends 全部下載任務完成！ to the
   * log and 下載完成 to the progress; a cancelled one the cancel line and
   * 已取消, both succeeding; a missing season or an empty delay window fails
   * right after that task's step. `RunWhenCancelled`, `RunWhenFailed`,
   * `RunWhenCompleted`, `RunToWait` and `RunToLast` below restate these cases
   * one by one for the loop in `Worker.RunTasks`.
   */
  function Run(t0: Trace, tasks: seq<DownloadTask>, stopAt: Option<nat>, lo: int, hi: int,
               repos: nat -> Repository, storage: nat -> StorageFault, ws: seq<int>): (Trace, WorkResult)
    requires |ws| == WaitCount(EndFrom(tasks, 0, stopAt, lo, hi), |tasks|)
  {
    match EndFrom(tasks, 0, stopAt, lo, hi)
    case Completed =>
      var t := RunTo(t0, tasks, |tasks|, repos, storage, ws);
      (t.(log := t.log + [DoneLine], progress := t.progress + [DoneProgress]), Success)
    case Cancelled(k) =>
      var t := RunTo(t0, tasks, k, repos, storage, ws);
      (t.(log := t.log + [CancelLine], progress := t.progress + [CancelledProgress]), Success)
    case SeasonMissing(k) =>
      (TaskStep(RunTo(t0, tasks, k, repos, storage, ws), tasks[k], k, |tasks|, repos(k), storage(k)), Failure)
    case EmptyDelayRange(k) =>
      (TaskStep(RunTo(t0, tasks, k, repos, storage, ws), tasks[k], k, |tasks|, repos(k), storage(k)), Failure)
  }

  function Or(value: Option<int>, default: int): int {
    if value.Some? then value.value else default
  }

  // ---- properties of a run ----

  /** A log line reporting a task's outcome: it starts with ✓ or ✗. */
  predicate IsOutcome(line: string) {
    |line| > 0 && (line[0] == '✓' || line[0] == '✗')
  }

  /** The number of outcome lines in a log. */
  function OutcomeCount(lines: seq<string>): nat {
    if lines == [] then 0 else (if IsOutcome(lines[0]) then 1 else 0) + OutcomeCount(lines[1..])
  }

  lemma {:induction false} OutcomeCountAppend(a: seq<string>, b: seq<string>)
    ensures OutcomeCount(a + b) == OutcomeCount(a) + OutcomeCount(b)
  {
    if a == [] {
      assert a + b == b;
    } else {
      assert (a + b)[1..] == a[1..] + b;
      OutcomeCountAppend(a[1..], b);
    }
  }

  lemma OutcomeCountOne(line: string)
    ensures OutcomeCount([line]) == if IsOutcome(line) then 1 else 0
  {
    assert [line][1..] == [];
  }

  /** Only the ✓ and ✗ lines report outcomes; progress, wait, save-error and closing lines do not. */
  lemma LineKinds(i: int, n: int, name: string, m: string, message: Option<string>, d: int)
    ensures IsOutcome(SavedLine(name)) && IsOutcome(SaveFailedLine(name)) && IsOutcome(FailureLine(name, m))
    ensures !IsOutcome(ProgressLine(i, n, name)) && !IsOutcome(WaitLine(d)) && !IsOutcome(StartLine(n))
    ensures !IsOutcome(SaveExceptionLine(message)) && !IsOutcome(CreateFailedLine)
    ensures !IsOutcome(CancelLine) && !IsOutcome(DoneLine)
  {
    assert SavedLine(name)[0] == '✓';
    assert SaveFailedLine(name)[0] == '✗';
    assert FailureLine(name, m)[0] == '✗';
    assert ProgressLine(i, n, name)[0] == '正';
    assert WaitLine(d)[0] == '.';
    assert StartLine(n)[0] == '準';
    assert SaveExceptionLine(message)[0] == '錯';
  }

  lemma SliceSnoc<T>(s: seq<T>, k: nat)
    requires 0 < k <= |s|
    ensures s[..k] == s[..k - 1] + [s[k - 1]]
  {
  }

  lemma AppendSnoc<T>(a: seq<T>, b: seq<T>, c: T)
    ensures (a + b) + [c] == a + (b + [c])
  {
  }

  lemma WindowSnoc(ws: seq<int>, d: int, lo: int, hi: int)
    requires forall x :: x in ws ==> lo <= x <= hi
    requires lo <= d <= hi
    ensures forall x :: x in ws + [d] ==> lo <= x <= hi
  {
  }

  /** A task that reaches the repository adds exactly one outcome line; one that does not, none. */
  lemma StepAccounts(t: Trace, task: DownloadTask, i: int, n: int, repo: Repository, fault: StorageFault)
    ensures var r := TaskStep(t, task, i, n, repo, fault);
      && r.resolved == t.resolved + (if Resolvable(task) then [task] else [])
      && OutcomeCount(r.log) == OutcomeCount(t.log) + (if Resolvable(task) then 1 else 0)
      && r.progress == t.progress + [ProgressLine(i, n, task.fileName)]
  {
    var line := ProgressLine(i, n, task.fileName);
    LineKinds(i, n, task.fileName, "", None, 0);
    OutcomeCountOne(line);
    OutcomeCountAppend(t.log, [line]);
    match ResolveTask(task, repo) {
      case None =>
      case Some(result) =>
        var lines := OutcomeLines(task.fileName, result, fault);
        OutcomeCountAppend(t.log + [line], lines);
        if result.Success? {
          var last := if Saves(fault) then SavedLine(task.fileName) else SaveFailedLine(task.fileName);
          OutcomeCountAppend(SaveLines(fault), [last]);
          OutcomeCountOne(last);
          match fault {
            case CreateReturnsNull => OutcomeCountOne(CreateFailedLine);
            case FindThrows(m) => LineKinds(i, n, task.fileName, "", m, 0); OutcomeCountOne(SaveExceptionLine(m));
            case CreateThrows(m) => LineKinds(i, n, task.fileName, "", m, 0); OutcomeCountOne(SaveExceptionLine(m));
            case WriteThrows(m, _) => LineKinds(i, n, task.fileName, "", m, 0); OutcomeCountOne(SaveExceptionLine(m));
            case Healthy =>
            case NoOutputStream =>
          }
        } else {
          LineKinds(i, n, task.fileName, result.message, None, 0);
          OutcomeCountOne(FailureLine(task.fileName, result.message));
        }
    }
  }

  /** After `k` iterations that all reached the repository: the first `k` tasks, one outcome line each. */
  lemma {:induction false} RunToAccounts(t0: Trace, tasks: seq<DownloadTask>, k: nat, repos: nat -> Repository,
                                         storage: nat -> StorageFault, ws: seq<int>)
    requires k <= |tasks| && |ws| == WaitsAfter(k, |tasks|)
    requires forall j :: 0 <= j < k ==> Resolvable(tasks[j])
    ensures RunTo(t0, tasks, k, repos, storage, ws).resolved == t0.resolved + tasks[..k]
    ensures OutcomeCount(RunTo(t0, tasks, k, repos, storage, ws).log) == OutcomeCount(t0.log) + k
    ensures |RunTo(t0, tasks, k, repos, storage, ws).progress| == |t0.progress| + k
  {
    if k > 0 {
      RunToAccounts(t0, tasks, k - 1, repos, storage, ws[..k - 1]);
      IterationAccounts(t0, tasks, k, repos, storage, ws);
      SliceSnoc(tasks, k);
      AppendSnoc(t0.resolved, tasks[..k - 1], tasks[k - 1]);
    }
  }

  /** Iteration `k - 1` of a resolvable task, with the wait after it: one task resolved, one outcome line, one progress line. */
  lemma IterationAccounts(t0: Trace, tasks: seq<DownloadTask>, k: nat, repos: nat -> Repository,
                          storage: nat -> StorageFault, ws: seq<int>)
    requires 0 < k <= |tasks| && |ws| == WaitsAfter(k, |tasks|) && Resolvable(tasks[k - 1])
    ensures var prev := RunTo(t0, tasks, k - 1, repos, storage, ws[..k - 1]);
      var r := RunTo(t0, tasks, k, repos, storage, ws);
      && r.resolved == prev.resolved + [tasks[k - 1]]
      && OutcomeCount(r.log) == OutcomeCount(prev.log) + 1
      && |r.progress| == |prev.progress| + 1
  {
    var prev := RunTo(t0, tasks, k - 1, repos, storage, ws[..k - 1]);
    var t := TaskStep(prev, tasks[k - 1], k - 1, |tasks|, repos(k - 1), storage(k - 1));
    StepAccounts(prev, tasks[k - 1], k - 1, |tasks|, repos(k - 1), storage(k - 1));
    RunToUnfold(t0, tasks, k, repos, storage, ws);
    if k < |tasks| {
      WaitAccounts(t, ws[k - 1]);
    }
  }

  /** Iteration `k - 1` is the task step from the record before it, followed by a wait line unless it is the last. */
  lemma RunToUnfold(t0: Trace, tasks: seq<DownloadTask>, k: nat, repos: nat -> Repository,
                    storage: nat -> StorageFault, ws: seq<int>)
    requires 0 < k <= |tasks| && |ws| == WaitsAfter(k, |tasks|)
    ensures var t := TaskStep(RunTo(t0, tasks, k - 1, repos, storage, ws[..k - 1]), tasks[k - 1], k - 1, |tasks|,
                              repos(k - 1), storage(k - 1));
      RunTo(t0, tasks, k, repos, storage, ws) == if k < |tasks| then t.(log := t.log + [WaitLine(ws[k - 1])]) else t
  {
  }

  /** A wait line changes neither the tasks resolved, the progress, nor the outcome count. */
  lemma WaitAccounts(t: Trace, d: int)
    ensures var r := t.(log := t.log + [WaitLine(d)]);
      r.resolved == t.resolved && r.progress == t.progress && OutcomeCount(r.log) == OutcomeCount(t.log)
  {
    var w := WaitLine(d);
    assert w[0] == '.';
    OutcomeCountOne(w);
    OutcomeCountAppend(t.log, [w]);
  }

  /** Before the iteration where the run ends, no stop was seen, every task was resolvable and the window was not empty. */
  lemma {:induction false} EndFromClear(tasks: seq<DownloadTask>, i: nat, stopAt: Option<nat>, lo: int, hi: int, j: nat)
    requires i <= j < |tasks|
    requires var e := EndFrom(tasks, i, stopAt, lo, hi); e.Completed? || j < e.at
    ensures !StopSeen(stopAt, j) && Resolvable(tasks[j]) && (j < |tasks| - 1 ==> lo <= hi)
    decreases j - i
  {
    if i < j {
      EndFromClear(tasks, i + 1, stopAt, lo, hi, j);
    }
  }

  /** What holds at the iteration where the run ends. */
  lemma {:induction false} EndFromAt(tasks: seq<DownloadTask>, i: nat, stopAt: Option<nat>, lo: int, hi: int)
    requires i <= |tasks|
    ensures var e := EndFrom(tasks, i, stopAt, lo, hi);
      && (e.Cancelled? ==> StopSeen(stopAt, e.at))
      && (e.SeasonMissing? ==> !StopSeen(stopAt, e.at) && !Resolvable(tasks[e.at]))
      && (e.EmptyDelayRange? ==> !StopSeen(stopAt, e.at) && Resolvable(tasks[e.at]) && lo > hi)
    decreases |tasks| - i
  {
    if i < |tasks| && !StopSeen(stopAt, i) && Resolvable(tasks[i]) && !(i < |tasks| - 1 && lo > hi) {
      EndFromAt(tasks, i + 1, stopAt, lo, hi);
    }
  }

  /**
   * Every run hands the first `Handled` tasks to the repository, in order, and
   * logs exactly one outcome line for each; it succeeds exactly when it
   * completes or is cancelled.
   */
  lemma RunAccounts(t0: Trace, tasks: seq<DownloadTask>, stopAt: Option<nat>, lo: int, hi: int,
                    repos: nat -> Repository, storage: nat -> StorageFault, ws: seq<int>)
    requires |ws| == WaitCount(EndFrom(tasks, 0, stopAt, lo, hi), |tasks|)
    ensures var e := EndFrom(tasks, 0, stopAt, lo, hi);
      var m := Handled(e, |tasks|);
      var r := Run(t0, tasks, stopAt, lo, hi, repos, storage, ws);
      && m <= |tasks|
      && r.0.resolved == t0.resolved + tasks[..m]
      && OutcomeCount(r.0.log) == OutcomeCount(t0.log) + m
      && (r.1 == Success <==> e.Completed? || e.Cancelled?)
  {
    var e := EndFrom(tasks, 0, stopAt, lo, hi);
    var k := if e.Completed? then |tasks| else e.at;
    forall j | 0 <= j < k ensures Resolvable(tasks[j]) {
      EndFromClear(tasks, 0, stopAt, lo, hi, j);
    }
    EndFromAt(tasks, 0, stopAt, lo, hi);
    RunToAccounts(t0, tasks, k, repos, storage, ws);
    var t := RunTo(t0, tasks, k, repos, storage, ws);
    match e {
      case Completed =>
        LineKinds(0, 0, "", "", None, 0);
        OutcomeCountOne(DoneLine);
        OutcomeCountAppend(t.log, [DoneLine]);
      case Cancelled(_) =>
        LineKinds(0, 0, "", "", None, 0);
        OutcomeCountOne(CancelLine);
        OutcomeCountAppend(t.log, [CancelLine]);
      case SeasonMissing(_) =>
        StepAccounts(t, tasks[k], k, |tasks|, repos(k), storage(k));
      case EmptyDelayRange(_) =>
        StepAccounts(t, tasks[k], k, |tasks|, repos(k), storage(k));
        SliceSnoc(tasks, k + 1);
    }
  }

  /** From iteration `i` up to a stop first seen at `s`, the run ends at `s` at the latest. */
  lemma {:induction false} StopHonouredFrom(tasks: seq<DownloadTask>, i: nat, s: nat, lo: int, hi: int)
    requires i <= s < |tasks|
    ensures var e := EndFrom(tasks, i, Some(s), lo, hi);
      && !e.Completed? && e.at <= s && Handled(e, |tasks|) <= s && (e.Cancelled? ==> e.at == s)
    decreases s - i
  {
    if i < s && Resolvable(tasks[i]) && !(i < |tasks| - 1 && lo > hi) {
      StopHonouredFrom(tasks, i + 1, s, lo, hi);
    }
  }

  /**
   * Cancellation: when the stop is first seen before task `s`, the run hands
   * some `m <= s` first tasks to the repository, logs one outcome line for
   * each of them and none for any later task; with a non-empty delay window
   * and every earlier task resolvable, `m` is `s`, the run succeeds, the
   * progress gains one line per task run plus a final 已取消, and the log
   * ends with the cancel line.
   */
  lemma StopHonoured(t0: Trace, tasks: seq<DownloadTask>, s: nat, lo: int, hi: int,
                     repos: nat -> Repository, storage: nat -> StorageFault, ws: seq<int>)
    requires s < |tasks|
    requires |ws| == WaitCount(EndFrom(tasks, 0, Some(s), lo, hi), |tasks|)
    ensures var r := Run(t0, tasks, Some(s), lo, hi, repos, storage, ws);
      var m := |r.0.resolved| - |t0.resolved|;
      && 0 <= m <= s
      && r.0.resolved == t0.resolved + tasks[..m]
      && OutcomeCount(r.0.log) == OutcomeCount(t0.log) + m
      && ((lo <= hi && forall j :: 0 <= j < s ==> Resolvable(tasks[j])) ==>
            && m == s && r.1 == Success
            && |r.0.progress| == |t0.progress| + s + 1
            && r.0.progress[|r.0.progress| - 1] == CancelledProgress
            && r.0.log[|r.0.log| - 1] == CancelLine)
  {
    StopHonouredFrom(tasks, 0, s, lo, hi);
    RunAccounts(t0, tasks, Some(s), lo, hi, repos, storage, ws);
    var e := EndFrom(tasks, 0, Some(s), lo, hi);
    EndFromAt(tasks, 0, Some(s), lo, hi);
    if lo <= hi && forall j :: 0 <= j < s ==> Resolvable(tasks[j]) {
      assert e == Cancelled(s);
      RunWhenCancelled(t0, tasks, Some(s), lo, hi, repos, storage, ws, s);
      RunToAccounts(t0, tasks, s, repos, storage, ws);
    }
  }

  /** Without a stop the run is never cancelled; a cancelled run saw the stop at its first check after the request. */
  lemma CancelledOnlyByStop(tasks: seq<DownloadTask>, stopAt: Option<nat>, lo: int, hi: int)
    ensures var e := EndFrom(tasks, 0, stopAt, lo, hi); e.Cancelled? ==> stopAt == Some(e.at)
  {
    var e := EndFrom(tasks, 0, stopAt, lo, hi);
    EndFromAt(tasks, 0, stopAt, lo, hi);
    if e.Cancelled? && e.at > 0 {
      EndFromClear(tasks, 0, stopAt, lo, hi, e.at - 1);
    }
  }

  /** With a non-empty delay range and every task resolvable, only the end of the list or a stop ends the run. */
  lemma {:induction false} NoFailureFrom(tasks: seq<DownloadTask>, i: nat, stopAt: Option<nat>, lo: int, hi: int)
    requires i <= |tasks| && lo <= hi
    requires forall j :: i <= j < |tasks| ==> Resolvable(tasks[j])
    ensures var e := EndFrom(tasks, i, stopAt, lo, hi); e.Completed? || e.Cancelled?
    decreases |tasks| - i
  {
    if i < |tasks| && !StopSeen(stopAt, i) {
      NoFailureFrom(tasks, i + 1, stopAt, lo, hi);
    }
  }

  /** Such a run succeeds whenever the stop comes, and without a stop it hands every task to the resolver. */
  lemma WellFormedRunSucceeds(t0: Trace, tasks: seq<DownloadTask>, stopAt: Option<nat>, lo: int, hi: int,
                              repos: nat -> Repository, storage: nat -> StorageFault, ws: seq<int>)
    requires lo <= hi && forall j :: 0 <= j < |tasks| ==> Resolvable(tasks[j])
    requires |ws| == WaitCount(EndFrom(tasks, 0, stopAt, lo, hi), |tasks|)
    ensures var r := Run(t0, tasks, stopAt, lo, hi, repos, storage, ws);
      && r.1 == Success
      && (stopAt.None? ==> r.0.resolved == t0.resolved + tasks)
  {
    NoFailureFrom(tasks, 0, stopAt, lo, hi);
    CancelledOnlyByStop(tasks, stopAt, lo, hi);
    RunAccounts(t0, tasks, stopAt, lo, hi, repos, storage, ws);
    assert tasks[..|tasks|] == tasks;
  }

  /** A run never leaves two files of one name in the folder. */
  lemma {:induction false} RunToKeepsNamesUnique(t0: Trace, tasks: seq<DownloadTask>, k: nat, repos: nat -> Repository,
                                                 storage: nat -> StorageFault, ws: seq<int>)
    requires k <= |tasks| && |ws| == WaitsAfter(k, |tasks|)
    requires UniqueNames(t0.files)
    ensures UniqueNames(RunTo(t0, tasks, k, repos, storage, ws).files)
  {
    if k > 0 {
      var prev := RunTo(t0, tasks, k - 1, repos, storage, ws[..k - 1]);
      RunToKeepsNamesUnique(t0, tasks, k - 1, repos, storage, ws[..k - 1]);
      var o := ResolveTask(tasks[k - 1], repos(k - 1));
      if o.Some? && o.value.Success? {
        SaveKeepsNamesUnique(prev.files, tasks[k - 1].fileName, o.value.body, storage(k - 1));
      }
    }
  }

  lemma RunKeepsNamesUnique(t0: Trace, tasks: seq<DownloadTask>, stopAt: Option<nat>, lo: int, hi: int,
                            repos: nat -> Repository, storage: nat -> StorageFault, ws: seq<int>)
    requires |ws| == WaitCount(EndFrom(tasks, 0, stopAt, lo, hi), |tasks|)
    requires UniqueNames(t0.files)
    ensures UniqueNames(Run(t0, tasks, stopAt, lo, hi, repos, storage, ws).0.files)
  {
    var e := EndFrom(tasks, 0, stopAt, lo, hi);
    var k := if e.Completed? then |tasks| else e.at;
    RunToKeepsNamesUnique(t0, tasks, k, repos, storage, ws);
    if e.SeasonMissing? || e.EmptyDelayRange? {
      var prev := RunTo(t0, tasks, k, repos, storage, ws);
      var o := ResolveTask(tasks[k], repos(k));
      if o.Some? && o.value.Success? {
        SaveKeepsNamesUnique(prev.files, tasks[k].fileName, o.value.body, storage(k));
      }
    }
  }

  /** The wait line shows whole tenths of a second exactly. */
  lemma SecondsExact(s: nat, t: nat)
    requires t < 10
    ensures Seconds(1000 * s + 100 * t) == NatToString(s) + "." + NatToString(t)
  {
    var ms := 1000 * s + 100 * t;
    assert Tenths(ms) == 10 * s + t by {
      assert ms + 50 == 100 * (10 * s + t) + 50;
    }
    assert Tenths(ms) / 10 == s && Tenths(ms) % 10 == t;
  }



  /** `Run` for each way the loop ends. */
  lemma RunWhenCancelled(t0: Trace, tasks: seq<DownloadTask>, stopAt: Option<nat>, lo: int, hi: int,
                         repos: nat -> Repository, storage: nat -> StorageFault, ws: seq<int>, k: nat)
    requires k < |tasks| && EndFrom(tasks, 0, stopAt, lo, hi) == Cancelled(k) && |ws| == k
    ensures var t := RunTo(t0, tasks, k, repos, storage, ws);
      Run(t0, tasks, stopAt, lo, hi, repos, storage, ws)
      == (t.(log := t.log + [CancelLine], progress := t.progress + [CancelledProgress]), Success)
  {
  }

  lemma RunWhenFailed(t0: Trace, tasks: seq<DownloadTask>, stopAt: Option<nat>, lo: int, hi: int,
                      repos: nat -> Repository, storage: nat -> StorageFault, ws: seq<int>, k: nat)
    requires k < |tasks| && |ws| == k
    requires EndFrom(tasks, 0, stopAt, lo, hi) in {SeasonMissing(k), EmptyDelayRange(k)}
    ensures Run(t0, tasks, stopAt, lo, hi, repos, storage, ws)
      == (TaskStep(RunTo(t0, tasks, k, repos, storage, ws), tasks[k], k, |tasks|, repos(k), storage(k)), Failure)
  {
  }

  lemma RunWhenCompleted(t0: Trace, tasks: seq<DownloadTask>, stopAt: Option<nat>, lo: int, hi: int,
                         repos: nat -> Repository, storage: nat -> StorageFault, ws: seq<int>)
    requires EndFrom(tasks, 0, stopAt, lo, hi) == Completed && |ws| == WaitsAfter(|tasks|, |tasks|)
    ensures var t := RunTo(t0, tasks, |tasks|, repos, storage, ws);
      Run(t0, tasks, stopAt, lo, hi, repos, storage, ws)
      == (t.(log := t.log + [DoneLine], progress := t.progress + [DoneProgress]), Success)
  {
  }

  /** An iteration that is not the last extends the record by its step and its wait line. */
  lemma RunToWait(t0: Trace, tasks: seq<DownloadTask>, i: nat, repos: nat -> Repository, storage: nat -> StorageFault,
                  ws: seq<int>, d: int)
    requires i < |tasks| - 1 && |ws| == i
    ensures var t := TaskStep(RunTo(t0, tasks, i, repos, storage, ws), tasks[i], i, |tasks|, repos(i), storage(i));
      RunTo(t0, tasks, i + 1, repos, storage, ws + [d]) == t.(log := t.log + [WaitLine(d)])
  {
    assert (ws + [d])[..i] == ws;
  }

  /** The last iteration extends the record by its step alone. */
  lemma RunToLast(t0: Trace, tasks: seq<DownloadTask>, repos: nat -> Repository, storage: nat -> StorageFault, ws: seq<int>)
    requires |tasks| > 0 && |ws| == |tasks| - 1
    ensures RunTo(t0, tasks, |tasks|, repos, storage, ws)
         == TaskStep(RunTo(t0, tasks, |tasks| - 1, repos, storage, ws), tasks[|tasks| - 1], |tasks| - 1, |tasks|,
                     repos(|tasks| - 1), storage(|tasks| - 1))
  {
    assert ws[..|tasks| - 1] == ws;
  }

  class Worker {
    var log: seq<string>
    var progress: seq<string>
    var files: seq<FileEntry>
    var resolved: seq<DownloadTask>
    var waits: seq<int>
    var closedBodies: nat

    function Record(): Trace
      reads this
    {
      Trace(log, progress, files, resolved, closedBodies)
    }

    constructor (folder: seq<FileEntry>)
      ensures Record() == Trace([], [], folder, [], 0) && waits == []
    {
      log := [];
      progress := [];
      files := folder;
      resolved := [];
      waits := [];
      closedBodies := 0;
    }

    /** `savePdfToFile`: replace the file named `name` by one holding `body`; the body is always closed. */
    method SavePdfToFile(name: string, body: seq<Repo.byte>, fault: StorageFault) returns (saved: bool)
      modifies this
      ensures saved == Saves(fault)
      ensures files == SaveEffect(old(files), name, body, fault)
      ensures log == old(log) + SaveLines(fault)
      ensures closedBodies == old(closedBodies) + 1
      ensures progress == old(progress) && resolved == old(resolved) && waits == old(waits)
    {
      if fault.FindThrows? {
        log := log + [SaveExceptionLine(fault.message)];
        saved := false;
      } else {
        files := DeleteFirst(files, name);
        if fault.CreateReturnsNull? {
          log := log + [CreateFailedLine];
          saved := false;
        } else if fault.CreateThrows? {
          log := log + [SaveExceptionLine(fault.message)];
          saved := false;
        } else if fault.NoOutputStream? {
          files := files + [FileEntry(name, PdfMime, [])];
          saved := true;
        } else if fault.WriteThrows? {
          files := files + [FileEntry(name, PdfMime, Written(body, fault.written))];
          log := log + [SaveExceptionLine(fault.message)];
          saved := false;
        } else {
          files := files + [FileEntry(name, PdfMime, body)];
          saved := true;
        }
      }
      closedBodies := closedBodies + 1;
    }

    /**
     * One iteration from the progress line to its outcome: report progress,
     * ask the resolver (false when `season!!` throws) and save or report.
     */
    method Step(task: DownloadTask, i: int, n: int, repo: Repository, fault: StorageFault) returns (resolvable: bool)
      modifies this
      ensures resolvable == Resolvable(task)
      ensures Record() == TaskStep(old(Record()), task, i, n, repo, fault)
      ensures waits == old(waits)
    {
      var line := ProgressLine(i, n, task.fileName);
      progress := progress + [line];
      log := log + [line];
      var outcome := ResolveTask(task, repo);
      if outcome.None? {
        return false;
      }
      resolved := resolved + [task];
      match outcome.value {
        case Success(body) =>
          var saved := SavePdfToFile(task.fileName, body, fault);
          if saved {
            log := log + [SavedLine(task.fileName)];
          } else {
            log := log + [SaveFailedLine(task.fileName)];
          }
        case NotFound(m) =>
          log := log + [FailureLine(task.fileName, m)];
        case Error(m) =>
          log := log + [FailureLine(task.fileName, m)];
      }
      return true;
    }

    /** The wait between two tasks: a delay drawn from `lo..hi`, announced in seconds. */
    method Pause(lo: int, hi: int) returns (d: int)
      requires lo <= hi
      modifies this
      ensures lo <= d <= hi
      ensures waits == old(waits) + [d] && log == old(log) + [WaitLine(d)]
      ensures progress == old(progress) && files == old(files) && resolved == old(resolved)
      ensures closedBodies == old(closedBodies)
    {
      d :| lo <= d <= hi;
      waits := waits + [d];
      log := log + [WaitLine(d)];
    }

    /**
     * `doWork`: without tasks or a folder, fail at once; otherwise log the
     * start line and run the tasks with the delay window, absent bounds taking
     * their defaults. `repos(i)` and `storage(i)` are the repository and the
     * folder's behaviour seen by iteration `i`; `stopAt` is the first stop
     * check that sees a stop.
     */
    method DoWork(input: WorkInput, repos: nat -> Repository, storage: nat -> StorageFault, stopAt: Option<nat>)
      returns (result: WorkResult)
      modifies this
      ensures input.tasks.None? || input.directoryUri.None? ==>
        result == Failure && Record() == old(Record()) && waits == old(waits)
      ensures input.tasks.Some? && input.directoryUri.Some? ==>
        var tasks := input.tasks.value;
        var lo := Or(input.delayMin, DefaultDelayMin);
        var hi := Or(input.delayMax, DefaultDelayMax);
        && |old(waits)| <= |waits|
        && waits[..|old(waits)|] == old(waits)
        && (forall d :: d in waits[|old(waits)|..] ==> lo <= d <= hi)
        && |waits| - |old(waits)| == WaitCount(EndFrom(tasks, 0, stopAt, lo, hi), |tasks|)
        && (Record(), result)
           == Run(Start(old(Record()), |tasks|), tasks, stopAt, lo, hi, repos, storage, waits[|old(waits)|..])
    {
      if input.tasks.None? || input.directoryUri.None? {
        return Failure;
      }
      var tasks := input.tasks.value;
      var lo := Or(input.delayMin, DefaultDelayMin);
      var hi := Or(input.delayMax, DefaultDelayMax);
      ghost var w0 := waits;
      log := log + [StartLine(|tasks|)];
      ghost var ws;
      result, ws := RunTasks(tasks, lo, hi, repos, storage, stopAt);
      assert waits[|w0|..] == ws;
    }

    /** The wait that closes iteration `i` when it is not the last: the record becomes that of `i + 1` iterations. */
    method WaitBetween(ghost t0: Trace, tasks: seq<DownloadTask>, i: nat, lo: int, hi: int, repos: nat -> Repository,
                       storage: nat -> StorageFault, ghost ws: seq<int>) returns (d: int)
      requires lo <= hi && i < |tasks| - 1 && |ws| == i
      requires Record() == TaskStep(RunTo(t0, tasks, i, repos, storage, ws), tasks[i], i, |tasks|, repos(i), storage(i))
      modifies this
      ensures lo <= d <= hi && waits == old(waits) + [d]
      ensures Record() == RunTo(t0, tasks, i + 1, repos, storage, ws + [d])
    {
      ghost var stepped := Record();
      d := Pause(lo, hi);
      RunToWait(t0, tasks, i, repos, storage, ws, d);
      assert Record() == stepped.(log := stepped.log + [WaitLine(d)]);
    }

    /**
     * The loop of `doWork`: the record and the result are those of `Run` for
     * the delays `ws` drawn, every one of them within `lo..hi`.
     */
    method RunTasks(tasks: seq<DownloadTask>, lo: int, hi: int, repos: nat -> Repository,
                    storage: nat -> StorageFault, stopAt: Option<nat>) returns (result: WorkResult, ghost ws: seq<int>)
      modifies this
      ensures waits == old(waits) + ws
      ensures forall d :: d in ws ==> lo <= d <= hi
      ensures |ws| == WaitCount(EndFrom(tasks, 0, stopAt, lo, hi), |tasks|)
      ensures (Record(), result) == Run(old(Record()), tasks, stopAt, lo, hi, repos, storage, ws)
    {
      var n := |tasks|;
      ws := [];
      ghost var w0 := waits;
      ghost var t0 := Record();
      var i := 0;
      while i < n
        invariant 0 <= i <= n
        invariant EndFrom(tasks, 0, stopAt, lo, hi) == EndFrom(tasks, i, stopAt, lo, hi)
        invariant waits == w0 + ws && |ws| == WaitsAfter(i, n)
        invariant forall d :: d in ws ==> lo <= d <= hi
        invariant Record() == RunTo(t0, tasks, i, repos, storage, ws)
      {
        if StopSeen(stopAt, i) {
          log := log + [CancelLine];
          progress := progress + [CancelledProgress];
          RunWhenCancelled(t0, tasks, stopAt, lo, hi, repos, storage, ws, i);
          return Success, ws;
        }
        var resolvable := Step(tasks[i], i, n, repos(i), storage(i));
        if !resolvable {
          RunWhenFailed(t0, tasks, stopAt, lo, hi, repos, storage, ws, i);
          return Failure, ws;
        }
        if i < n - 1 {
          if lo > hi {
            RunWhenFailed(t0, tasks, stopAt, lo, hi, repos, storage, ws, i);
            return Failure, ws;
          }
          var d := WaitBetween(t0, tasks, i, lo, hi, repos, storage, ws);
          AppendSnoc(w0, ws, d);
          WindowSnoc(ws, d, lo, hi);
          ws := ws + [d];
        } else {
          RunToLast(t0, tasks, repos, storage, ws);
        }
        i := i + 1;
      }
      progress := progress + [DoneProgress];
      log := log + [DoneLine];
      RunWhenCompleted(t0, tasks, stopAt, lo, hi, repos, storage, ws);
      return Success, ws;
    }
  }
}
