/**
 * The screen logic of `MainViewModel`: the quarter and annual-report
 * selections, turning them into download tasks, the gates `startDownload`
 * applies before handing the sorted tasks and a pacing window to the worker,
 * and the log and cancel actions.
 *
 * `MainUiState` is a value that every action replaces with an updated copy;
 * the view model is a class whose field holds the current copy, together with
 * the work requests it enqueued and the ones it cancelled. WorkManager, Gson
 * and the settings store are outside the model: an enqueued request is the
 * worker's input record, and the saved folder is a constructor argument.
 */
module MainViewModel {
  import opened Wrappers
  import opened Text
  import W = DownloadWorker

  const Ready := "準備就緒"
  const Submitted := "已提交任務..."
  const NoFolderLine := "錯誤：請先選擇儲存資料夾"
  const NoCodeLine := "錯誤：請輸入股票代號"
  const NothingSelectedLine := "提示：沒有選擇任何要下載的檔案"
  const ReduceLine := "請減少勾選項目後再試。"

  /** The first of the two lines rejecting a batch over the limit. */
  function LimitLine(limit: int, total: int): string {
    "錯誤：單次下載上限為 " + IntToString(limit) + " 個檔案，您已選擇 " + IntToString(total) + " 個。"
  }

  /** `MainUiState`, with its defaults in `InitialState`. */
  datatype UiState = UiState(
    stockCode: string,
    isFinancialChecked: bool,
    isAnnualChecked: bool,
    financialSelections: map<string, set<int>>,
    annualSelections: map<string, bool>,
    directoryUri: Option<string>,
    isDownloading: bool,
    logMessages: seq<string>,
    currentProgress: string,
    showCancelConfirmDialog: bool)

  const InitialState := UiState("", true, true, map[], map[], None, false, [], Ready, false)

  // Selections

  /** The quarters chosen for `year`; an absent year has none. */
  function SeasonsOf(selections: map<string, set<int>>, year: string): set<int> {
    if year in selections then selections[year] else {}
  }

  /** No year is kept with an empty set of quarters. */
  predicate NoEmptySeasons(selections: map<string, set<int>>) {
    forall year :: year in selections ==> selections[year] != {}
  }

  /**
   * `toggleFinancialSelection(year, season)`: flips `season` for `year` alone,
   * and drops the year once its last quarter is gone.
   */
  function Toggled(selections: map<string, set<int>>, year: string, season: int): (r: map<string, set<int>>)
    ensures forall s :: s in SeasonsOf(r, year) <==> (s == season) != (s in SeasonsOf(selections, year))
    ensures forall y :: y != year ==> (y in r <==> y in selections) && SeasonsOf(r, y) == SeasonsOf(selections, y)
    ensures year in r <==> SeasonsOf(r, year) != {}
    ensures NoEmptySeasons(selections) ==> NoEmptySeasons(r)
  {
    var current := SeasonsOf(selections, year);
    var next := if season in current then current - {season} else current + {season};
    if next == {} then selections - {year} else selections[year := next]
  }

  /** Toggling the same quarter twice gives back the selections the screen can hold. */
  lemma ToggleTwice(selections: map<string, set<int>>, year: string, season: int)
    requires NoEmptySeasons(selections)
    ensures Toggled(Toggled(selections, year, season), year, season) == selections
  {
    var once := Toggled(selections, year, season);
    var twice := Toggled(once, year, season);
    assert SeasonsOf(twice, year) == SeasonsOf(selections, year);
    assert twice.Keys == selections.Keys;
  }

  /** Whether `year` is chosen; an absent year is not. */
  function Chosen(selections: map<string, bool>, year: string): bool {
    year in selections && selections[year]
  }

  /** `toggleAnnualSelection(year)`: the year's flag, absent meaning false, is negated; no other year changes. */
  function Flipped(selections: map<string, bool>, year: string): (r: map<string, bool>)
    ensures year in r && Chosen(r, year) == !Chosen(selections, year)
    ensures forall y :: y != year ==> (y in r <==> y in selections) && Chosen(r, y) == Chosen(selections, y)
  {
    selections[year := !Chosen(selections, year)]
  }

  /** Flipping twice restores a year that was present, and leaves an absent one recorded as false. */
  lemma FlipTwice(selections: map<string, bool>, year: string)
    ensures Flipped(Flipped(selections, year), year) == selections[year := Chosen(selections, year)]
    ensures year in selections ==> Flipped(Flipped(selections, year), year) == selections
  {
  }

  // Building the tasks

  /** The task for one chosen quarter, stored as `{code}_{year}_Q{season}_財報.pdf`. */
  function FinancialTask(code: string, year: string, season: int): W.DownloadTask {
    W.DownloadTask(code, year, Some(IntToString(season)), W.Financial,
                   code + "_" + year + "_Q" + IntToString(season) + "_財報.pdf")
  }

  /** The task for one chosen annual report, stored as `{code}_{year}_年報.pdf`. */
  function AnnualTask(code: string, year: string): W.DownloadTask {
    W.DownloadTask(code, year, None, W.Annual, code + "_" + year + "_年報.pdf")
  }

  lemma FinancialTaskInjective(code: string, y1: string, s1: int, y2: string, s2: int)
    ensures FinancialTask(code, y1, s1) == FinancialTask(code, y2, s2) ==> y1 == y2 && s1 == s2
  {
    if FinancialTask(code, y1, s1) == FinancialTask(code, y2, s2) {
      IntToStringInjective(s1, s2);
    }
  }

  /** `t` is one of the tasks the selections in `state` ask for. */
  predicate Requested(state: UiState, t: W.DownloadTask) {
    (state.isFinancialChecked && t.year in state.financialSelections
     && exists s :: s in state.financialSelections[t.year] && t == FinancialTask(state.stockCode, t.year, s))
    || (state.isAnnualChecked && Chosen(state.annualSelections, t.year) && t == AnnualTask(state.stockCode, t.year))
  }

  predicate Distinct(tasks: seq<W.DownloadTask>) {
    forall i, j :: 0 <= i < j < |tasks| ==> tasks[i] != tasks[j]
  }

  /** The number of quarters chosen over `years`. */
  ghost function SeasonTotal(selections: map<string, set<int>>, years: set<string>): nat
    requires years <= selections.Keys
    decreases years
  {
    if years == {} then 0
    else var y :| y in years; |selections[y]| + SeasonTotal(selections, years - {y})
  }

  /** The total does not depend on which year is counted first. */
  lemma {:induction false} SeasonTotalTake(selections: map<string, set<int>>, years: set<string>, y: string)
    requires years <= selections.Keys && y in years
    ensures SeasonTotal(selections, years) == |selections[y]| + SeasonTotal(selections, years - {y})
    decreases years
  {
    var z :| z in years && SeasonTotal(selections, years) == |selections[z]| + SeasonTotal(selections, years - {z});
    if z != y {
      SeasonTotalTake(selections, years - {z}, y);
      SeasonTotalTake(selections, years - {y}, z);
      assert years - {z} - {y} == years - {y} - {z};
    }
  }

  /** The number of years among `years` whose annual report is chosen. */
  ghost function ChosenTotal(selections: map<string, bool>, years: set<string>): nat
    requires years <= selections.Keys
    decreases years
  {
    if years == {} then 0
    else var y :| y in years; (if selections[y] then 1 else 0) + ChosenTotal(selections, years - {y})
  }

  lemma {:induction false} ChosenTotalTake(selections: map<string, bool>, years: set<string>, y: string)
    requires years <= selections.Keys && y in years
    ensures ChosenTotal(selections, years) == (if selections[y] then 1 else 0) + ChosenTotal(selections, years - {y})
    decreases years
  {
    var z :| z in years && ChosenTotal(selections, years) == (if selections[z] then 1 else 0) + ChosenTotal(selections, years - {z});
    if z != y {
      ChosenTotalTake(selections, years - {z}, y);
      ChosenTotalTake(selections, years - {y}, z);
      assert years - {z} - {y} == years - {y} - {z};
    }
  }

  /** How many tasks `buildTasks` makes from `state`. */
  ghost function TaskCount(state: UiState): nat {
    (if state.isFinancialChecked then SeasonTotal(state.financialSelections, state.financialSelections.Keys) else 0)
    + (if state.isAnnualChecked then ChosenTotal(state.annualSelections, state.annualSelections.Keys) else 0)
  }

  /** Some member of a non-empty set: the set's iteration order is left open. */
  method Pick<T>(items: set<T>) returns (x: T)
    requires items != {}
    ensures x in items
  {
    x :| x in items;
  }

  /** Appends the task of every quarter in `seasons`, in the set's iteration order. */
  method AddQuarters(tasks: seq<W.DownloadTask>, code: string, year: string, seasons: set<int>)
    returns (r: seq<W.DownloadTask>)
    requires Distinct(tasks)
    requires forall t :: t in tasks ==> t.year != year
    ensures Distinct(r) && |r| == |tasks| + |seasons| && r[..|tasks|] == tasks
    ensures forall t :: t in r <==> t in tasks || exists s :: s in seasons && t == FinancialTask(code, year, s)
  {
    r := tasks;
    var left := seasons;
    while left != {}
      invariant left <= seasons && Distinct(r) && |r| == |tasks| + |seasons - left| && r[..|tasks|] == tasks
      invariant forall t :: t in r <==> t in tasks || exists s :: s in seasons - left && t == FinancialTask(code, year, s)
      decreases |left|
    {
      var s := Pick(left);
      var t := FinancialTask(code, year, s);
      forall u | u in r ensures u != t {
        if u !in tasks {
          var s' :| s' in seasons - left && u == FinancialTask(code, year, s');
          FinancialTaskInjective(code, year, s, year, s');
        }
      }
      r := r + [t];
      assert seasons - (left - {s}) == (seasons - left) + {s};
      left := left - {s};
    }
  }
  /** `t` is the task of a quarter chosen for one of `years`. */
  predicate QuarterTask(code: string, selections: map<string, set<int>>, years: set<string>, t: W.DownloadTask) {
    t.year in years && t.year in selections
    && exists s :: s in selections[t.year] && t == FinancialTask(code, t.year, s)
  }

  /** What `r` holds once the years in `done` have been visited. */
  ghost predicate QuartersSoFar(r: seq<W.DownloadTask>, code: string, selections: map<string, set<int>>, done: set<string>) {
    && done <= selections.Keys && Distinct(r)
    && |r| == SeasonTotal(selections, done)
    && (forall t :: t in r <==> QuarterTask(code, selections, done, t))
  }

  lemma QuartersStep(r: seq<W.DownloadTask>, r': seq<W.DownloadTask>, code: string,
                     selections: map<string, set<int>>, done: set<string>, y: string)
    requires QuartersSoFar(r, code, selections, done) && y in selections && y !in done
    requires Distinct(r') && |r'| == |r| + |selections[y]|
    requires forall t :: t in r' <==> t in r || exists s :: s in selections[y] && t == FinancialTask(code, y, s)
    ensures QuartersSoFar(r', code, selections, done + {y})
  {
    SeasonTotalTake(selections, done + {y}, y);
    assert done + {y} - {y} == done;
  }

  /** The quarters of every year in `selections`, year by year in the map's iteration order. */
  method AddAllQuarters(code: string, selections: map<string, set<int>>) returns (r: seq<W.DownloadTask>)
    ensures Distinct(r) && |r| == SeasonTotal(selections, selections.Keys)
    ensures forall t :: t in r <==> QuarterTask(code, selections, selections.Keys, t)
  {
    r := [];
    var left := selections.Keys;
    while left != {}
      invariant left <= selections.Keys
      invariant QuartersSoFar(r, code, selections, selections.Keys - left)
      decreases |left|
    {
      var y := Pick(left);
      var r' := AddQuarters(r, code, y, selections[y]);
      QuartersStep(r, r', code, selections, selections.Keys - left, y);
      assert selections.Keys - (left - {y}) == selections.Keys - left + {y};
      r, left := r', left - {y};
    }
    assert selections.Keys - left == selections.Keys;
  }

  /** What `r` holds once the years in `done` have been visited. */
  ghost predicate AnnualSoFar(tasks: seq<W.DownloadTask>, r: seq<W.DownloadTask>, code: string,
                        selections: map<string, bool>, done: set<string>) {
    && done <= selections.Keys && Distinct(r)
    && |tasks| <= |r| == |tasks| + ChosenTotal(selections, done)
    && r[..|tasks|] == tasks && (forall i :: |tasks| <= i < |r| ==> r[i].reportType.Annual?)
    && (forall t :: t in r <==> t in tasks || (t.year in done && selections[t.year] && t == AnnualTask(code, t.year)))
  }

  lemma AnnualStep(tasks: seq<W.DownloadTask>, r: seq<W.DownloadTask>, code: string,
                   selections: map<string, bool>, done: set<string>, y: string)
    requires Distinct(tasks) && forall t :: t in tasks ==> t.reportType.Financial?
    requires AnnualSoFar(tasks, r, code, selections, done) && y in selections && y !in done
    ensures AnnualSoFar(tasks, if selections[y] then r + [AnnualTask(code, y)] else r, code, selections, done + {y})
  {
    ChosenTotalTake(selections, done + {y}, y);
    assert done + {y} - {y} == done;
    if selections[y] {
      var r' := r + [AnnualTask(code, y)];
      assert r'[..|tasks|] == r[..|tasks|];
      forall i | 0 <= i < |r| ensures r[i] != AnnualTask(code, y) {
        assert r[i] in r;
        if i < |tasks| { assert r[i] == tasks[i]; }
      }
    }
  }

  /** Appends the annual report of every year flagged true, in the map's iteration order. */
  method AddAnnualReports(tasks: seq<W.DownloadTask>, code: string, selections: map<string, bool>)
    returns (r: seq<W.DownloadTask>)
    requires Distinct(tasks) && forall t :: t in tasks ==> t.reportType.Financial?
    ensures Distinct(r) && |r| == |tasks| + ChosenTotal(selections, selections.Keys)
    ensures r[..|tasks|] == tasks && forall i :: |tasks| <= i < |r| ==> r[i].reportType.Annual?
    ensures forall t :: t in r <==> t in tasks || (Chosen(selections, t.year) && t == AnnualTask(code, t.year))
  {
    r := tasks;
    var left := selections.Keys;
    while left != {}
      invariant left <= selections.Keys
      invariant AnnualSoFar(tasks, r, code, selections, selections.Keys - left)
      decreases |left|
    {
      var y := Pick(left);
      AnnualStep(tasks, r, code, selections, selections.Keys - left, y);
      assert selections.Keys - (left - {y}) == selections.Keys - left + {y};
      if selections[y] {
        r := r + [AnnualTask(code, y)];
      }
      left := left - {y};
    }
    assert selections.Keys - left == selections.Keys;
  }

  /**
   * `buildTasks`: one task per chosen quarter when financial reports are
   * ticked, then one per chosen year when annual reports are ticked.
   */
  method BuildTasks(state: UiState) returns (tasks: seq<W.DownloadTask>)
    ensures Distinct(tasks) && |tasks| == TaskCount(state)
    ensures forall t :: t in tasks <==> Requested(state, t)
    ensures forall i, j :: 0 <= i < j < |tasks| && tasks[i].reportType.Annual? ==> tasks[j].reportType.Annual?
  {
    tasks := [];
    if state.isFinancialChecked {
      tasks := AddAllQuarters(state.stockCode, state.financialSelections);
    }
    assert forall t :: t in tasks ==> t.reportType.Financial?;
    if state.isAnnualChecked {
      var quarters := tasks;
      tasks := AddAnnualReports(tasks, state.stockCode, state.annualSelections);
      forall i | 0 <= i < |quarters| ensures tasks[i].reportType.Financial? {
        assert tasks[i] == tasks[..|quarters|][i] == quarters[i];
      }
    }
  }

  // Pacing

  /** `getDelayStrategy`: the delay window, in milliseconds, for a batch of `total` tasks. */
  function DelayStrategy(total: int): (r: (int, int))
    ensures 1000 <= r.0 <= r.1
  {
    if 1 <= total <= 5 then (1000, 2000)
    else if 6 <= total <= 15 then (3000, 5000)
    else (4000, 7000)
  }

  /** A larger batch never waits less. */
  lemma DelayMonotone(a: int, b: int)
    requires 1 <= a <= b
    ensures DelayStrategy(a).0 <= DelayStrategy(b).0 && DelayStrategy(a).1 <= DelayStrategy(b).1
  {
  }

  /** The mode named in the strategy line, chosen by the same thresholds as the window. */
  function SpeedMode(total: int): string {
    if 1 <= total <= 5 then "快速"
    else if 6 <= total <= 15 then "常規"
    else "慢速"
  }

  /** `addLogFromStrategy`: the window is shown in whole seconds. */
  function StrategyLine(total: int, delayMin: int, delayMax: int): string {
    "提示：啟用" + SpeedMode(total) + "下載模式 (" + IntToString(delayMin / 1000) + "-" + IntToString(delayMax / 1000) + "秒/個)。"
  }

  /** Up to five tasks: the fast mode, one to two seconds apart. */
  lemma FastStrategyLine(total: int)
    requires 1 <= total <= 5
    ensures var w := DelayStrategy(total); StrategyLine(total, w.0, w.1) == "提示：啟用快速下載模式 (1-2秒/個)。"
  {
    assert IntToString(1) == "1" && IntToString(2) == "2";
  }

  /** Six to fifteen tasks: the regular mode, three to five seconds apart. */
  lemma RegularStrategyLine(total: int)
    requires 6 <= total <= 15
    ensures var w := DelayStrategy(total); StrategyLine(total, w.0, w.1) == "提示：啟用常規下載模式 (3-5秒/個)。"
  {
    assert IntToString(3) == "3" && IntToString(5) == "5";
  }

  /** Any other count, including the empty batch: the slow mode, four to seven seconds apart. */
  lemma SlowStrategyLine(total: int)
    requires !(1 <= total <= 15)
    ensures var w := DelayStrategy(total); StrategyLine(total, w.0, w.1) == "提示：啟用慢速下載模式 (4-7秒/個)。"
  {
    assert IntToString(4) == "4" && IntToString(7) == "7";
  }

  // Ordering

  function Rank(t: W.DownloadTask): int { if t.reportType.Financial? then 0 else 1 }
  function YearValue(t: W.DownloadTask): int {
    match ParseInt(t.year) case Some(v) => v case None => 0
  }
  function SeasonKey(t: W.DownloadTask): int {
    match t.season
    case None => 5
    case Some(s) => match ParseInt(s) case Some(v) => v case None => 5
  }
  predicate NumericYear(t: W.DownloadTask) { ParseInt(t.year).Some? }

  /** `a` sorts strictly before `b`: type, then year descending, then season. */
  predicate Before(a: W.DownloadTask, b: W.DownloadTask) {
    Rank(a) < Rank(b)
    || (Rank(a) == Rank(b) && (YearValue(a) > YearValue(b)
        || (YearValue(a) == YearValue(b) && SeasonKey(a) < SeasonKey(b))))
  }

  predicate Sorted(s: seq<W.DownloadTask>) {
    forall i, j :: 0 <= i < j < |s| ==> !Before(s[j], s[i])
  }

  /** What a sorted list means: financial before annual, then later years first, then lower quarters first. */
  lemma SortedOrder(s: seq<W.DownloadTask>, i: int, j: int)
    requires Sorted(s) && 0 <= i < j < |s|
    ensures s[i].reportType.Annual? ==> s[j].reportType.Annual?
    ensures s[i].reportType == s[j].reportType ==> YearValue(s[i]) >= YearValue(s[j])
    ensures s[i].reportType == s[j].reportType && YearValue(s[i]) == YearValue(s[j]) ==> SeasonKey(s[i]) <= SeasonKey(s[j])
  {
  }

  /** A quarter task sorts by its quarter number; an annual task sorts as quarter 5. */
  lemma SeasonKeys(code: string, year: string, season: int)
    requires IsInt32(season)
    ensures SeasonKey(FinancialTask(code, year, season)) == season
    ensures SeasonKey(AnnualTask(code, year)) == 5
  {
    ParseIntToString(season);
  }

  lemma NotBeforeTrans(a: W.DownloadTask, b: W.DownloadTask, c: W.DownloadTask)
    requires !Before(b, a) && !Before(c, b)
    ensures !Before(c, a)
  {}

  lemma BeforeAsym(a: W.DownloadTask, b: W.DownloadTask)
    requires Before(a, b)
    ensures !Before(b, a)
  {}

  method Swap(a: array<W.DownloadTask>, i: int, j: int)
    requires 0 <= i < j < a.Length
    modifies a
    ensures a[..] == old(a[..])[i := old(a[j])][j := old(a[i])]
    ensures multiset(a[..]) == old(multiset(a[..]))
  {
    a[i], a[j] := a[j], a[i];
  }

  /** Insertion of `s[i]` under way: it now sits at `j`, before everything to its right. */
  predicate Inserting(s: seq<W.DownloadTask>, i: int, j: int) {
    0 <= j <= i < |s|
    && (forall p, q :: 0 <= p < q <= i && p != j && q != j ==> !Before(s[q], s[p]))
    && (forall q :: j < q <= i ==> Before(s[j], s[q]))
  }

  lemma InsertingStart(s: seq<W.DownloadTask>, i: int)
    requires 0 <= i < |s| && Sorted(s[..i])
    ensures Inserting(s, i, i)
  {
    forall p, q | 0 <= p < q <= i && p != i && q != i ensures !Before(s[q], s[p]) {
      assert s[..i][p] == s[p] && s[..i][q] == s[q];
    }
  }

  lemma InsertingStep(s: seq<W.DownloadTask>, i: int, j: int)
    requires Inserting(s, i, j) && 0 < j && Before(s[j], s[j - 1])
    ensures Inserting(s[j - 1 := s[j]][j := s[j - 1]], i, j - 1)
  {}

  lemma InsertingDone(s: seq<W.DownloadTask>, i: int, j: int)
    requires Inserting(s, i, j) && (j == 0 || !Before(s[j], s[j - 1]))
    ensures Sorted(s[..i + 1])
  {
    forall p, q | 0 <= p < q <= i ensures !Before(s[q], s[p]) {
      if q == j {
        if p < j - 1 { NotBeforeTrans(s[p], s[j - 1], s[j]); }
      } else if p == j {
        BeforeAsym(s[p], s[q]);
      }
    }
  }

  /** Moves `a[i]` left past the tasks it sorts before, as one step of insertion sort. */
  method InsertLast(a: array<W.DownloadTask>, i: int)
    requires 0 < i < a.Length && Sorted(a[..i])
    modifies a
    ensures Sorted(a[..i + 1]) && multiset(a[..]) == multiset(old(a[..]))
  {
    var j := i;
    InsertingStart(a[..], i);
    while j > 0 && Before(a[j], a[j - 1])
      invariant Inserting(a[..], i, j)
      invariant multiset(a[..]) == multiset(old(a[..]))
    {
      InsertingStep(a[..], i, j);
      Swap(a, j - 1, j);
      j := j - 1;
    }
    InsertingDone(a[..], i, j);
  }

  method SortTasks(a: array<W.DownloadTask>)
    requires forall k :: 0 <= k < a.Length ==> NumericYear(a[k])
    modifies a
    ensures Sorted(a[..]) && multiset(a[..]) == multiset(old(a[..]))
  {
    if a.Length == 0 { return; }
    var i := 1;
    while i < a.Length
      invariant 1 <= i <= a.Length
      invariant Sorted(a[..i]) && multiset(a[..]) == multiset(old(a[..]))
    {
      InsertLast(a, i);
      i := i + 1;
    }
    assert a[..] == a[..i];
  }

  // Starting a download

  /** Every year the batch can draw on reads as an integer, so the sort's `toInt()` does not throw. */
  predicate YearsNumeric(state: UiState) {
    && (state.isFinancialChecked ==> forall y :: y in state.financialSelections ==> ParseInt(y).Some?)
    && (state.isAnnualChecked ==> forall y :: y in state.annualSelections && state.annualSelections[y] ==> ParseInt(y).Some?)
  }

  /** The lines `startDownload` logs when it turns the batch down, in the order of its checks; none when it goes ahead. */
  ghost function Rejection(state: UiState, limit: int): seq<string> {
    if state.directoryUri.None? then [NoFolderLine]
    else if IsBlank(state.stockCode) then [NoCodeLine]
    else if TaskCount(state) == 0 then [NothingSelectedLine]
    else if TaskCount(state) > limit then [LimitLine(limit, TaskCount(state)), ReduceLine]
    else []
  }

  /** A batch goes ahead exactly when a folder is chosen, a code is typed and the count is between one and the limit. */
  lemma AdmittedExactly(state: UiState, limit: int)
    ensures Rejection(state, limit) == [] <==>
      state.directoryUri.Some? && !IsBlank(state.stockCode) && 0 < TaskCount(state) <= limit
    ensures |Rejection(state, limit)| <= 2
  {
  }

  /** The request `startDownload` enqueues for an admitted batch. */
  ghost predicate Submission(w: W.WorkInput, state: UiState, limit: int) {
    var n := TaskCount(state);
    && w.tasks.Some? && |w.tasks.value| == n && 0 < n <= limit
    && Sorted(w.tasks.value)
    && (forall t :: t in w.tasks.value <==> Requested(state, t))
    && w.directoryUri == state.directoryUri && w.directoryUri.Some?
    && w.delayMin == Some(DelayStrategy(n).0) && w.delayMax == Some(DelayStrategy(n).1)
  }

  /**
   * Whatever the repository answers, whatever the folder does and whenever a
   * stop comes, the worker reports success for a submitted batch: every task
   * has its quarter and the pacing window is not empty.
   */
  lemma SubmittedRunSucceeds(w: W.WorkInput, state: UiState, limit: int, t0: W.Trace, stopAt: Option<nat>,
                             repos: nat -> W.Repository, storage: nat -> W.StorageFault, ws: seq<int>)
    requires Submission(w, state, limit)
    requires var tasks := w.tasks.value;
      |ws| == W.WaitCount(W.EndFrom(tasks, 0, stopAt, w.delayMin.value, w.delayMax.value), |tasks|)
    ensures var tasks := w.tasks.value;
      var r := W.Run(W.Start(t0, |tasks|), tasks, stopAt, w.delayMin.value, w.delayMax.value, repos, storage, ws);
      && r.1 == W.Success
      && (stopAt.None? ==> r.0.resolved == W.Start(t0, |tasks|).resolved + tasks)
  {
    var tasks := w.tasks.value;
    forall j | 0 <= j < |tasks| ensures W.Resolvable(tasks[j]) {
      assert tasks[j] in tasks;
    }
    W.WellFormedRunSucceeds(W.Start(t0, |tasks|), tasks, stopAt, w.delayMin.value, w.delayMax.value, repos, storage, ws);
  }

  /** The screen's view model: the current `MainUiState`, and the work it enqueued and cancelled. */
  class ViewModel {
    var state: UiState
    /** The id of the last request enqueued: its position in `enqueued`. */
    var workId: Option<nat>
    var enqueued: seq<W.WorkInput>
    var cancelledWork: seq<nat>
    /** `BuildConfig.MAX_DOWNLOAD_LIMIT`. */
    const downloadLimit: int

    /** The defaults of `MainUiState`, with the folder the settings store holds. */
    constructor (downloadLimit: int, savedDirectory: Option<string>)
      ensures state == InitialState.(directoryUri := savedDirectory)
      ensures workId.None? && enqueued == [] && cancelledWork == [] && this.downloadLimit == downloadLimit
    {
      state := InitialState.(directoryUri := savedDirectory);
      workId := None;
      enqueued := [];
      cancelledWork := [];
      this.downloadLimit := downloadLimit;
    }

    method ToggleFinancialSelection(year: string, season: int)
      modifies this`state
      ensures state == old(state).(financialSelections := Toggled(old(state).financialSelections, year, season))
    {
      var newSelections := state.financialSelections;
      var currentSeasons: set<int> := if year in newSelections then newSelections[year] else {};
      if season in currentSeasons {
        currentSeasons := currentSeasons - {season};
      } else {
        currentSeasons := currentSeasons + {season};
      }
      if currentSeasons == {} {
        newSelections := newSelections - {year};
      } else {
        newSelections := newSelections[year := currentSeasons];
      }
      state := state.(financialSelections := newSelections);
    }

    method ToggleAnnualSelection(year: string)
      modifies this`state
      ensures state == old(state).(annualSelections := Flipped(old(state).annualSelections, year))
    {
      var newSelections := state.annualSelections;
      if year !in newSelections {
        newSelections := newSelections[year := false];
      }
      var isSelected := newSelections[year];
      newSelections := newSelections[year := !isSelected];
      state := state.(annualSelections := newSelections);
    }

    method AddLog(line: string)
      modifies this`state
      ensures state == old(state).(logMessages := old(state).logMessages + [line])
    {
      state := state.(logMessages := state.logMessages + [line]);
    }

    /** Empties the log and resets the progress text, unless a download is running. */
    method ClearLogs()
      modifies this`state
      ensures old(state).isDownloading ==> state == old(state)
      ensures !old(state).isDownloading ==> state == old(state).(logMessages := [], currentProgress := Ready)
    {
      if !state.isDownloading {
        state := state.(logMessages := [], currentProgress := Ready);
      }
    }

    /** Cancels the last enqueued request, if any, and shows the run as cancelled. */
    method CancelDownloads()
      modifies this`state, this`cancelledWork
      ensures cancelledWork == old(cancelledWork) + (if workId.Some? then [workId.value] else [])
      ensures state == old(state).(showCancelConfirmDialog := false, isDownloading := false,
                                   currentProgress := W.CancelledProgress)
    {
      if workId.Some? {
        cancelledWork := cancelledWork + [workId.value];
      }
      state := state.(showCancelConfirmDialog := false);
      state := state.(isDownloading := false, currentProgress := W.CancelledProgress);
    }

    /**
     * `startDownload`: a rejected batch only adds its lines to the log; an
     * admitted one is sorted and enqueued with its pacing window, and the log
     * is emptied, which also drops the strategy line just added.
     */
    method StartDownload()
      requires YearsNumeric(state)
      modifies this`state, this`enqueued, this`workId
      ensures Rejection(old(state), downloadLimit) != [] ==>
        && state == old(state).(logMessages := old(state).logMessages + Rejection(old(state), downloadLimit))
        && enqueued == old(enqueued) && workId == old(workId)
      ensures Rejection(old(state), downloadLimit) == [] ==>
        && |enqueued| == |old(enqueued)| + 1 && enqueued[..|old(enqueued)|] == old(enqueued)
        && Submission(enqueued[|old(enqueued)|], old(state), downloadLimit)
        && workId == Some(|old(enqueued)|)
        && state == old(state).(isDownloading := true, logMessages := [], currentProgress := Submitted)
    {
      var current := state;
      if current.directoryUri.None? {
        AddLog(NoFolderLine);
        return;
      }
      if IsBlank(current.stockCode) {
        AddLog(NoCodeLine);
        return;
      }
      var tasks := BuildTasks(current);
      if |tasks| == 0 {
        AddLog(NothingSelectedLine);
        return;
      }
      var totalTasks := |tasks|;
      if totalTasks > downloadLimit {
        AddLog(LimitLine(downloadLimit, totalTasks));
        AddLog(ReduceLine);
        return;
      }
      Submit(tasks);
    }

    /** The admitted half of `startDownload`: log the strategy, sort, enqueue, show the run as submitted. */
    method Submit(tasks: seq<W.DownloadTask>)
      requires YearsNumeric(state) && state.directoryUri.Some? && !IsBlank(state.stockCode)
      requires |tasks| == TaskCount(state) && 0 < |tasks| <= downloadLimit
      requires forall t :: t in tasks <==> Requested(state, t)
      modifies this`state, this`enqueued, this`workId
      ensures Rejection(old(state), downloadLimit) == []
      ensures |enqueued| == |old(enqueued)| + 1 && enqueued[..|old(enqueued)|] == old(enqueued)
      ensures Submission(enqueued[|old(enqueued)|], old(state), downloadLimit)
      ensures workId == Some(|old(enqueued)|)
      ensures state == old(state).(isDownloading := true, logMessages := [], currentProgress := Submitted)
    {
      var current := state;
      var (delayMin, delayMax) := DelayStrategy(|tasks|);
      AddLog(StrategyLine(|tasks|, delayMin, delayMax));
      var sorted := SortedCopy(tasks, current);
      SubmissionOf(current, downloadLimit, tasks, sorted);
      enqueued := enqueued + [W.WorkInput(Some(sorted), current.directoryUri, Some(delayMin), Some(delayMax))];
      workId := Some(|enqueued| - 1);
      state := state.(isDownloading := true, logMessages := [], currentProgress := Submitted);
    }
  }

  /** A batch that passes the checks, sorted, makes a `Submission`. */
  lemma SubmissionOf(state: UiState, limit: int, tasks: seq<W.DownloadTask>, sorted: seq<W.DownloadTask>)
    requires state.directoryUri.Some? && !IsBlank(state.stockCode)
    requires |tasks| == TaskCount(state) && 0 < |tasks| <= limit
    requires forall t :: t in tasks <==> Requested(state, t)
    requires Sorted(sorted) && multiset(sorted) == multiset(tasks)
    ensures Rejection(state, limit) == []
    ensures var w := DelayStrategy(|tasks|);
      Submission(W.WorkInput(Some(sorted), state.directoryUri, Some(w.0), Some(w.1)), state, limit)
  {
    assert |sorted| == |multiset(sorted)| == |tasks|;
    forall t ensures t in sorted <==> t in tasks {
      assert t in sorted <==> t in multiset(sorted);
    }
  }

  /** `tasks.sortWith(...)` on the built list: the same tasks, in order. */
  method SortedCopy(tasks: seq<W.DownloadTask>, state: UiState) returns (sorted: seq<W.DownloadTask>)
    requires YearsNumeric(state) && forall t :: t in tasks ==> Requested(state, t)
    ensures Sorted(sorted) && multiset(sorted) == multiset(tasks)
  {
    var a := new W.DownloadTask[|tasks|](i requires 0 <= i < |tasks| => tasks[i]);
    assert a[..] == tasks;
    forall k | 0 <= k < a.Length ensures NumericYear(a[k]) {
      assert a[k] in tasks;
    }
    SortTasks(a);
    sorted := a[..];
  }
}
