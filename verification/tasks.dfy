/** The pure logic of the task page (`src/pages/Tasks.tsx`): status
    classification, the unfinished count, the status badge, the progress
    bar width and the guard that keeps two loads from overlapping. A task
    is reduced to its status string (`String(status || '')`). */
module Tasks {
  import opened Wrappers
  import opened Text
  import opened Tables
  import Status

  /** `isDone`: the same four words as the status mapping's completed
      pattern. */
  predicate IsDone(st: string) {
    Status.IsCompletedWord(st)
  }

  /** `isFailed`: only `failed` and `error`. */
  predicate IsFailed(st: string) {
    var l := Lower(st);
    l == "failed" || l == "error"
  }

  predicate IsUnfinished(st: string) {
    !IsDone(st) && !IsFailed(st)
  }

  /** The page counts fewer statuses as failed than the poller maps to
      `failed`: a cancelled task is still unfinished here. */
  lemma CancelledIsUnfinished(st: string)
    ensures IsFailed(st) ==> Status.IsFailedWord(st)
    ensures Lower(st) == "canceled" || Lower(st) == "cancelled" ==>
      IsUnfinished(st) && Status.IsFailedWord(st)
  {
  }

  /** `unfinishedCount`. */
  function UnfinishedCount(statuses: seq<string>): (n: nat)
    ensures n <= |statuses|
  {
    |Where(statuses, IsUnfinished)|
  }

  /** Every task is exactly one of done, failed or unfinished. */
  lemma {:induction false} StatusesPartition(statuses: seq<string>)
    ensures CountWhere(statuses, IsDone) + CountWhere(statuses, IsFailed) + UnfinishedCount(statuses)
      == |statuses|
  {
    CountIsWhereLength(statuses, IsUnfinished);
    ClassesPartition(statuses);
  }

  lemma {:induction false} ClassesPartition(statuses: seq<string>)
    ensures CountWhere(statuses, IsDone) + CountWhere(statuses, IsFailed)
      + CountWhere(statuses, IsUnfinished) == |statuses|
    decreases |statuses|
  {
    if |statuses| > 0 {
      var st := statuses[0];
      assert !(IsDone(st) && IsFailed(st));
      ClassesPartition(statuses[1..]);
    }
  }

  // ---------------------------------------------------------------------
  // getStatusBadge

  datatype Tone = Green | Red | Yellow

  datatype Badge = Badge(text: string, tone: Tone)

  const DoneLabel: string := "\U{5DF2}\U{5B8C}\U{6210}"
  const FailedLabel: string := "\U{5931}\U{8D25}"
  const ProcessingLabel: string := "\U{5904}\U{7406}\U{4E2D}"

  /** `/^(processing|pending|running|queued)$/i`. */
  predicate IsProcessingWord(st: string) {
    var l := Lower(st);
    l == "processing" || l == "pending" || l == "running" || l == "queued"
  }

  /** `getStatusBadge`. */
  function StatusBadge(st: string): (b: Badge)
    ensures b.tone == Green <==> IsDone(st)
    ensures b.tone == Red <==> IsFailed(st)
    ensures b.tone == Yellow <==> IsUnfinished(st)
    ensures IsDone(st) ==> b.text == DoneLabel
    ensures IsFailed(st) ==> b.text == FailedLabel
    ensures IsUnfinished(st) && (st == [] || IsProcessingWord(st)) ==> b.text == ProcessingLabel
    ensures IsUnfinished(st) && st != [] && !IsProcessingWord(st) ==> b.text == st
  {
    if IsDone(st) then
      assert !IsFailed(st);
      Badge(DoneLabel, Green)
    else if IsFailed(st) then Badge(FailedLabel, Red)
    else if st == [] || IsProcessingWord(st) then Badge(ProcessingLabel, Yellow)
    else Badge(st, Yellow)
  }

  predicate HasYellowBadge(st: string) {
    StatusBadge(st).tone == Yellow
  }

  lemma {:induction false} WhereSame<T>(s: seq<T>, p: T -> bool, q: T -> bool)
    requires forall i :: 0 <= i < |s| ==> p(s[i]) == q(s[i])
    ensures Where(s, p) == Where(s, q)
    decreases |s|
  {
    if |s| > 0 {
      WhereSame(s[1..], p, q);
    }
  }

  /** The unfinished count in the header is the number of tasks shown with
      the yellow "processing" badge. */
  lemma YellowBadgesCounted(statuses: seq<string>)
    ensures |Where(statuses, HasYellowBadge)| == UnfinishedCount(statuses)
  {
    WhereSame(statuses, HasYellowBadge, IsUnfinished);
  }

  // ---------------------------------------------------------------------
  // Progress bar

  /** `Math.max(0, Math.min(100, g.progress || 0))`. */
  function ProgressWidth(progress: Option<int>): (w: int)
    ensures 0 <= w <= 100
    ensures progress.None? ==> w == 0
    ensures progress.Some? && 0 <= progress.value <= 100 ==> w == progress.value
    ensures progress.Some? && progress.value > 100 ==> w == 100
    ensures progress.Some? && progress.value < 0 ==> w == 0
  {
    var v := progress.GetOr(0);
    if v > 100 then 100 else if v < 0 then 0 else v
  }

  /** More progress never draws a shorter bar, and a drawn width redraws
      as itself. */
  lemma ProgressWidthMonotone(a: int, b: int)
    requires a <= b
    ensures ProgressWidth(Some(a)) <= ProgressWidth(Some(b))
    ensures ProgressWidth(Some(ProgressWidth(Some(a)))) == ProgressWidth(Some(a))
  {
  }

  // ---------------------------------------------------------------------
  // load

  datatype Source = Initial | Manual | Auto

  /** The page state `load` touches. */
  datatype Page<T> = Page(items: seq<T>, loading: bool, refreshing: bool, loadedOnce: bool, inFlight: bool)

  /** A started load: its source and whether it counts as the initial one. */
  datatype Run = Run(source: Source, initial: bool)

  /** The synchronous start of `load(source)`: nothing at all while another
      load is in flight; otherwise the in-flight flag is raised and the
      spinner for the kind of load is shown. */
  function StartLoad<T>(p: Page<T>, source: Source): (r: (Page<T>, Option<Run>))
    ensures p.inFlight ==> r == (p, None)
    ensures !p.inFlight ==> r.1.Some? && r.0.inFlight && r.0.items == p.items
    ensures !p.inFlight ==> r.1.value.initial == (source == Initial || !p.loadedOnce)
  {
    if p.inFlight then (p, None)
    else
      var initial := source == Initial || !p.loadedOnce;
      var p' := p.(inFlight := true,
                   loading := if initial then true else p.loading,
                   refreshing := if !initial && source == Manual then true else p.refreshing);
      (p', Some(Run(source, initial)))
  }

  /** The rest of a started load once `getTasks` settled: the list replaces
      the items on success, and in every case the spinner and the in-flight
      flag are cleared. */
  function FinishLoad<T>(p: Page<T>, run: Run, fetched: Result<seq<T>, string>): (r: Page<T>)
    ensures !r.inFlight
    ensures r.items == (if fetched.Success? then fetched.value else p.items)
    ensures r.loadedOnce == (p.loadedOnce || fetched.Success?)
  {
    p.(items := if fetched.Success? then fetched.value else p.items,
       loadedOnce := p.loadedOnce || fetched.Success?,
       loading := if run.initial then false else p.loading,
       refreshing := if !run.initial && run.source == Manual then false else p.refreshing,
       inFlight := false)
  }

  /** A load started while another is in flight is dropped and changes
      nothing; once the first load finishes, the next one starts. */
  lemma OverlappingLoadDropped<T>(p: Page<T>, first: Source, second: Source, fetched: Result<seq<T>, string>)
    requires !p.inFlight
    ensures var (p1, run) := StartLoad(p, first);
      var (p2, run2) := StartLoad(p1, second);
      && run2.None? && p2 == p1
      && StartLoad(FinishLoad(p2, run.value, fetched), second).1.Some?
  {
  }

  /** A full load of an idle page on its first run shows and then hides
      the loading spinner. */
  lemma InitialLoadSpinner<T>(p: Page<T>, source: Source, fetched: Result<seq<T>, string>)
    requires !p.inFlight && !p.loadedOnce
    ensures var (p1, run) := StartLoad(p, source);
      p1.loading && !FinishLoad(p1, run.value, fetched).loading
  {
  }
}
