/** Missing data points of a time series: running totals, and for every subscription a window in which
    points are counted until they are notified or discarded. */
module MissingData {
  import opened MissingPoints

  /** How many points a subscription has accounted for, and when its window opened (0: no window). */
  datatype Entry = Entry(reported: int, window: int)

  const NewEntry := Entry(0, 0)

  /** What a call of md_window_take does: the entry it leaves, the number of points to notify (0 for
      none) and the number accounted for before. */
  datatype Taken = Taken(entry: Entry, batch: int, before: int)

  predicate Expired(e: Entry, dur: int, now: int) {
    e.window > 0 && dur > 0 && now - e.window > dur
  }

  /** The points accounted for once an expired window is closed. */
  function AfterExpiry(e: Entry, total: int, found: int, dur: int, now: int): int {
    if Expired(e, dur, now) && total - found > e.reported then total - found else e.reported
  }

  function Take(e: Entry, total: int, found: int, num: int, dur: int, now: int): Taken {
    if num <= 0 then Taken(e, 0, 0)
    else
      var reported := AfterExpiry(e, total, found, dur, now);
      var window := if Expired(e, dur, now) || e.window == 0 then now else e.window;
      if total - reported >= num then Taken(Entry(reported + num, 0), num, reported)
      else Taken(Entry(reported, window), 0, 0)
  }

  // ----- every point is accounted for once

  /** Points start + 1 to start + count of a series, notified or discarded together. */
  datatype Run = Notified(start: int, count: int) | Discarded(start: int, count: int)

  /** The runs are not empty and follow on each other from point 1 to point `end`. */
  predicate Tiled(runs: seq<Run>, end: int) {
    if runs == [] then end == 0
    else
      var last := runs[|runs| - 1];
      last.count > 0 && last.start + last.count == end && Tiled(runs[..|runs| - 1], last.start)
  }

  /** The runs one call adds. */
  function RunsOf(e: Entry, total: int, found: int, num: int, dur: int, now: int): seq<Run> {
    if num <= 0 then []
    else
      var reported := AfterExpiry(e, total, found, dur, now);
      ExpiryRun(e, reported) + (if total - reported >= num then [Notified(reported, num)] else [])
  }

  lemma TiledMore(runs: seq<Run>, end: int, run: Run)
    requires Tiled(runs, end) && run.start == end && run.count > 0
    ensures Tiled(runs + [run], end + run.count)
  {
    var all := runs + [run];
    assert all[..|all| - 1] == runs;
  }

  /** The run an expired window adds. */
  function ExpiryRun(e: Entry, reported: int): seq<Run> {
    if reported > e.reported then [Discarded(e.reported, reported - e.reported)] else []
  }

  lemma TiledExpiry(runs: seq<Run>, e: Entry, reported: int)
    requires Tiled(runs, e.reported) && reported >= e.reported
    ensures Tiled(runs + ExpiryRun(e, reported), reported)
  {
    if reported > e.reported {
      TiledMore(runs, e.reported, Discarded(e.reported, reported - e.reported));
    } else {
      assert runs + [] == runs;
    }
  }

  /** A call accounts for points in order, never beyond the total it was called with. */
  lemma TakeTiles(runs: seq<Run>, e: Entry, total: int, found: int, num: int, dur: int, now: int)
    requires Tiled(runs, e.reported) && found >= 0
    ensures var t := Take(e, total, found, num, dur, now);
            && Tiled(runs + RunsOf(e, total, found, num, dur, now), t.entry.reported)
            && e.reported <= t.entry.reported && (t.entry.reported <= total || t.entry.reported == e.reported)
            && (t.batch == 0 || (t.batch == num && t.entry.reported == t.before + num))
  {
    hide Tiled;
    assert runs + [] == runs;
    if num > 0 {
      var reported := AfterExpiry(e, total, found, dur, now);
      var a := ExpiryRun(e, reported);
      TiledExpiry(runs, e, reported);
      if total - reported >= num {
        var b := Notified(reported, num);
        TiledMore(runs + a, reported, b);
        assert runs + a + [b] == runs + (a + [b]);
      } else {
        assert a + [] == a;
      }
    }
  }

  lemma {:induction false} RunsWithin(runs: seq<Run>, end: int, i: nat)
    requires Tiled(runs, end) && i < |runs|
    ensures 0 <= runs[i].start && runs[i].count > 0 && runs[i].start + runs[i].count <= end
  {
    var rest, last := runs[..|runs| - 1], runs[|runs| - 1];
    if i < |rest| {
      RunsWithin(rest, last.start, i);
      assert rest[i] == runs[i];
    } else {
      StartsAtZero(rest, last.start);
    }
  }

  lemma {:induction false} StartsAtZero(runs: seq<Run>, end: int)
    requires Tiled(runs, end)
    ensures end >= 0
  {
    if runs != [] {
      StartsAtZero(runs[..|runs| - 1], runs[|runs| - 1].start);
    }
  }

  /** No point is in two runs. */
  lemma {:induction false} RunsApart(runs: seq<Run>, end: int, i: nat, j: nat)
    requires Tiled(runs, end) && i < j < |runs|
    ensures runs[i].start + runs[i].count <= runs[j].start
  {
    var rest, last := runs[..|runs| - 1], runs[|runs| - 1];
    assert rest[i] == runs[i];
    if j < |rest| {
      RunsApart(rest, last.start, i, j);
      assert rest[j] == runs[j];
    } else {
      RunsWithin(rest, last.start, i);
    }
  }

  /** Every point up to `end` is in a run. */
  lemma {:induction false} RunsCover(runs: seq<Run>, end: int, p: int) returns (i: nat)
    requires Tiled(runs, end) && 1 <= p <= end
    ensures i < |runs| && runs[i].start < p <= runs[i].start + runs[i].count
  {
    var rest, last := runs[..|runs| - 1], runs[|runs| - 1];
    if p > last.start {
      i := |runs| - 1;
    } else {
      i := RunsCover(rest, last.start, p);
      assert rest[i] == runs[i];
    }
  }

  predicate InSomeRun(runs: seq<Run>, p: int) {
    exists i :: 0 <= i < |runs| && runs[i].start < p <= runs[i].start + runs[i].count
  }

  // ----- threads

  /** What a thread holds while it visits the subscriptions of a series, each at most once: the total as
      it left it, the points it found, and where it has been. */
  datatype Local = Local(series: string, total: int, found: int, seen: set<string>)

  /** What a thread has recorded and not yet counted. */
  datatype Carry = Carry(series: string, count: nat)

  /** The totals, windows and lists of missing points; what each of the threads holds; and as history the
      points ever recorded for a series, and what every subscription accounted for and was told. */
  datatype State = State(
    totals: map<string, int>, entries: map<string, Entry>, lists: map<string, seq<int>>,
    threads: nat, carries: map<nat, Carry>, locals: map<nat, Local>,
    recorded: map<string, seq<int>>, runs: map<string, seq<Run>>, told: map<string, seq<seq<int>>>)

  datatype Step =
    | Record(thread: nat, series: string, points: seq<int>, mdn: int)
    | Detect(thread: nat)
    | Visit(thread: nat, sub: string, num: int, dur: int, now: int)
    | Finish(thread: nat)
    | Disarm(series: string)

  function TotalOf(s: State, series: string): int {
    if series in s.totals then s.totals[series] else 0
  }

  function EntryOf(s: State, sub: string): Entry {
    if sub in s.entries then s.entries[sub] else NewEntry
  }

  function RunsFor(s: State, sub: string): seq<Run> {
    if sub in s.runs then s.runs[sub] else []
  }

  function ListOf(s: State, series: string): seq<int> {
    if series in s.lists then s.lists[series] else []
  }

  function RecordedOf(s: State, series: string): seq<int> {
    if series in s.recorded then s.recorded[series] else []
  }

  function ToldTo(s: State, sub: string): seq<seq<int>> {
    if sub in s.told then s.told[sub] else []
  }

  /** An atomic step: a thread records missing points in the list of a series, adds them to its total, visits
      one subscription of the series with the total it saw then and the list as it is now, or is done; or
      ts_md_disarm drops the total of a series and leaves its subscriptions and its list as they are.
      `of` says which series a subscription is for. */
  function Next(s: State, step: Step, of: string -> string): State {
    match step
    case Record(th, series, points, mdn) =>
      if !MayRecord(s, th, points) then s
      else
        s.(recorded := s.recorded[series := RecordedOf(s, series) + points],
           lists := s.lists[series := Newest(ListOf(s, series) + points, mdn)],
           carries := s.carries[th := Carry(series, |points|)])
    case Detect(th) =>
      if th !in s.carries then s
      else
        var c := s.carries[th];
        var total := TotalOf(s, c.series) + c.count;
        s.(totals := s.totals[c.series := total], carries := s.carries - {th},
           locals := s.locals[th := Local(c.series, total, c.count, {})])
    case Visit(th, sub, num, dur, now) =>
      if !MayVisit(s, th, sub, of) then s
      else
        var l, e := s.locals[th], EntryOf(s, sub);
        var t := Take(e, l.total, l.found, num, dur, now);
        var s' := s.(locals := s.locals[th := l.(seen := l.seen + {sub})]);
        if num <= 0 then s'
        else
          s'.(entries := s.entries[sub := t.entry],
              runs := s.runs[sub := RunsFor(s, sub) + RunsOf(e, l.total, l.found, num, dur, now)],
              told := if t.batch > 0 then s.told[sub := ToldTo(s, sub) + [Sent(s, l, t, num)]] else s.told)
    case Finish(th) => s.(locals := s.locals - {th})
    case Disarm(series) => s.(totals := s.totals - {series})
  }

  /** What a notification carries; if that is nothing, none is sent. */
  function Sent(s: State, l: Local, t: Taken, num: int): seq<int> {
    Batch(ListOf(s, l.series), l.total, t.before, num)
  }

  predicate MayRecord(s: State, th: nat, points: seq<int>) {
    th < s.threads && th !in s.locals && th !in s.carries && points != []
  }

  predicate MayVisit(s: State, th: nat, sub: string, of: string -> string) {
    th in s.locals && s.locals[th].series == of(sub) && sub !in s.locals[th].seen
  }

  function After(s: State, steps: seq<Step>, of: string -> string): State {
    if steps == [] then s else Next(After(s, steps[..|steps| - 1], of), steps[|steps| - 1], of)
  }

  function Start(threads: nat): State {
    State(map[], map[], map[], threads, map[], map[], map[], map[], map[])
  }

  /** No subscription is ahead of its series, and what each has accounted for is tiled by its runs. */
  ghost predicate Sound(s: State, of: string -> string) {
    forall sub :: SubOk(s, of(sub), sub)
  }

  predicate SubOk(s: State, series: string, sub: string) {
    0 <= EntryOf(s, sub).reported <= TotalOf(s, series) && Tiled(RunsFor(s, sub), EntryOf(s, sub).reported)
  }

  /** A thread that has subscriptions before it has not seen a total ahead of the present one. */
  ghost predicate LocalOk(s: State, l: Local, of: string -> string) {
    0 < l.found <= l.total && forall sub :: of(sub) == l.series && sub !in l.seen ==> l.total <= TotalOf(s, l.series)
  }

  ghost predicate Inv(s: State, of: string -> string) {
    && (forall series :: TotalOf(s, series) >= 0)
    && (forall th :: th in s.carries ==> s.carries[th].count > 0)
    && (forall th :: th in s.locals ==> LocalOk(s, s.locals[th], of))
    && Sound(s, of)
  }

  predicate NoDisarm(steps: seq<Step>) {
    forall i :: 0 <= i < |steps| ==> !steps[i].Disarm?
  }

  lemma DetectKeepsInv(s: State, step: Step, of: string -> string)
    requires Inv(s, of) && step.Detect?
    ensures Inv(Next(s, step, of), of)
  {
    var s' := Next(s, step, of);
    hide Tiled;
    assert forall sub :: EntryOf(s', sub) == EntryOf(s, sub) && RunsFor(s', sub) == RunsFor(s, sub);
    assert forall series :: TotalOf(s, series) <= TotalOf(s', series);
    forall th | th in s'.locals
      ensures LocalOk(s', s'.locals[th], of)
    {
      assert th in s.locals ==> LocalOk(s, s.locals[th], of);
    }
    forall sub
      ensures SubOk(s', of(sub), sub)
    {
      assert SubOk(s, of(sub), sub);
    }
  }

  lemma RecordKeepsInv(s: State, step: Step, of: string -> string)
    requires Inv(s, of) && step.Record?
    ensures Inv(Next(s, step, of), of)
  {
    var s' := Next(s, step, of);
    hide Tiled, Newest;
    assert forall series :: TotalOf(s', series) == TotalOf(s, series);
    forall th | th in s'.locals
      ensures LocalOk(s', s'.locals[th], of)
    {
      assert LocalOk(s, s.locals[th], of);
    }
    forall sub
      ensures SubOk(s', of(sub), sub)
    {
      assert SubOk(s, of(sub), sub);
    }
  }

  lemma VisitedOk(s: State, step: Step, of: string -> string)
    requires step.Visit? && MayVisit(s, step.thread, step.sub, of)
    requires LocalOk(s, s.locals[step.thread], of) && SubOk(s, of(step.sub), step.sub)
    ensures SubOk(Next(s, step, of), of(step.sub), step.sub)
  {
    var l, e := s.locals[step.thread], EntryOf(s, step.sub);
    TakeTiles(RunsFor(s, step.sub), e, l.total, l.found, step.num, step.dur, step.now);
  }

  lemma OthersOk(s: State, step: Step, of: string -> string, sub: string)
    requires step.Visit? && sub != step.sub && SubOk(s, of(sub), sub)
    ensures SubOk(Next(s, step, of), of(sub), sub)
  {
    hide Tiled, Take, RunsOf;
  }

  lemma LocalsKept(s: State, step: Step, of: string -> string)
    requires step.Visit? && MayVisit(s, step.thread, step.sub, of)
    requires forall th :: th in s.locals ==> LocalOk(s, s.locals[th], of)
    ensures var s' := Next(s, step, of); forall th :: th in s'.locals ==> LocalOk(s', s'.locals[th], of)
    ensures Next(s, step, of).totals == s.totals
  {
    hide Tiled, Take, RunsOf;
    var s' := Next(s, step, of);
    forall th | th in s'.locals
      ensures LocalOk(s', s'.locals[th], of)
    {
      assert LocalOk(s, s.locals[th], of);
    }
  }

  lemma VisitKeepsInv(s: State, step: Step, of: string -> string)
    requires Inv(s, of) && step.Visit?
    ensures Inv(Next(s, step, of), of)
  {
    var s' := Next(s, step, of);
    if MayVisit(s, step.thread, step.sub, of) {
      LocalsKept(s, step, of);
      hide Next, SubOk;
      VisitedOk(s, step, of);
      forall sub
        ensures SubOk(s', of(sub), sub)
      {
        if sub != step.sub {
          OthersOk(s, step, of, sub);
        }
      }
      assert forall series :: TotalOf(s', series) == TotalOf(s, series);
    }
  }

  lemma FinishKeepsInv(s: State, step: Step, of: string -> string)
    requires Inv(s, of) && step.Finish?
    ensures Inv(Next(s, step, of), of)
  {
    hide Tiled;
    var s' := Next(s, step, of);
    assert forall series :: TotalOf(s', series) == TotalOf(s, series);
    forall th | th in s'.locals
      ensures LocalOk(s', s'.locals[th], of)
    {
      assert LocalOk(s, s.locals[th], of);
    }
    forall sub
      ensures SubOk(s', of(sub), sub)
    {
      assert SubOk(s, of(sub), sub);
    }
  }

  lemma {:induction false} RunKeepsInv(s: State, steps: seq<Step>, of: string -> string)
    requires Inv(s, of) && NoDisarm(steps)
    ensures Inv(After(s, steps, of), of)
  {
    if steps != [] {
      var before, step := steps[..|steps| - 1], steps[|steps| - 1];
      RunKeepsInv(s, before, of);
      hide Inv, Next;
      match step
      case Record(_, _, _, _) => RecordKeepsInv(After(s, before, of), step, of);
      case Detect(_) => DetectKeepsInv(After(s, before, of), step, of);
      case Visit(_, _, _, _, _) => VisitKeepsInv(After(s, before, of), step, of);
      case Finish(_) => FinishKeepsInv(After(s, before, of), step, of);
    }
  }

  lemma StartInv(n: nat, of: string -> string)
    ensures Inv(Start(n), of)
  {
  }

  lemma EveryRunKeepsInv(n: nat, steps: seq<Step>, of: string -> string)
    requires NoDisarm(steps)
    ensures Inv(After(Start(n), steps, of), of)
  {
    StartInv(n, of);
    RunKeepsInv(Start(n), steps, of);
  }

  lemma StepGrows(s: State, step: Step, of: string -> string, sub: string)
    requires Inv(s, of)
    ensures EntryOf(s, sub).reported <= EntryOf(Next(s, step, of), sub).reported
    ensures RunsFor(s, sub) <= RunsFor(Next(s, step, of), sub)
  {
    if step.Visit? && MayVisit(s, step.thread, step.sub, of) {
      assert SubOk(s, of(step.sub), step.sub);
      assert LocalOk(s, s.locals[step.thread], of);
      var l := s.locals[step.thread];
      TakeTiles(RunsFor(s, step.sub), EntryOf(s, step.sub), l.total, l.found, step.num, step.dur, step.now);
    }
  }

  /** What a subscription has accounted for never decreases, and what was notified stays so. */
  lemma {:induction false} RunGrows(s: State, steps: seq<Step>, k: nat, of: string -> string, sub: string)
    requires k <= |steps| && NoDisarm(steps) && Inv(s, of)
    ensures EntryOf(After(s, steps[..k], of), sub).reported <= EntryOf(After(s, steps, of), sub).reported
    ensures RunsFor(After(s, steps[..k], of), sub) <= RunsFor(After(s, steps, of), sub)
  {
    if k == |steps| {
      assert steps[..k] == steps;
    } else {
      var before := steps[..|steps| - 1];
      assert before[..k] == steps[..k];
      RunGrows(s, before, k, of, sub);
      RunKeepsInv(s, before, of);
      hide Inv, Next;
      StepGrows(After(s, before, of), steps[|steps| - 1], of, sub);
    }
  }

  /** Under every interleaving: a subscription never gets ahead of its series, every point it has
      accounted for is in one run, and no point is in two. */
  lemma EveryPointOnce(n: nat, steps: seq<Step>, of: string -> string, sub: string)
    requires NoDisarm(steps)
    ensures var s := After(Start(n), steps, of);
            var runs, reported := RunsFor(s, sub), EntryOf(s, sub).reported;
            && 0 <= reported <= TotalOf(s, of(sub))
            && (forall i :: 0 <= i < |runs| ==> 0 <= runs[i].start && runs[i].start + runs[i].count <= reported)
            && (forall i, j :: 0 <= i < j < |runs| ==> runs[i].start + runs[i].count <= runs[j].start)
            && (forall p :: 1 <= p <= reported ==> InSomeRun(runs, p))
  {
    var s := After(Start(n), steps, of);
    EveryRunKeepsInv(n, steps, of);
    var runs, reported := RunsFor(s, sub), EntryOf(s, sub).reported;
    assert SubOk(s, of(sub), sub);
    hide Tiled, After;
    forall i | 0 <= i < |runs|
      ensures 0 <= runs[i].start && runs[i].start + runs[i].count <= reported
    {
      RunsWithin(runs, reported, i);
    }
    forall i, j | 0 <= i < j < |runs|
      ensures runs[i].start + runs[i].count <= runs[j].start
    {
      RunsApart(runs, reported, i, j);
    }
    forall p | 1 <= p <= reported
      ensures InSomeRun(runs, p)
    {
      var i := RunsCover(runs, reported, p);
    }
  }

  // ----- forgetting a total

  /** No subscription of the series has accounted for anything, and no thread is on its way to one. */
  ghost predicate Untouched(s: State, series: string, of: string -> string) {
    forall sub :: of(sub) == series ==>
      EntryOf(s, sub).reported == 0 && forall th :: th in s.locals ==> !MayVisit(s, th, sub, of)
  }

  lemma DisarmKeepsInv(s: State, series: string, of: string -> string)
    requires Inv(s, of) && Untouched(s, series, of)
    ensures Inv(Next(s, Disarm(series), of), of)
  {
    hide Tiled;
    var s' := Next(s, Disarm(series), of);
    assert forall x :: TotalOf(s', x) == if x == series then 0 else TotalOf(s, x);
    forall th | th in s'.locals
      ensures LocalOk(s', s'.locals[th], of)
    {
      assert LocalOk(s, s.locals[th], of);
      assert forall sub :: of(sub) == series ==> !MayVisit(s, th, sub, of);
    }
    forall sub
      ensures SubOk(s', of(sub), sub)
    {
      assert SubOk(s, of(sub), sub);
    }
  }

  lemma AfterNothing(s: State, of: string -> string)
    ensures After(s, [], of) == s
  {
  }

  lemma AfterOneMore(s: State, steps: seq<Step>, step: Step, of: string -> string)
    ensures After(s, steps + [step], of) == Next(After(s, steps, of), step, of)
  {
    hide Next;
    assert (steps + [step])[..|steps|] == steps;
  }

  /** A subscription that has accounted for points is ahead of a series that was disarmed; one that a
      thread is still to visit gets ahead of it then. */
  lemma DisarmedTooEarly(s: State, series: string, of: string -> string, sub: string, th: nat) returns (more: seq<Step>)
    requires Inv(s, of) && of(sub) == series && (EntryOf(s, sub).reported != 0 || MayVisit(s, th, sub, of))
    ensures NoDisarm(more) && !SubOk(After(Next(s, Disarm(series), of), more, of), series, sub)
  {
    var d := Next(s, Disarm(series), of);
    assert SubOk(s, of(sub), sub);
    hide Tiled;
    more := [];
    AfterNothing(d, of);
    if EntryOf(s, sub).reported == 0 {
      var visit := Visit(th, sub, 1, 0, 0);
      more := [visit];
      AfterOneMore(d, [], visit, of);
      assert [] + [visit] == more;
      assert LocalOk(s, s.locals[th], of);
      assert EntryOf(Next(d, visit, of), sub).reported == 1;
    }
  }

  /** A disarm in any state that a run has kept sound keeps every continuation sound exactly when no
      subscription of the series has accounted for anything yet and no thread is on its way to one. */
  lemma DisarmHarmless(s: State, series: string, of: string -> string)
    requires Inv(s, of)
    ensures (forall more :: NoDisarm(more) ==> Sound(After(Next(s, Disarm(series), of), more, of), of)) <==>
            Untouched(s, series, of)
    ensures Untouched(s, series, of) ==> Inv(Next(s, Disarm(series), of), of)
  {
    var d := Next(s, Disarm(series), of);
    hide After, Next;
    if Untouched(s, series, of) {
      DisarmKeepsInv(s, series, of);
      forall more | NoDisarm(more)
        ensures Sound(After(d, more, of), of)
      {
        RunKeepsInv(d, more, of);
      }
    } else {
      var sub :| of(sub) == series &&
          (EntryOf(s, sub).reported != 0 || exists th :: th in s.locals && MayVisit(s, th, sub, of));
      var th :| EntryOf(s, sub).reported != 0 || MayVisit(s, th, sub, of);
      var more := DisarmedTooEarly(s, series, of, sub, th);
      assert !SubOk(After(d, more, of), of(sub), sub);
    }
  }

  /** A point is recorded, counted, and brought to a subscription that asks for every point. */
  function Event(series: string, sub: string, point: int, now: int): seq<Step> {
    [Record(0, series, [point], 0), Detect(0), Visit(0, sub, 1, 0, now), Finish(0)]
  }

  lemma FourSteps(s: State, a: Step, b: Step, c: Step, d: Step, of: string -> string)
    ensures After(s, [a, b, c, d], of) == Next(Next(Next(Next(s, a, of), b, of), c, of), d, of)
  {
    hide Next;
    AfterNothing(s, of);
    AfterOneMore(s, [], a, of);
    AfterOneMore(s, [a], b, of);
    AfterOneMore(s, [a, b], c, of);
    AfterOneMore(s, [a, b, c], d, of);
    assert [] + [a] == [a] && [a] + [b] == [a, b] && [a, b] + [c] == [a, b, c] && [a, b, c] + [d] == [a, b, c, d];
  }

  lemma {:induction false} AfterBoth(s: State, a: seq<Step>, b: seq<Step>, of: string -> string)
    ensures After(s, a + b, of) == After(After(s, a, of), b, of)
  {
    hide Next;
    if b == [] {
      assert a + b == a;
    } else {
      AfterBoth(s, a, b[..|b| - 1], of);
      assert (a + b)[..|a + b| - 1] == a + b[..|b| - 1];
    }
  }

  /** The state once a first point, 10, is told. */
  function FirstTold(series: string, sub: string): State {
    State(map[series := 1], map[sub := Entry(1, 0)], map[series := [10]], 1, map[], map[],
          map[series := [10]], map[sub := [Notified(0, 1)]], map[sub := [[10]]])
  }

  lemma FirstEvent(series: string, sub: string, of: string -> string)
    requires of(sub) == series
    ensures After(Start(1), Event(series, sub, 10, 1), of) == FirstTold(series, sub)
  {
    hide Take, RunsOf, Batch;
    var s0, l := Start(1), Local(series, 1, 1, {});
    var a := s0.(recorded := map[series := [10]], lists := map[series := [10]], carries := map[0 := Carry(series, 1)]);
    var b := a.(totals := map[series := 1], carries := map[], locals := map[0 := l]);
    var c := FirstTold(series, sub).(locals := map[0 := l.(seen := {sub})]);
    assert [] + [10] == [10];
    assert Next(s0, Record(0, series, [10], 0), of) == a;
    assert Next(a, Detect(0), of) == b;
    FirstVisit(series, sub, of, b, l);
    assert Next(c, Finish(0), of) == FirstTold(series, sub);
    FourSteps(s0, Record(0, series, [10], 0), Detect(0), Visit(0, sub, 1, 0, 1), Finish(0), of);
  }

  lemma FirstVisit(series: string, sub: string, of: string -> string, b: State, l: Local)
    requires of(sub) == series && l == Local(series, 1, 1, {})
    requires b == State(map[series := 1], map[], map[series := [10]], 1, map[], map[0 := l], map[series := [10]],
                        map[], map[])
    ensures Next(b, Visit(0, sub, 1, 0, 1), of) == FirstTold(series, sub).(locals := map[0 := l.(seen := {sub})])
  {
    FirstTake();
    hide Take, RunsOf, Batch;
    assert MayVisit(b, 0, sub, of) && EntryOf(b, sub) == NewEntry && ListOf(b, series) == [10];
    var runs, sent := [Notified(0, 1)], [[10]];
    assert RunsFor(b, sub) + runs == runs && ToldTo(b, sub) + sent == sent;
    VisitTells(b, 0, sub, 1, 0, 1, of);
    var n := Next(b, Visit(0, sub, 1, 0, 1), of);
    hide Next;
    assert l.seen + {sub} == {sub};
    assert n.locals == map[0 := l.(seen := {sub})] && n.entries == map[sub := Entry(1, 0)];
    assert n.runs == map[sub := runs] && n.told == map[sub := sent];
  }

  lemma FirstTake()
    ensures Take(NewEntry, 1, 1, 1, 0, 1) == Taken(Entry(1, 0), 1, 0)
    ensures RunsOf(NewEntry, 1, 1, 1, 0, 1) == [Notified(0, 1)] && Batch([10], 1, 0, 1) == [10]
  {
  }

  /** A visit that notifies. */
  lemma VisitTells(s: State, th: nat, sub: string, num: int, dur: int, now: int, of: string -> string)
    requires MayVisit(s, th, sub, of) && num > 0
    ensures var l, e := s.locals[th], EntryOf(s, sub);
            var t := Take(e, l.total, l.found, num, dur, now);
            t.batch > 0 ==>
              Next(s, Visit(th, sub, num, dur, now), of) ==
              s.(locals := s.locals[th := l.(seen := l.seen + {sub})],
                 entries := s.entries[sub := t.entry],
                 runs := s.runs[sub := RunsFor(s, sub) + RunsOf(e, l.total, l.found, num, dur, now)],
                 told := s.told[sub := ToldTo(s, sub) + [Batch(ListOf(s, l.series), l.total, t.before, num)]])
  {
    hide Take, RunsOf, Batch;
  }

  /** What a second point, 20, comes to after a disarm. */
  lemma SecondEvent(series: string, sub: string, of: string -> string)
    requires of(sub) == series
    ensures var s' := After(FirstTold(series, sub).(totals := map[]), Event(series, sub, 20, 2), of);
            RecordedOf(s', series) == [10, 20] && TotalOf(s', series) == 1 && ToldTo(s', sub) == [[10]]
  {
    var d, l := FirstTold(series, sub).(totals := map[]), Local(series, 1, 1, {});
    var a := d.(recorded := map[series := [10, 20]], lists := map[series := [10, 20]],
                carries := map[0 := Carry(series, 1)]);
    var b := a.(totals := map[series := 1], carries := map[], locals := map[0 := l]);
    var c := b.(entries := map[sub := Entry(1, 2)], locals := map[0 := l.(seen := {sub})]);
    assert [10] + [20] == [10, 20];
    assert Next(d, Record(0, series, [20], 0), of) == a;
    assert Next(a, Detect(0), of) == b;
    assert l.seen + {sub} == {sub} && MayVisit(b, 0, sub, of) && EntryOf(b, sub) == Entry(1, 0);
    assert Take(Entry(1, 0), 1, 1, 1, 0, 2) == Taken(Entry(1, 2), 0, 0) && RunsOf(Entry(1, 0), 1, 1, 1, 0, 2) == [];
    assert RunsFor(b, sub) + [] == RunsFor(b, sub);
    assert Next(b, Visit(0, sub, 1, 0, 2), of) == c;
    FourSteps(d, Record(0, series, [20], 0), Detect(0), Visit(0, sub, 1, 0, 2), Finish(0), of);
  }

  /** Such a run: one point is told, the series is disarmed, and the next point is never told, though the
      subscription asks for each. */
  lemma PointNotTold(series: string, sub: string, of: string -> string)
    requires of(sub) == series
    ensures var first, second := Event(series, sub, 10, 1), Event(series, sub, 20, 2);
            var s, s' := After(Start(1), first, of), After(Start(1), first + [Disarm(series)] + second, of);
            && !Untouched(s, series, of) && s.locals == map[] && s.carries == map[]
            && RecordedOf(s', series) == [10, 20] && ToldTo(s', sub) == [[10]]
  {
    var first, second := Event(series, sub, 10, 1), Event(series, sub, 20, 2);
    FirstEvent(series, sub, of);
    SecondEvent(series, sub, of);
    assert EntryOf(FirstTold(series, sub), sub).reported == 1;
    assert Next(FirstTold(series, sub), Disarm(series), of) == FirstTold(series, sub).(totals := map[]);
    hide After, Event;
    AfterOneMore(Start(1), first, Disarm(series), of);
    AfterBoth(Start(1), first + [Disarm(series)], second, of);
  }

  // ----- what a call discards

  /** A call discards points only if the window has expired, and then exactly those that were counted before
      the call and not accounted for: none of the points it found. */
  lemma ExpiryDiscards(e: Entry, total: int, found: int, num: int, dur: int, now: int, r: Run)
    requires num > 0 && r.Discarded?
    ensures r in RunsOf(e, total, found, num, dur, now) <==>
            Expired(e, dur, now) && r.count > 0 && r.start == e.reported && r.start + r.count == total - found
  {
    var reported := AfterExpiry(e, total, found, dur, now);
    var a, b := ExpiryRun(e, reported), if total - reported >= num then [Notified(reported, num)] else [];
    assert RunsOf(e, total, found, num, dur, now) == a + b;
    assert r in a + b <==> r in a || r in b;
  }

  // ----- groups of points, and the windows they fall into

  /** Points found together, and when. */
  datatype Finding = Finding(now: int, found: int)

  function Sum(events: seq<Finding>): int {
    if events == [] then 0 else Sum(events[..|events| - 1]) + events[|events| - 1].found
  }

  predicate Findings(events: seq<Finding>) {
    forall i :: 0 <= i < |events| ==> events[i].now > 0 && events[i].found > 0
  }

  /** The window that the first of `events` opens, with `left` points left over before it: the events up to
      the one that brings it to `num` points, and none after the first that comes more than `dur` later. */
  function WindowLength(events: seq<Finding>, left: int, num: int, dur: int): (k: nat)
    requires events != []
    ensures 1 <= k <= |events|
  {
    Reach(events, left, num, dur, 1)
  }

  function Reach(events: seq<Finding>, left: int, num: int, dur: int, k: nat): (r: nat)
    requires 1 <= k <= |events|
    ensures k <= r <= |events|
    decreases |events| - k
  {
    if left + Sum(events[..k]) >= num || k == |events| || (dur > 0 && events[k].now - events[0].now > dur) then k
    else Reach(events, left, num, dur, k + 1)
  }

  /** The runs that windows say: of a window that reaches `num` points the first `num` are notified and the
      others are left over to the next, a window that ends before is discarded whole, the last one is
      open. */
  function Windows(events: seq<Finding>, left: int, num: int, dur: int, start: int): (r: (seq<Run>, int))
    decreases |events|
  {
    if events == [] then ([], start)
    else
      var k := WindowLength(events, left, num, dur);
      var got := left + Sum(events[..k]);
      if got >= num then
        var rest := Windows(events[k..], got - num, num, dur, start + num);
        ([Notified(start, num)] + rest.0, rest.1)
      else if k == |events| then ([], start)
      else
        var rest := Windows(events[k..], 0, num, dur, start + got);
        ([Discarded(start, got)] + rest.0, rest.1)
  }

  /** md_window_take called for each of the events in turn, `done` points being counted before. */
  function Sequential(e: Entry, done: int, events: seq<Finding>, num: int, dur: int): (r: (seq<Run>, Entry))
    decreases |events|
  {
    if events == [] then ([], e)
    else
      var f := events[0];
      var t := Take(e, done + f.found, f.found, num, dur, f.now);
      var rest := Sequential(t.entry, done + f.found, events[1..], num, dur);
      (RunsOf(e, done + f.found, f.found, num, dur, f.now) + rest.0, rest.1)
  }

  lemma {:induction false} SumFirst(events: seq<Finding>)
    requires events != []
    ensures Sum(events) == events[0].found + Sum(events[1..])
    decreases |events|
  {
    var front := events[..|events| - 1];
    if front == [] {
      assert events[1..] == [] && Sum(front) == 0;
    } else {
      SumFirst(front);
      assert events[1..][..|events| - 2] == front[1..];
    }
  }

  lemma SumOneMore(events: seq<Finding>, k: nat)
    requires k < |events|
    ensures Sum(events[..k + 1]) == Sum(events[..k]) + events[k].found
  {
    assert events[..k + 1][..k] == events[..k];
  }

  lemma {:induction false} SumPositive(events: seq<Finding>)
    requires Findings(events)
    ensures Sum(events) >= |events|
    decreases |events|
  {
    if events != [] {
      SumPositive(events[..|events| - 1]);
    }
  }

  /** No window expires while `events` go by: not the one that is open, nor one that the first of them opens. */
  predicate Quiet(e: Entry, events: seq<Finding>, dur: int) {
    dur > 0 ==>
      && (forall i :: 0 <= i < |events| ==> !Expired(e, dur, events[i].now))
      && (e.window == 0 ==> forall i :: 0 <= i < |events| ==> events[i].now - events[0].now <= dur)
  }

  /** The cost of a disarm: while no window expires, a series that starts over tells a subscription nothing
      exactly until it has lost as many points as were accounted for before, and `num` more. */
  lemma {:induction false} SilentUntilCaughtUp(e: Entry, done: int, events: seq<Finding>, num: int, dur: int)
    requires num > 0 && done < e.reported + num && Findings(events) && Quiet(e, events, dur)
    ensures Sequential(e, done, events, num, dur).0 == [] <==> done + Sum(events) < e.reported + num
    decreases |events|
  {
    if events != [] {
      var f := events[0];
      var total := done + f.found;
      var t := Take(e, total, f.found, num, dur, f.now);
      assert !Expired(e, dur, f.now);
      SumFirst(events);
      SumPositive(events[1..]);
      if total < e.reported + num {
        assert t.entry == Entry(e.reported, if e.window == 0 then f.now else e.window);
        QuietTail(e, t.entry, events, dur);
        SilentUntilCaughtUp(t.entry, total, events[1..], num, dur);
        assert RunsOf(e, total, f.found, num, dur, f.now) == [];
      } else {
        assert Notified(e.reported, num) in RunsOf(e, total, f.found, num, dur, f.now);
      }
    }
  }

  lemma QuietTail(e: Entry, e': Entry, events: seq<Finding>, dur: int)
    requires events != [] && Findings(events) && Quiet(e, events, dur)
    requires e'.window == if e.window == 0 then events[0].now else e.window
    ensures Quiet(e', events[1..], dur)
  {
    var rest := events[1..];
    assert forall i :: 0 <= i < |rest| ==> rest[i] == events[i + 1];
  }

  /** What the calls from event `k` on do, in an open window that began at the first event and has `got`
      points. */
  lemma {:induction false} OpenWindow(events: seq<Finding>, left: int, k: nat, start: int, num: int, dur: int)
    requires num > 0 && 1 <= k <= |events| && left >= 0 && Findings(events) && left + Sum(events[..k]) < num
    ensures Sequential(Entry(start, events[0].now), start + left + Sum(events[..k]), events[k..], num, dur)
         == var r := Reach(events, left, num, dur, k);
            WindowEnds(events, left, r, start, num, dur)
    decreases |events| - k
  {
    hide Sequential, Take, RunsOf, Sum;
    var e, got := Entry(start, events[0].now), left + Sum(events[..k]);
    if k == |events| {
      assert events[k..] == [];
      NoPoints(e, start + got, num, dur);
    } else {
      var f, rest := events[k], events[k + 1..];
      assert events[k..] == [f] + rest;
      if dur > 0 && f.now - events[0].now > dur {
        assert got > 0 by {
          SumPositive(events[..k]);
        }
        Expires(e, start + got, num, dur, events[k..]);
      } else {
        SumOneMore(events, k);
        FirstPoint(e, start + got, f, rest, num, dur);
        WithinWindow(e, got, f, num, dur);
        var more := Sequential(e, start + got + f.found, rest, num, dur);
        if got + f.found < num {
          OpenWindow(events, left, k + 1, start, num, dur);
          assert [] + more.0 == more.0;
        }
      }
    }
  }

  /** What is left to do when a window has ended after `r` events: as Windows says, and the calls go on. */
  function WindowEnds(events: seq<Finding>, left: int, r: nat, start: int, num: int, dur: int): (seq<Run>, Entry)
    requires 1 <= r <= |events|
  {
    var got := left + Sum(events[..r]);
    if got >= num then
      var rest := Sequential(Entry(start + num, 0), start + got, events[r..], num, dur);
      ([Notified(start, num)] + rest.0, rest.1)
    else if r == |events| then ([], Entry(start, events[0].now))
    else
      var rest := Sequential(Entry(start + got, 0), start + got, events[r..], num, dur);
      ([Discarded(start, got)] + rest.0, rest.1)
  }

  /** Points within the window, after `got` others: counted, or enough. */
  lemma WithinWindow(e: Entry, got: int, f: Finding, num: int, dur: int)
    requires e.window > 0 && num > 0 && (dur > 0 ==> f.now - e.window <= dur)
    ensures var total := e.reported + got + f.found;
            var t, r := Take(e, total, f.found, num, dur, f.now), RunsOf(e, total, f.found, num, dur, f.now);
            if got + f.found < num then t == Taken(e, 0, 0) && r == []
            else t == Taken(Entry(e.reported + num, 0), num, e.reported) && r == [Notified(e.reported, num)]
  {
  }

  lemma FirstPoint(e: Entry, done: int, f: Finding, events: seq<Finding>, num: int, dur: int)
    ensures var total := done + f.found;
            var rest := Sequential(Take(e, total, f.found, num, dur, f.now).entry, total, events, num, dur);
            Sequential(e, done, [f] + events, num, dur) ==
            (RunsOf(e, total, f.found, num, dur, f.now) + rest.0, rest.1)
  {
    hide Take, RunsOf;
    assert ([f] + events)[1..] == events;
  }

  lemma ExpiredPoint(e: Entry, done: int, f: Finding, num: int, dur: int)
    requires num > 0 && Expired(e, dur, f.now) && done > e.reported
    ensures var total, e' := done + f.found, Entry(done, 0);
            && Take(e, total, f.found, num, dur, f.now).entry == Take(e', total, f.found, num, dur, f.now).entry
            && RunsOf(e, total, f.found, num, dur, f.now)
               == [Discarded(e.reported, done - e.reported)] + RunsOf(e', total, f.found, num, dur, f.now)
  {
    var total, e' := done + f.found, Entry(done, 0);
    assert AfterExpiry(e, total, f.found, dur, f.now) == done == AfterExpiry(e', total, f.found, dur, f.now);
    var d, b := [Discarded(e.reported, done - e.reported)], if f.found >= num then [Notified(done, num)] else [];
    assert RunsOf(e', total, f.found, num, dur, f.now) == [] + b == b;
    assert RunsOf(e, total, f.found, num, dur, f.now) == d + b;
  }

  /** An event after the window's end does what it would do first, after a discarded run. */
  lemma Expires(e: Entry, done: int, num: int, dur: int, events: seq<Finding>)
    requires num > 0 && events != [] && Expired(e, dur, events[0].now) && done > e.reported
    ensures Sequential(e, done, events, num, dur)
         == var rest := Sequential(Entry(done, 0), done, events, num, dur);
            ([Discarded(e.reported, done - e.reported)] + rest.0, rest.1)
  {
    hide Take, RunsOf, Sequential;
    var f := events[0];
    var total := done + f.found;
    var b, next := RunsOf(Entry(done, 0), total, f.found, num, dur, f.now),
                   Take(e, total, f.found, num, dur, f.now).entry;
    var d := [Discarded(e.reported, done - e.reported)];
    ExpiredPoint(e, done, f, num, dur);
    var rest := Sequential(next, total, events[1..], num, dur);
    assert events == [f] + events[1..];
    FirstPoint(e, done, f, events[1..], num, dur);
    FirstPoint(Entry(done, 0), done, f, events[1..], num, dur);
    assert d + b + rest.0 == d + (b + rest.0);
  }

  /** Points found in groups of any size, with any points left over from before and a clock that is never 0: a
      batch is notified exactly for the windows that reach `num` points within `dur`, each window opening
      with the first event after the one before, and exactly the windows that do not are discarded. */
  lemma {:induction false} WindowsRefined(events: seq<Finding>, left: int, num: int, dur: int, start: int)
    requires num > 0 && left >= 0 && Findings(events)
    ensures Sequential(Entry(start, 0), start + left, events, num, dur).0 == Windows(events, left, num, dur, start).0
    ensures Sequential(Entry(start, 0), start + left, events, num, dur).1.reported ==
            Windows(events, left, num, dur, start).1
    decreases |events|
  {
    hide Sequential, WindowLength, Sum;
    if events == [] {
      NoPoints(Entry(start, 0), start + left, num, dur);
    } else {
      var k := WindowLength(events, left, num, dur);
      var got := left + Sum(events[..k]);
      FirstWindow(events, left, num, dur, start);
      if got >= num {
        WindowsRefined(events[k..], got - num, num, dur, start + num);
      } else if k < |events| {
        WindowsRefined(events[k..], 0, num, dur, start + got);
      }
    }
  }

  lemma NoPoints(e: Entry, done: int, num: int, dur: int)
    ensures Sequential(e, done, [], num, dur) == ([], e)
  {
  }

  /** The first window, event by event. */
  lemma FirstWindow(events: seq<Finding>, left: int, num: int, dur: int, start: int)
    requires num > 0 && left >= 0 && events != [] && Findings(events)
    ensures Sequential(Entry(start, 0), start + left, events, num, dur)
         == WindowEnds(events, left, WindowLength(events, left, num, dur), start, num, dur)
  {
    hide Sequential, Sum, Take, RunsOf;
    var f, rest := events[0], events[1..];
    assert events == [f] + rest;
    assert Sum(events[..1]) == f.found by {
      SumOfOne(events);
    }
    FirstPoint(Entry(start, 0), start + left, f, rest, num, dur);
    OpensWindow(start, left, f, num, dur);
    if left + f.found < num {
      OpenWindow(events, left, 1, start, num, dur);
      var more := Sequential(Entry(start, f.now), start + left + f.found, rest, num, dur);
      assert [] + more.0 == more.0;
    }
  }

  lemma SumOfOne(events: seq<Finding>)
    requires events != []
    ensures Sum(events[..1]) == events[0].found
  {
    SumOneMore(events, 0);
    assert Sum(events[..0]) == 0;
  }

  lemma OpensWindow(start: int, left: int, f: Finding, num: int, dur: int)
    requires num > 0 && f.now > 0
    ensures var e, total := Entry(start, 0), start + left + f.found;
            var t, r := Take(e, total, f.found, num, dur, f.now), RunsOf(e, total, f.found, num, dur, f.now);
            if left + f.found < num then t == Taken(Entry(start, f.now), 0, 0) && r == []
            else t == Taken(Entry(start + num, 0), num, start) && r == [Notified(start, num)]
  {
  }
}
