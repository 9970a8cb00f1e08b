/** When what a subscription is told are the points it is told of: recording, counting and visiting are
    separate steps of a thread, and other threads come between them. */
module MissingTold {
  import opened MissingPoints
  import opened MissingData

  // ----- recorded, waiting to be counted, counted

  /** How many points the first `n` threads have recorded for a series and not yet counted. */
  function WaitingBelow(carries: map<nat, Carry>, series: string, n: nat): nat {
    if n == 0 then 0
    else WaitingBelow(carries, series, n - 1) + Share(carries, series, n - 1)
  }

  function Share(carries: map<nat, Carry>, series: string, th: nat): nat {
    if th in carries && carries[th].series == series then carries[th].count else 0
  }

  function Waiting(s: State, series: string): nat {
    WaitingBelow(s.carries, series, s.threads)
  }

  lemma {:induction false} WaitingWith(carries: map<nat, Carry>, th: nat, c: Carry, series: string, n: nat)
    requires th !in carries
    ensures WaitingBelow(carries[th := c], series, n) ==
            WaitingBelow(carries, series, n) + if th < n && c.series == series then c.count else 0
  {
    if n > 0 {
      WaitingWith(carries, th, c, series, n - 1);
    }
  }

  lemma WaitingWithout(carries: map<nat, Carry>, th: nat, series: string, n: nat)
    requires th in carries
    ensures WaitingBelow(carries, series, n) ==
            WaitingBelow(carries - {th}, series, n) +
            if th < n && carries[th].series == series then carries[th].count else 0
  {
    var rest := carries - {th};
    assert rest[th := carries[th]] == carries;
    WaitingWith(rest, th, carries[th], series, n);
  }

  /** Points recorded that the running total will never count: those from before a disarm. */
  function Gone(s: State, series: string): int {
    |RecordedOf(s, series)| - TotalOf(s, series) - Waiting(s, series)
  }

  predicate BooksFor(s: State, series: string) {
    Gone(s, series) >= 0 && Shows(RecordedOf(s, series), ListOf(s, series))
  }

  /** Every counted point was recorded, and every list shows the last points recorded. */
  ghost predicate Books(s: State) {
    (forall th :: th in s.carries ==> th < s.threads) && forall series :: BooksFor(s, series)
  }

  lemma RecordKeepsBooks(s: State, step: Step, of: string -> string, series: string)
    requires step.Record? && BooksFor(s, series)
    ensures BooksFor(Next(s, step, of), series) && Gone(Next(s, step, of), series) == Gone(s, series)
  {
    hide Newest, Shows, WaitingBelow;
    if MayRecord(s, step.thread, step.points) {
      WaitingWith(s.carries, step.thread, Carry(step.series, |step.points|), series, s.threads);
      if series == step.series {
        ShowsMore(RecordedOf(s, series), ListOf(s, series), step.points, step.mdn);
      }
    }
  }

  lemma DetectKeepsBooks(s: State, step: Step, of: string -> string, series: string)
    requires step.Detect? && BooksFor(s, series) && forall th :: th in s.carries ==> th < s.threads
    ensures BooksFor(Next(s, step, of), series) && Gone(Next(s, step, of), series) == Gone(s, series)
  {
    hide Newest, Shows, WaitingBelow;
    if step.thread in s.carries {
      WaitingWithout(s.carries, step.thread, series, s.threads);
    }
  }

  lemma OtherKeepsBooks(s: State, step: Step, of: string -> string, series: string)
    requires (step.Visit? || step.Finish?) && BooksFor(s, series)
    ensures BooksFor(Next(s, step, of), series) && Gone(Next(s, step, of), series) == Gone(s, series)
  {
    hide Next, Shows, WaitingBelow;
    VisitFrame(s, step, of);
  }

  lemma VisitFrame(s: State, step: Step, of: string -> string)
    requires step.Visit? || step.Finish?
    ensures var s' := Next(s, step, of);
            && s'.totals == s.totals && s'.recorded == s.recorded && s'.lists == s.lists
            && s'.carries == s.carries && s'.threads == s.threads
  {
    hide Take, RunsOf, Batch;
  }

  /** The books are kept, and between disarms no counted point changes its number. */
  lemma StepKeepsBooks(s: State, step: Step, of: string -> string)
    requires Books(s) && Inv(s, of)
    ensures Books(Next(s, step, of))
    ensures !step.Disarm? ==> forall series :: Gone(Next(s, step, of), series) == Gone(s, series)
  {
    var s' := Next(s, step, of);
    CarriersKept(s, step, of);
    forall series
      ensures BooksFor(s', series) && (!step.Disarm? ==> Gone(s', series) == Gone(s, series))
    {
      assert BooksFor(s, series);
      match step
      case Record(_, _, _, _) => RecordKeepsBooks(s, step, of, series);
      case Detect(_) => DetectKeepsBooks(s, step, of, series);
      case Disarm(_) => DisarmKeepsBooks(s, step, of, series);
      case _ => OtherKeepsBooks(s, step, of, series);
    }
  }

  lemma CarriersKept(s: State, step: Step, of: string -> string)
    requires forall th :: th in s.carries ==> th < s.threads
    ensures var s' := Next(s, step, of); forall th :: th in s'.carries ==> th < s'.threads
  {
    hide Newest, Take, RunsOf, Batch;
  }

  lemma DisarmKeepsBooks(s: State, step: Step, of: string -> string, series: string)
    requires step.Disarm? && BooksFor(s, series) && TotalOf(s, series) >= 0
    ensures BooksFor(Next(s, step, of), series)
  {
    hide Shows, WaitingBelow;
  }

  // ----- one notification

  function Slice(points: seq<int>, start: int, count: int): seq<int> {
    if 0 <= start <= start + count <= |points| then points[start..start + count] else []
  }

  /** Nothing was counted or recorded since the thread counted, nor was anything waiting to be counted; and
      the list has all that is pending. */
  predicate Timely(s: State, l: Local, before: int) {
    && l.total == TotalOf(s, l.series) && Waiting(s, l.series) == 0
    && l.total - before <= |ListOf(s, l.series)|
  }

  /** Whether a step notifies. */
  predicate Tells(s: State, step: Step, of: string -> string) {
    step.Visit? && MayVisit(s, step.thread, step.sub, of) && step.num > 0 && TakenBy(s, step).batch > 0
  }

  function TakenBy(s: State, step: Step): Taken
    requires step.Visit? && step.thread in s.locals
  {
    var l := s.locals[step.thread];
    Take(EntryOf(s, step.sub), l.total, l.found, step.num, step.dur, step.now)
  }

  lemma TakenBounds(e: Entry, total: int, found: int, num: int, dur: int, now: int)
    requires 0 <= e.reported && num > 0
    ensures var t := Take(e, total, found, num, dur, now);
            t.batch > 0 ==> t.batch == num && 0 <= t.before && t.before + num <= total
  {
  }

  /** A notification carries the points it accounts for exactly when it is timely. */
  lemma NotificationRight(s: State, step: Step, of: string -> string)
    requires Inv(s, of) && Books(s) && Tells(s, step, of) && Increasing(RecordedOf(s, of(step.sub)))
    ensures var l, t, series := s.locals[step.thread], TakenBy(s, step), of(step.sub);
            Sent(s, l, t, step.num) == Slice(RecordedOf(s, series), Gone(s, series) + t.before, step.num) <==>
            Timely(s, l, t.before)
  {
    var l, t, series := s.locals[step.thread], TakenBy(s, step), of(step.sub);
    assert SubOk(s, series, step.sub) && LocalOk(s, l, of) && BooksFor(s, series);
    TakenBounds(EntryOf(s, step.sub), l.total, l.found, step.num, step.dur, step.now);
    hide Take, Batch, WaitingBelow, Increasing, Shows, Tiled;
    var late := TotalOf(s, series) - l.total + Waiting(s, series);
    BatchIsRun(RecordedOf(s, series), ListOf(s, series), Gone(s, series), l.total, late, t.before, step.num);
  }

  /** What ts_md_flush_sub sends are the pending points exactly when none waits to be counted and the list
      has all that is pending. */
  lemma FlushRight(s: State, sub: string, of: string -> string)
    requires Inv(s, of) && Books(s) && Increasing(RecordedOf(s, of(sub)))
    requires EntryOf(s, sub).reported < TotalOf(s, of(sub))
    ensures var series, reported := of(sub), EntryOf(s, sub).reported;
            Flushed(ListOf(s, series), TotalOf(s, series), reported) ==
            Slice(RecordedOf(s, series), Gone(s, series) + reported, TotalOf(s, series) - reported) <==>
            Waiting(s, series) == 0 && TotalOf(s, series) - reported <= |ListOf(s, series)|
  {
    var series, reported := of(sub), EntryOf(s, sub).reported;
    assert SubOk(s, series, sub) && BooksFor(s, series);
    hide WaitingBelow, Increasing, Shows, Tiled, Flushed;
    FlushIsRun(RecordedOf(s, series), ListOf(s, series), Gone(s, series), TotalOf(s, series), Waiting(s, series),
               reported);
  }

  // ----- whole runs

  /** The points of the notified runs. */
  function Carried(points: seq<int>, gone: int, runs: seq<Run>): seq<seq<int>> {
    if runs == [] then []
    else
      var last := runs[|runs| - 1];
      Carried(points, gone, runs[..|runs| - 1]) +
      if last.Notified? then [Slice(points, gone + last.start, last.count)] else []
  }

  function Notifications(runs: seq<Run>): nat {
    if runs == [] then 0 else Notifications(runs[..|runs| - 1]) + if runs[|runs| - 1].Notified? then 1 else 0
  }

  lemma {:induction false} CarriedCount(points: seq<int>, gone: int, runs: seq<Run>)
    ensures |Carried(points, gone, runs)| == Notifications(runs)
  {
    if runs != [] {
      CarriedCount(points, gone, runs[..|runs| - 1]);
    }
  }

  /** What was told were the points told of. */
  predicate ToldRight(s: State, sub: string, of: string -> string) {
    ToldTo(s, sub) == Carried(RecordedOf(s, of(sub)), Gone(s, of(sub)), RunsFor(s, sub))
  }

  predicate Tally(s: State, sub: string) {
    |ToldTo(s, sub)| == Notifications(RunsFor(s, sub))
  }

  lemma {:induction false} CarriedKept(points: seq<int>, more: seq<int>, gone: int, runs: seq<Run>, end: int)
    requires Tiled(runs, end) && 0 <= gone && gone + end <= |points|
    ensures Carried(points + more, gone, runs) == Carried(points, gone, runs)
  {
    if runs != [] {
      var front, last := runs[..|runs| - 1], runs[|runs| - 1];
      StartsAtZero(front, last.start);
      CarriedKept(points, more, gone, front, last.start);
      assert (points + more)[gone + last.start..gone + end] == points[gone + last.start..gone + end];
    }
  }

  lemma CarriedOneMore(points: seq<int>, gone: int, runs: seq<Run>, run: Run)
    ensures Carried(points, gone, runs + [run]) ==
            Carried(points, gone, runs) + if run.Notified? then [Slice(points, gone + run.start, run.count)] else []
    ensures Notifications(runs + [run]) == Notifications(runs) + if run.Notified? then 1 else 0
  {
    assert (runs + [run])[..|runs|] == runs;
  }

  /** The runs of one call hold one notification if it notifies, and none if it does not. */
  lemma CarriedByCall(points: seq<int>, gone: int, runs: seq<Run>, e: Entry, total: int, found: int, num: int,
                      dur: int, now: int)
    requires num > 0
    ensures var t, all := Take(e, total, found, num, dur, now), runs + RunsOf(e, total, found, num, dur, now);
            && Carried(points, gone, all) ==
               Carried(points, gone, runs) + (if t.batch > 0 then [Slice(points, gone + t.before, num)] else [])
            && Notifications(all) == Notifications(runs) + if t.batch > 0 then 1 else 0
  {
    hide Carried, Notifications, Slice;
    var reported := AfterExpiry(e, total, found, dur, now);
    var a := ExpiryRun(e, reported);
    assert runs + [] == runs;
    if a != [] {
      CarriedOneMore(points, gone, runs, a[0]);
      assert a == [a[0]];
    }
    if total - reported >= num {
      var b := Notified(reported, num);
      CarriedOneMore(points, gone, runs + a, b);
      assert runs + (a + [b]) == runs + a + [b];
    } else {
      assert a + [] == a;
    }
  }

  /** A step that visits another subscription, or none, tells this one nothing. */
  lemma UntoldStep(s: State, step: Step, of: string -> string, sub: string)
    requires Inv(s, of) && Books(s) && !step.Disarm? && !(step.Visit? && step.sub == sub)
    ensures var s' := Next(s, step, of);
            && RunsFor(s', sub) == RunsFor(s, sub) && ToldTo(s', sub) == ToldTo(s, sub)
            && (ToldRight(s', sub, of) <==> ToldRight(s, sub, of))
  {
    hide Next, Inv, Books, Gone, Carried, Tiled;
    var s', series := Next(s, step, of), of(sub);
    StepKeepsBooks(s, step, of);
    SubFacts(s, of, sub);
    OthersFrame(s, step, of, sub);
    RecordedFrame(s, step, of, series);
    assert Gone(s', series) == Gone(s, series);
    if step.Record? && MayRecord(s, step.thread, step.points) && step.series == series {
      CarriedKept(RecordedOf(s, series), step.points, Gone(s, series), RunsFor(s, sub), EntryOf(s, sub).reported);
    }
  }

  lemma SubFacts(s: State, of: string -> string, sub: string)
    requires Inv(s, of) && Books(s)
    ensures Tiled(RunsFor(s, sub), EntryOf(s, sub).reported) && 0 <= EntryOf(s, sub).reported
    ensures Gone(s, of(sub)) >= 0 && Gone(s, of(sub)) + EntryOf(s, sub).reported <= |RecordedOf(s, of(sub))|
  {
    hide Tiled, WaitingBelow, Shows;
    assert SubOk(s, of(sub), sub) && BooksFor(s, of(sub));
  }

  lemma OthersFrame(s: State, step: Step, of: string -> string, sub: string)
    requires !(step.Visit? && step.sub == sub)
    ensures RunsFor(Next(s, step, of), sub) == RunsFor(s, sub) && ToldTo(Next(s, step, of), sub) == ToldTo(s, sub)
  {
    hide Newest, Take, RunsOf, Batch;
  }

  lemma RecordedFrame(s: State, step: Step, of: string -> string, series: string)
    ensures RecordedOf(Next(s, step, of), series) ==
            if step.Record? && MayRecord(s, step.thread, step.points) && step.series == series
            then RecordedOf(s, series) + step.points else RecordedOf(s, series)
  {
    hide Newest, Take, RunsOf, Batch;
  }

  /** A visit, seen from the subscription it visits. */
  lemma VisitedStep(s: State, step: Step, of: string -> string)
    requires Inv(s, of) && Books(s) && step.Visit? && Tally(s, step.sub) && Increasing(RecordedOf(s, of(step.sub)))
    ensures var s', sub := Next(s, step, of), step.sub;
            && Tally(s', sub)
            && (ToldRight(s', sub, of) <==>
                ToldRight(s, sub, of) &&
                (Tells(s, step, of) ==> Timely(s, s.locals[step.thread], TakenBy(s, step).before)))
  {
    hide Inv, Books, Take, RunsOf, Batch, Carried, Notifications, Next, Timely, Gone, Slice, Increasing;
    var s', sub, series := Next(s, step, of), step.sub, of(step.sub);
    StepKeepsBooks(s, step, of);
    assert Gone(s', series) == Gone(s, series);
    if MayVisit(s, step.thread, sub, of) && step.num > 0 {
      var l, told := s.locals[step.thread], ToldTo(s, sub);
      var carried := Carried(RecordedOf(s, series), Gone(s, series), RunsFor(s, sub));
      CarriedByCall(RecordedOf(s, series), Gone(s, series), RunsFor(s, sub), EntryOf(s, sub), l.total, l.found,
                    step.num, step.dur, step.now);
      CarriedCount(RecordedOf(s, series), Gone(s, series), RunsFor(s, sub));
      VisitOutcome(s, step, of);
      if Tells(s, step, of) {
        NotificationRight(s, step, of);
        var t := TakenBy(s, step);
        TellsNext(told, carried, Sent(s, l, t, step.num),
                  Slice(RecordedOf(s, series), Gone(s, series) + t.before, step.num));
      } else {
        assert told + [] == told && carried + [] == carried;
      }
    } else {
      NoVisit(s, step, of);
    }
  }

  lemma NoVisit(s: State, step: Step, of: string -> string)
    requires step.Visit? && !(MayVisit(s, step.thread, step.sub, of) && step.num > 0)
    ensures var s', sub := Next(s, step, of), step.sub;
            s'.recorded == s.recorded && RunsFor(s', sub) == RunsFor(s, sub) && ToldTo(s', sub) == ToldTo(s, sub)
  {
    hide Take, RunsOf, Batch;
  }

  lemma TellsNext(a: seq<seq<int>>, b: seq<seq<int>>, x: seq<int>, y: seq<int>)
    requires |a| == |b|
    ensures a + [x] == b + [y] <==> a == b && x == y
  {
    if a + [x] == b + [y] {
      assert a == (a + [x])[..|a|] && b == (b + [y])[..|b|];
      assert x == (a + [x])[|a|] && y == (b + [y])[|b|];
    }
  }

  /** What a visit changes. */
  lemma VisitOutcome(s: State, step: Step, of: string -> string)
    requires step.Visit? && MayVisit(s, step.thread, step.sub, of) && step.num > 0
    ensures var s', l, t := Next(s, step, of), s.locals[step.thread], TakenBy(s, step);
            && s'.recorded == s.recorded
            && RunsFor(s', step.sub) ==
               RunsFor(s, step.sub) + RunsOf(EntryOf(s, step.sub), l.total, l.found, step.num, step.dur, step.now)
            && ToldTo(s', step.sub) == ToldTo(s, step.sub) + if t.batch > 0 then [Sent(s, l, t, step.num)] else []
  {
    hide Take, RunsOf, Batch;
  }

  /** Every notification to the subscription is timely. */
  predicate AllTimely(s: State, steps: seq<Step>, of: string -> string, sub: string) {
    if steps == [] then true
    else
      var before, step := After(s, steps[..|steps| - 1], of), steps[|steps| - 1];
      && AllTimely(s, steps[..|steps| - 1], of, sub)
      && (Tells(before, step, of) && step.sub == sub ==>
          Timely(before, before.locals[step.thread], TakenBy(before, step).before))
  }

  lemma RecordedGrows(s: State, step: Step, of: string -> string, series: string)
    ensures RecordedOf(s, series) <= RecordedOf(Next(s, step, of), series)
  {
    RecordedFrame(s, step, of, series);
  }

  lemma IncreasingPrefix(a: seq<int>, b: seq<int>)
    requires a <= b && Increasing(b)
    ensures Increasing(a)
  {
  }

  /** In every run between disarms, from any sound state, a subscription is told exactly the points it is
      told of if and only if every notification to it is timely. */
  lemma {:induction false} ToldRightIff(s: State, steps: seq<Step>, of: string -> string, sub: string)
    requires Inv(s, of) && Books(s) && Tally(s, sub) && ToldRight(s, sub, of) && NoDisarm(steps)
    requires Increasing(RecordedOf(After(s, steps, of), of(sub)))
    ensures var s' := After(s, steps, of); Books(s') && Inv(s', of) && Tally(s', sub)
    ensures ToldRight(After(s, steps, of), sub, of) <==> AllTimely(s, steps, of, sub)
  {
    if steps != [] {
      var front, step := steps[..|steps| - 1], steps[|steps| - 1];
      var mid := After(s, front, of);
      RecordedGrows(mid, step, of, of(sub));
      IncreasingPrefix(RecordedOf(mid, of(sub)), RecordedOf(Next(mid, step, of), of(sub)));
      ToldRightIff(s, front, of, sub);
      RunKeepsInv(s, steps, of);
      StepKeepsBooks(mid, step, of);
      assert After(s, steps, of) == Next(mid, step, of);
      hide Inv, Books, Next, Take, ToldRight, Timely, Increasing, Notifications;
      if step.Visit? && step.sub == sub {
        VisitedStep(mid, step, of);
      } else {
        UntoldStep(mid, step, of, sub);
      }
    }
  }

  lemma StartTold(n: nat, of: string -> string, sub: string)
    ensures Books(Start(n)) && Tally(Start(n), sub) && ToldRight(Start(n), sub, of)
  {
    forall series
      ensures BooksFor(Start(n), series)
    {
      NobodyWaits(series, n);
    }
  }

  /** So it is for every run from the start, of any number of threads. */
  lemma ToldRightFromStart(n: nat, steps: seq<Step>, of: string -> string, sub: string)
    requires NoDisarm(steps) && Increasing(RecordedOf(After(Start(n), steps, of), of(sub)))
    ensures ToldRight(After(Start(n), steps, of), sub, of) <==> AllTimely(Start(n), steps, of, sub)
  {
    hide Inv, Books, ToldRight, After, AllTimely;
    StartInv(n, of);
    StartTold(n, of, sub);
    ToldRightIff(Start(n), steps, of, sub);
  }

  lemma {:induction false} NobodyWaits(series: string, n: nat)
    ensures WaitingBelow(map[], series, n) == 0
  {
    if n > 0 {
      NobodyWaits(series, n - 1);
    }
  }

  // ----- a run that is not timely

  /** Two threads record a point each before either visits. */
  function Race(series: string, sub: string): seq<Step> {
    [Record(0, series, [10], 0), Record(1, series, [20], 0), Detect(0), Detect(1)] +
    [Visit(0, sub, 1, 0, 1), Visit(1, sub, 1, 0, 1)]
  }

  /** Both are about to visit. */
  function BothCounted(series: string): State {
    Start(2).(totals := map[series := 2], lists := map[series := [10, 20]], recorded := map[series := [10, 20]],
              locals := map[0 := Local(series, 1, 1, {}), 1 := Local(series, 2, 1, {})])
  }

  lemma RaceToVisits(series: string, of: string -> string)
    ensures After(Start(2), [Record(0, series, [10], 0), Record(1, series, [20], 0), Detect(0), Detect(1)], of) ==
            BothCounted(series)
  {
    var s0 := Start(2);
    var a := s0.(recorded := map[series := [10]], lists := map[series := [10]], carries := map[0 := Carry(series, 1)]);
    var b := s0.(recorded := map[series := [10, 20]], lists := map[series := [10, 20]],
                 carries := map[0 := Carry(series, 1), 1 := Carry(series, 1)]);
    var c := b.(totals := map[series := 1], carries := map[1 := Carry(series, 1)],
                locals := map[0 := Local(series, 1, 1, {})]);
    assert [] + [10] == [10] && [10] + [20] == [10, 20];
    assert Next(s0, Record(0, series, [10], 0), of) == a;
    assert Next(a, Record(1, series, [20], 0), of) == b;
    assert Next(b, Detect(0), of) == c;
    assert Next(c, Detect(1), of) == BothCounted(series);
    FourSteps(s0, Record(0, series, [10], 0), Record(1, series, [20], 0), Detect(0), Detect(1), of);
  }

  lemma RaceTakes()
    ensures Take(NewEntry, 1, 1, 1, 0, 1) == Taken(Entry(1, 0), 1, 0) && Batch([10, 20], 1, 0, 1) == [20]
    ensures Take(Entry(1, 0), 2, 1, 1, 0, 1) == Taken(Entry(2, 0), 1, 1) && Batch([10, 20], 2, 1, 1) == [20]
  {
  }

  lemma RaceVisits(series: string, sub: string, of: string -> string)
    requires of(sub) == series
    ensures var s := BothCounted(series);
            ToldTo(Next(Next(s, Visit(0, sub, 1, 0, 1), of), Visit(1, sub, 1, 0, 1), of), sub) == [[20], [20]]
  {
    RaceTakes();
    hide Take, RunsOf, Batch;
    var s := BothCounted(series);
    assert MayVisit(s, 0, sub, of) && EntryOf(s, sub) == NewEntry && ListOf(s, series) == [10, 20];
    VisitTells(s, 0, sub, 1, 0, 1, of);
    var s' := Next(s, Visit(0, sub, 1, 0, 1), of);
    assert s'.lists == s.lists && s'.locals[1] == s.locals[1];
    assert ToldTo(s, sub) + [[20]] == [[20]];
    assert MayVisit(s', 1, sub, of) && EntryOf(s', sub) == Entry(1, 0) && ToldTo(s', sub) == [[20]];
    hide Next;
    VisitTells(s', 1, sub, 1, 0, 1, of);
    assert [[20]] + [[20]] == [[20], [20]];
  }

  /** A run in which the list drops nothing, and one point is told twice and another never. */
  lemma PointToldTwice(series: string, sub: string, of: string -> string)
    requires of(sub) == series
    ensures var s := After(Start(2), Race(series, sub), of);
            RecordedOf(s, series) == [10, 20] == ListOf(s, series) && ToldTo(s, sub) == [[20], [20]]
  {
    var first := [Record(0, series, [10], 0), Record(1, series, [20], 0), Detect(0), Detect(1)];
    var a, b := Visit(0, sub, 1, 0, 1), Visit(1, sub, 1, 0, 1);
    RaceToVisits(series, of);
    RaceVisits(series, sub, of);
    var s := BothCounted(series);
    VisitFrame(s, a, of);
    VisitFrame(Next(s, a, of), b, of);
    hide Next;
    AfterBoth(Start(2), first, [a, b], of);
    TwoSteps(s, a, b, of);
  }

  lemma TwoSteps(s: State, a: Step, b: Step, of: string -> string)
    ensures After(s, [a, b], of) == Next(Next(s, a, of), b, of)
  {
    hide Next;
    AfterNothing(s, of);
    AfterOneMore(s, [], a, of);
    AfterOneMore(s, [a], b, of);
    assert [] + [a] == [a] && [a] + [b] == [a, b];
  }
}
