/** What the statements in the log have to do with the calls the threads made: every thread executes the
    statements it would execute alone, one sequential account per thread, and what ends a transaction
    is what the call that ended it asked for. */
module TransactionCalls {
  import opened Transactions

  // ----- the calls of a run

  /** The calls each thread has made, a store with how its work ended, and for each entry of the log the
      number of the call, among those of its thread, that executed it. */
  datatype Ledger = Ledger(calls: seq<seq<Choice>>, numbers: seq<nat>)

  datatype Noted = Noted(s: State, l: Ledger)

  /** The calls of thread `t` after one step of it. */
  function CallsAfter(pc: Pc, calls: seq<Choice>, c: Choice): seq<Choice> {
    if pc.Idle? then calls + [Choice(c.call, false)]
    else if pc.StoreBody? && calls != [] then calls[..|calls| - 1] + [Choice(calls[|calls| - 1].call, c.fails)]
    else calls
  }

  function Step(n: Noted, m: Move): (r: Noted)
    ensures |n.l.calls| == |n.s.threads| ==> |r.l.calls| == |r.s.threads| == |n.s.threads|
  {
    if m.t >= |n.s.threads| || m.t >= |n.l.calls| then n
    else
      var s' := Take(n.s, m.t, m.choice, true);
      var calls := n.l.calls[m.t];
      Noted(s', Ledger(n.l.calls[m.t := CallsAfter(n.s.threads[m.t].pc, calls, m.choice)],
                       if |s'.log| > |n.s.log| && calls != [] then n.l.numbers + [|calls| - 1] else n.l.numbers))
  }

  function History(n: nat, owner: Tid, schedule: seq<Move>): (r: Noted)
    ensures |r.l.calls| == |r.s.threads| == n
    decreases |schedule|
  {
    if schedule == [] then Noted(Init(n, owner), Ledger(seq(n, _ => []), []))
    else Step(History(n, owner, schedule[..|schedule| - 1]), schedule[|schedule| - 1])
  }

  lemma {:induction false} HistoryRuns(n: nat, owner: Tid, schedule: seq<Move>)
    ensures History(n, owner, schedule).s == Run(Init(n, owner), schedule, true)
    decreases |schedule|
  {
    hide Take, Init;
    if schedule != [] {
      var front, m := schedule[..|schedule| - 1], schedule[|schedule| - 1];
      assert schedule == front + [m];
      HistoryRuns(n, owner, front);
      RunThen(Init(n, owner), front, m, true);
    }
  }

  // ----- a thread alone

  /** A statement, and the number of the call that executes it. */
  datatype Mark = Mark(statement: Statement, call: nat)

  /** A thread that has the database for itself: its open begins, and what was executed. */
  datatype Alone = Alone(level: nat, marks: seq<Mark>)

  function CallAlone(a: Alone, c: Choice, k: nat): Alone {
    match c.call
    case CallBegin => Alone(a.level + 1, if a.level == 0 then a.marks + [Mark(Begin, k)] else a.marks)
    case CallCommit =>
      if a.level == 0 then a
      else Alone(a.level - 1, if a.level == 1 then a.marks + [Mark(Commit, k)] else a.marks)
    case CallRollback => if a.level == 0 then a else Alone(0, a.marks + [Mark(Rollback, k)])
    case CallStore =>
      if a.level > 0 then a
      else Alone(0, a.marks + [Mark(Begin, k)] + [Mark(if c.fails then Rollback else Commit, k)])
  }

  function RunAlone(calls: seq<Choice>): Alone {
    if calls == [] then Alone(0, [])
    else CallAlone(RunAlone(calls[..|calls| - 1]), calls[|calls| - 1], |calls| - 1)
  }

  /** What the log has of thread `t`. */
  function Only(log: seq<Entry>, numbers: seq<nat>, t: Tid): seq<Mark>
    requires |log| == |numbers|
  {
    if log == [] then [] else
    var last := |log| - 1;
    Only(log[..last], numbers[..last], t) + if log[last].t == t then [Mark(log[last].statement, numbers[last])] else []
  }

  lemma OnlyMore(log: seq<Entry>, numbers: seq<nat>, e: Entry, k: nat, t: Tid)
    requires |log| == |numbers|
    ensures Only(log + [e], numbers + [k], t) == Only(log, numbers, t) + if e.t == t then [Mark(e.statement, k)] else []
  {
    assert (log + [e])[..|log|] == log && (numbers + [k])[..|numbers|] == numbers;
  }

  // ----- how far a call has come

  /** The call a thread is in. */
  predicate CallOf(pc: Pc, call: Call) {
    match call
    case CallBegin => InBegin(pc)
    case CallCommit => InCommit(pc)
    case CallRollback => InRollback(pc)
    case CallStore => InStore(pc)
  }

  predicate StoreOpen(pc: Pc) {
    pc == StoreBody(true) || pc.StoreEnd?
  }

  /** The marks of the thread and its level, in a call that follows `a`. */
  predicate Midway(pc: Pc, level: nat, marks: seq<Mark>, a: Alone, c: Choice, k: nat) {
    if Ended(pc) || pc.StoreUnlock? then Alone(level, marks) == CallAlone(a, c, k)
    else if Entering(pc) || StoreOpen(pc) then
      && a.level == level == 0 && marks == a.marks + [Mark(Begin, k)]
      && (pc.StoreEnd? ==> pc.statement == if c.fails then Rollback else Commit)
    else
      && marks == a.marks
      && (if pc.CommitRetest? || pc.CommitExec? then a.level == level + 1
          else if pc.RollbackExec? then a.level > 0 && level == 0
          else a.level == level)
  }

  predicate ThreadAsAlone(th: Thread, calls: seq<Choice>, marks: seq<Mark>) {
    if th.pc.Idle? then Alone(th.level, marks) == RunAlone(calls)
    else
      && calls != [] && CallOf(th.pc, calls[|calls| - 1].call)
      && Midway(th.pc, th.level, marks, RunAlone(calls[..|calls| - 1]), calls[|calls| - 1], |calls| - 1)
  }

  ghost predicate AsAlone(n: Noted) {
    && Inv(n.s) && |n.l.calls| == |n.s.threads| && |n.l.numbers| == |n.s.log|
    && (forall i :: 0 <= i < |n.s.log| ==> n.s.log[i].t < |n.s.threads|)
    && forall t :: 0 <= t < |n.s.threads| ==> ThreadAsAlone(n.s.threads[t], n.l.calls[t], Only(n.s.log, n.l.numbers, t))
  }

  // ----- every step

  /** What the step of a thread in a call executes. */
  function Executed(pc: Pc): seq<Statement> {
    match pc
    case BeginExec => [Begin]
    case CommitExec => [Commit]
    case RollbackExec => [Rollback]
    case StoreBegin => [Begin]
    case StoreEnd(statement) => [statement]
    case _ => []
  }

  lemma StepExecutes(s: State, t: Tid, c: Choice)
    requires t < |s.threads|
    ensures var s', x := Take(s, t, c, true), Executed(s.threads[t].pc);
            s'.log == if x == [] then s.log else s.log + [Entry(t, x[0])]
  {
  }

  /** The step of a call, seen from its thread. */
  lemma MidwayBegin(s: State, t: Tid, marks: seq<Mark>, a: Alone, c: Choice, k: nat)
    requires t < |s.threads| && ThreadOk(s, t) && InBegin(s.threads[t].pc) && c.call == CallBegin
    requires Midway(s.threads[t].pc, s.threads[t].level, marks, a, c, k)
    ensures var th, x := BeginStep(s, t, true).threads[t], Executed(s.threads[t].pc);
            var marks' := if x == [] then marks else marks + [Mark(x[0], k)];
            if th.pc.Idle? then Alone(th.level, marks') == CallAlone(a, c, k)
            else InBegin(th.pc) && Midway(th.pc, th.level, marks', a, c, k)
  {
  }

  lemma MidwayCommit(s: State, t: Tid, marks: seq<Mark>, a: Alone, c: Choice, k: nat)
    requires t < |s.threads| && ThreadOk(s, t) && InCommit(s.threads[t].pc) && c.call == CallCommit
    requires Midway(s.threads[t].pc, s.threads[t].level, marks, a, c, k)
    ensures var th, x := CommitStep(s, t).threads[t], Executed(s.threads[t].pc);
            var marks' := if x == [] then marks else marks + [Mark(x[0], k)];
            if th.pc.Idle? then Alone(th.level, marks') == CallAlone(a, c, k)
            else InCommit(th.pc) && Midway(th.pc, th.level, marks', a, c, k)
  {
  }

  lemma MidwayRollback(s: State, t: Tid, marks: seq<Mark>, a: Alone, c: Choice, k: nat)
    requires t < |s.threads| && ThreadOk(s, t) && InRollback(s.threads[t].pc) && c.call == CallRollback
    requires Midway(s.threads[t].pc, s.threads[t].level, marks, a, c, k)
    ensures var th, x := RollbackStep(s, t).threads[t], Executed(s.threads[t].pc);
            var marks' := if x == [] then marks else marks + [Mark(x[0], k)];
            if th.pc.Idle? then Alone(th.level, marks') == CallAlone(a, c, k)
            else InRollback(th.pc) && Midway(th.pc, th.level, marks', a, c, k)
  {
  }

  lemma MidwayStore(s: State, t: Tid, fails: bool, marks: seq<Mark>, a: Alone, c: Choice, k: nat)
    requires t < |s.threads| && ThreadOk(s, t) && InStore(s.threads[t].pc) && c.call == CallStore
    requires Midway(s.threads[t].pc, s.threads[t].level, marks, a, c, k)
    ensures var th, x := StoreStep(s, t, fails).threads[t], Executed(s.threads[t].pc);
            var marks' := if x == [] then marks else marks + [Mark(x[0], k)];
            var c' := if s.threads[t].pc.StoreBody? then Choice(c.call, fails) else c;
            if th.pc.Idle? then Alone(th.level, marks') == CallAlone(a, c', k)
            else InStore(th.pc) && Midway(th.pc, th.level, marks', a, c', k)
  {
  }

  /** A thread starts a call. */
  lemma Started(s: State, t: Tid, c: Choice, calls: seq<Choice>, marks: seq<Mark>)
    requires t < |s.threads| && s.threads[t].pc.Idle? && ThreadAsAlone(s.threads[t], calls, marks)
    ensures ThreadAsAlone(Take(s, t, c, true).threads[t], CallsAfter(Idle, calls, c), marks)
  {
    var calls' := calls + [Choice(c.call, false)];
    assert calls'[..|calls|] == calls;
  }

  /** A thread goes on with its call, or comes to its end. */
  lemma WentOn(s: State, t: Tid, c: Choice, calls: seq<Choice>, marks: seq<Mark>)
    requires t < |s.threads| && !s.threads[t].pc.Idle? && ThreadOk(s, t)
    requires ThreadAsAlone(s.threads[t], calls, marks)
    ensures var x := Executed(s.threads[t].pc);
            ThreadAsAlone(Take(s, t, c, true).threads[t], CallsAfter(s.threads[t].pc, calls, c),
                          if x == [] then marks else marks + [Mark(x[0], |calls| - 1)])
  {
    hide BeginStep, CommitStep, RollbackStep, StoreStep, Midway, Executed, ThreadOk, CallAlone;
    var k := |calls| - 1;
    var a, last := RunAlone(calls[..k]), calls[k];
    match last.call
    case CallBegin => MidwayBegin(s, t, marks, a, last, k);
    case CallCommit => MidwayCommit(s, t, marks, a, last, k);
    case CallRollback => MidwayRollback(s, t, marks, a, last, k);
    case CallStore =>
      MidwayStore(s, t, c.fails, marks, a, last, k);
      var calls' := CallsAfter(s.threads[t].pc, calls, c);
      assert calls'[..k] == calls[..k];
  }

  lemma MoverAsAlone(n: Noted, m: Move)
    requires AsAlone(n) && m.t < |n.s.threads|
    ensures var n' := Step(n, m);
            && |n'.l.numbers| == |n'.s.log| && (forall i :: 0 <= i < |n'.s.log| ==> n'.s.log[i].t < |n.s.threads|)
            && ThreadAsAlone(n'.s.threads[m.t], n'.l.calls[m.t], Only(n'.s.log, n'.l.numbers, m.t))
            && forall u :: 0 <= u < |n.s.threads| && u != m.t ==>
                 Only(n'.s.log, n'.l.numbers, u) == Only(n.s.log, n.l.numbers, u)
  {
    hide Take, Only, Executed, CallsAfter;
    var t, c, calls, marks := m.t, m.choice, n.l.calls[m.t], Only(n.s.log, n.l.numbers, m.t);
    assert ThreadAsAlone(n.s.threads[t], calls, marks) && ThreadOk(n.s, t);
    StepExecutes(n.s, t, c);
    var x := Executed(n.s.threads[t].pc);
    if n.s.threads[t].pc.Idle? {
      Started(n.s, t, c, calls, marks);
      ExecutedIdle();
    } else {
      WentOn(n.s, t, c, calls, marks);
      hide ThreadAsAlone, Inv;
      if x != [] {
        forall u | 0 <= u < |n.s.threads|
          ensures Only(n.s.log + [Entry(t, x[0])], n.l.numbers + [|calls| - 1], u) ==
                  Only(n.s.log, n.l.numbers, u) + if t == u then [Mark(x[0], |calls| - 1)] else []
        {
          OnlyMore(n.s.log, n.l.numbers, Entry(t, x[0]), |calls| - 1, u);
        }
      }
    }
  }

  lemma ExecutedIdle()
    ensures Executed(Idle) == []
  {
  }

  lemma StepAsAlone(n: Noted, m: Move)
    requires AsAlone(n)
    ensures AsAlone(Step(n, m))
  {
    if m.t < |n.s.threads| {
      hide Take, ThreadAsAlone, Inv, Only, CallsAfter;
      StepKeepsInv(n.s, m.t, m.choice);
      MoverAsAlone(n, m);
    }
  }

  lemma {:induction false} HistoryAsAlone(n: nat, owner: Tid, schedule: seq<Move>)
    ensures AsAlone(History(n, owner, schedule))
    decreases |schedule|
  {
    hide AsAlone, Step;
    if schedule == [] {
      InitAsAlone(n, owner);
    } else {
      HistoryAsAlone(n, owner, schedule[..|schedule| - 1]);
      StepAsAlone(History(n, owner, schedule[..|schedule| - 1]), schedule[|schedule| - 1]);
    }
  }

  lemma InitAsAlone(n: nat, owner: Tid)
    ensures AsAlone(Noted(Init(n, owner), Ledger(seq(n, _ => []), [])))
  {
    InitInv(n, owner);
  }

  // ----- every run

  /** Any number of threads, any schedule: between its calls a thread has executed exactly the statements,
      each by the call, that it would have executed alone, and has as many begins open; during a call
      it has executed a beginning of them that goes at least to the start of the call. */
  lemma EveryThreadAsAlone(n: nat, owner: Tid, schedule: seq<Move>, t: Tid)
    requires t < n
    ensures var h := History(n, owner, schedule);
            && h.s == Run(Init(n, owner), schedule, true) && |h.l.numbers| == |h.s.log|
            && var th, calls, marks := h.s.threads[t], h.l.calls[t], Only(h.s.log, h.l.numbers, t);
               && (th.pc.Idle? ==> RunAlone(calls) == Alone(th.level, marks))
               && (!th.pc.Idle? ==> calls != [] && RunAlone(calls[..|calls| - 1]).marks <= marks)
               && marks <= RunAlone(calls).marks
  {
    hide Run, Init, Only, History, Inv;
    var h := History(n, owner, schedule);
    HistoryRuns(n, owner, schedule);
    HistoryAsAlone(n, owner, schedule);
    assert ThreadAsAlone(h.s.threads[t], h.l.calls[t], Only(h.s.log, h.l.numbers, t));
  }

  // ----- begins and the calls that close them

  function Balance(c: Choice): int {
    match c.call case CallBegin => 1 case CallCommit => -1 case _ => 0
  }

  /** Begins less commits. */
  function Open(calls: seq<Choice>): int {
    if calls == [] then 0 else Open(calls[..|calls| - 1]) + Balance(calls[|calls| - 1])
  }

  /** Between the calls `j` and `k` there is no rollback, and every commit is of a begin there. */
  predicate Within(calls: seq<Choice>, j: nat, k: nat)
    requires j < k <= |calls|
  {
    forall i :: j < i < k ==> StillOpen(calls, j, i)
  }

  predicate StillOpen(calls: seq<Choice>, j: nat, i: nat)
    requires j < i < |calls|
  {
    calls[i].call != CallRollback && Open(calls[j + 1..i + 1]) >= 0
  }

  /** Call `j` is a begin with none open before it, and nothing up to call `k` has closed it. */
  predicate Outermost(calls: seq<Choice>, j: nat, k: nat)
    requires j < k <= |calls|
  {
    calls[j].call == CallBegin && RunAlone(calls[..j]).level == 0 && Within(calls, j, k)
  }

  lemma OpenOneMore(calls: seq<Choice>, j: nat, k: nat)
    requires j <= k < |calls|
    ensures Open(calls[j..k + 1]) == Open(calls[j..k]) + Balance(calls[k])
  {
    var since := calls[j..k + 1];
    assert since[..|since| - 1] == calls[j..k] && since[|since| - 1] == calls[k];
  }

  lemma AloneOneMore(calls: seq<Choice>, k: nat)
    requires k < |calls|
    ensures RunAlone(calls[..k + 1]) == CallAlone(RunAlone(calls[..k]), calls[k], k)
  {
    assert calls[..k + 1][..k] == calls[..k];
  }

  lemma AloneNothing(calls: seq<Choice>)
    ensures RunAlone(calls[..0]) == Alone(0, [])
  {
  }

  /** Since then the level is one above the balance of begins and commits. */
  lemma {:induction false} LevelSince(calls: seq<Choice>, j: nat, k: nat)
    requires j < k <= |calls| && Outermost(calls, j, k)
    ensures RunAlone(calls[..k]).level == 1 + Open(calls[j + 1..k]) && Open(calls[j + 1..k]) >= 0
    ensures RunAlone(calls[..k]).marks == RunAlone(calls[..j]).marks + [Mark(Begin, j)]
    decreases k
  {
    hide RunAlone, Open, Outermost;
    OutermostBefore(calls, j, k);
    AloneOneMore(calls, k - 1);
    if k > j + 1 {
      LevelSince(calls, j, k - 1);
      OpenOneMore(calls, j + 1, k - 1);
    }
  }

  lemma OutermostBefore(calls: seq<Choice>, j: nat, k: nat)
    requires j < k <= |calls| && Outermost(calls, j, k)
    ensures calls[j].call == CallBegin && RunAlone(calls[..j]).level == 0
    ensures k > j + 1 ==>
              Outermost(calls, j, k - 1) && calls[k - 1].call != CallRollback && Open(calls[j + 1..k]) >= 0
    ensures k == j + 1 ==> Open(calls[j + 1..k]) == 0
  {
    assert k > j + 1 ==> StillOpen(calls, j, k - 1);
  }

  /** The begin that a thread with a level has open. */
  lemma {:induction false} OpenedBy(calls: seq<Choice>, k: nat) returns (j: nat)
    requires k <= |calls| && RunAlone(calls[..k]).level > 0
    ensures j < k && Outermost(calls, j, k)
    decreases k
  {
    hide RunAlone, Open;
    if k == 0 {
      AloneNothing(calls);
      assert false;
    }
    AloneOneMore(calls, k - 1);
    if RunAlone(calls[..k - 1]).level == 0 {
      j := k - 1;
    } else {
      j := OpenedBy(calls, k - 1);
      hide Outermost;
      LevelSince(calls, j, k - 1);
      OpenOneMore(calls, j + 1, k - 1);
      StaysOutermost(calls, j, k - 1);
    }
  }

  lemma StaysOutermost(calls: seq<Choice>, j: nat, k: nat)
    requires j < k < |calls| && Outermost(calls, j, k)
    requires StillOpen(calls, j, k)
    ensures Outermost(calls, j, k + 1)
  {
    hide StillOpen, RunAlone;
  }

  /** Call `k` closes the outermost begin `j` by a commit. */
  predicate Closes(calls: seq<Choice>, j: nat, k: nat)
    requires j < k < |calls|
  {
    Outermost(calls, j, k) && calls[k].call == CallCommit && Open(calls[j + 1..k]) == 0
  }

  /** A transaction that `first` opened and `end` ended ended as the call asked for: an explicit one with
      COMMIT if and only if the call was the db_commit_tx that closed its first begin, with ROLLBACK if
      and only if it was db_rollback_tx inside it; an automatic one with COMMIT if and only if the work
      of the store did not fail. */
  predicate EndRight(calls: seq<Choice>, first: Mark, end: Mark) {
    var j, k := first.call, end.call;
    && j <= k < |calls| && first.statement == Begin && end.statement != Begin
    && (j == k <==> calls[k].call == CallStore)
    && (j == k ==> (end.statement == Commit <==> !calls[k].fails))
    && (j < k ==> (end.statement == Commit <==> Closes(calls, j, k)))
    && (j < k ==> (end.statement == Rollback <==> calls[k].call == CallRollback && Outermost(calls, j, k)))
  }

  predicate EndsRight(calls: seq<Choice>, marks: seq<Mark>) {
    forall p :: 0 <= p < |marks| ==> MarkRight(calls, marks, p)
  }

  predicate MarkRight(calls: seq<Choice>, marks: seq<Mark>, p: nat)
    requires p < |marks|
  {
    if p % 2 == 0 then marks[p].statement == Begin else EndRight(calls, marks[p - 1], marks[p])
  }

  /** One more call adds nothing, or ends a transaction rightly. */
  lemma {:induction false} AloneEndsRight(calls: seq<Choice>, k: nat)
    requires k <= |calls|
    ensures EndsRight(calls, RunAlone(calls[..k]).marks)
    ensures |RunAlone(calls[..k]).marks| % 2 == if RunAlone(calls[..k]).level > 0 then 1 else 0
    decreases k
  {
    hide RunAlone, EndRight, Outermost, Open;
    AloneNothing(calls);
    if k > 0 {
      hide EndsRight;
      AloneOneMore(calls, k - 1);
      AloneEndsRight(calls, k - 1);
      var a, c := RunAlone(calls[..k - 1]), calls[k - 1];
      if a.level > 0 {
        var j := OpenedBy(calls, k - 1);
        LevelSince(calls, j, k - 1);
        EndRightly(calls, j, k - 1);
        if c.call == CallRollback {
          EndAppended(calls, a.marks, Mark(Begin, j), Mark(Rollback, k - 1));
        } else if c.call == CallCommit && a.level == 1 {
          EndAppended(calls, a.marks, Mark(Begin, j), Mark(Commit, k - 1));
        }
      } else if c.call == CallStore {
        var end := Mark(if c.fails then Rollback else Commit, k - 1);
        StoreRightly(calls, k - 1);
        BeginAppended(calls, a.marks, k - 1);
        EndAppended(calls, a.marks + [Mark(Begin, k - 1)], Mark(Begin, k - 1), end);
      } else if c.call == CallBegin {
        BeginAppended(calls, a.marks, k - 1);
      }
    }
  }

  lemma BeginAppended(calls: seq<Choice>, marks: seq<Mark>, k: nat)
    requires EndsRight(calls, marks) && |marks| % 2 == 0
    ensures EndsRight(calls, marks + [Mark(Begin, k)])
  {
    hide EndRight;
    forall p | 0 <= p < |marks| + 1
      ensures MarkRight(calls, marks + [Mark(Begin, k)], p)
    {
      assert p < |marks| ==> MarkRight(calls, marks, p);
    }
  }

  lemma EndAppended(calls: seq<Choice>, marks: seq<Mark>, first: Mark, end: Mark)
    requires EndsRight(calls, marks) && |marks| % 2 == 1 && marks[|marks| - 1] == first && EndRight(calls, first, end)
    ensures EndsRight(calls, marks + [end])
  {
    hide EndRight;
    forall p | 0 <= p < |marks| + 1
      ensures MarkRight(calls, marks + [end], p)
    {
      assert p < |marks| ==> MarkRight(calls, marks, p);
    }
  }

  /** The call behind the last of an open transaction. */
  lemma EndRightly(calls: seq<Choice>, j: nat, k: nat)
    requires j < k < |calls| && Outermost(calls, j, k)
    ensures calls[k].call == CallCommit && Open(calls[j + 1..k]) == 0 ==>
              EndRight(calls, Mark(Begin, j), Mark(Commit, k))
    ensures calls[k].call == CallRollback ==> EndRight(calls, Mark(Begin, j), Mark(Rollback, k))
  {
    hide Outermost;
  }

  lemma StoreRightly(calls: seq<Choice>, k: nat)
    requires k < |calls| && calls[k].call == CallStore
    ensures EndRight(calls, Mark(Begin, k), Mark(if calls[k].fails then Rollback else Commit, k))
  {
  }

  // ----- the log

  /** Two neighbours in the log by one thread are neighbours among its own entries. */
  lemma {:induction false} Neighbours(log: seq<Entry>, numbers: seq<nat>, i: nat) returns (p: nat)
    requires |log| == |numbers| && 0 < i < |log| && log[i - 1].t == log[i].t
    ensures var marks := Only(log, numbers, log[i].t);
            && 0 < p < |marks| && marks[p] == Mark(log[i].statement, numbers[i])
            && marks[p - 1] == Mark(log[i - 1].statement, numbers[i - 1])
    decreases |log|
  {
    var last, t := |log| - 1, log[i].t;
    if i < last {
      p := Neighbours(log[..last], numbers[..last], i);
    } else {
      var before, earlier := log[..last], numbers[..last];
      assert before[..last - 1] == log[..last - 1] && earlier[..last - 1] == numbers[..last - 1];
      p := |Only(log, numbers, t)| - 1;
    }
  }

  /** In every run, for every COMMIT and ROLLBACK in the log: the entry before it is the BEGIN of the same
      thread, and the transaction ended as the call that ended it asked for. */
  lemma EveryEndIsRight(n: nat, owner: Tid, schedule: seq<Move>, i: nat)
    requires i < |Run(Init(n, owner), schedule, true).log| && i % 2 == 1
    ensures var h := History(n, owner, schedule);
            && h.s == Run(Init(n, owner), schedule, true) && |h.l.numbers| == |h.s.log|
            && h.s.log[i].t == h.s.log[i - 1].t < n
            && EndRight(h.l.calls[h.s.log[i].t], Mark(h.s.log[i - 1].statement, h.l.numbers[i - 1]),
                        Mark(h.s.log[i].statement, h.l.numbers[i]))
  {
    hide Run, Init, Only, History, RunAlone, EndRight, CallAlone;
    EveryRunIsSafe(n, owner, schedule);
    HistoryRuns(n, owner, schedule);
    HistoryAsAlone(n, owner, schedule);
    var h := History(n, owner, schedule);
    assert Fits(h.s.log, i);
    var t := h.s.log[i].t;
    EveryThreadAsAlone(n, owner, schedule, t);
    var calls := h.l.calls[t];
    assert calls[..|calls|] == calls;
    AloneEndsRight(calls, |calls|);
    var p := Neighbours(h.s.log, h.l.numbers, i);
    var marks, all := Only(h.s.log, h.l.numbers, t), RunAlone(calls).marks;
    assert all[p] == marks[p] && all[p - 1] == marks[p - 1];
    assert MarkRight(calls, all, p) && MarkRight(calls, all, p - 1);
  }

  /** The log has the statement of the call with that number of thread `t`. */
  predicate InLog(log: seq<Entry>, numbers: seq<nat>, t: Tid, m: Mark)
    requires |log| == |numbers|
  {
    exists i :: 0 <= i < |log| && log[i] == Entry(t, m.statement) && numbers[i] == m.call
  }

  lemma {:induction false} MarkInLog(log: seq<Entry>, numbers: seq<nat>, t: Tid, m: Mark)
    requires |log| == |numbers| && m in Only(log, numbers, t)
    ensures InLog(log, numbers, t, m)
    decreases |log|
  {
    var last := |log| - 1;
    if log[last] == Entry(t, m.statement) && numbers[last] == m.call {
    } else {
      MarkInLog(log[..last], numbers[..last], t, m);
      var i :| 0 <= i < last && log[..last][i] == Entry(t, m.statement) && numbers[..last][i] == m.call;
      assert log[i] == Entry(t, m.statement) && numbers[i] == m.call;
    }
  }

  lemma {:induction false} MarksGrow(calls: seq<Choice>, k: nat, l: nat)
    requires k <= l <= |calls|
    ensures RunAlone(calls[..k]).marks <= RunAlone(calls[..l]).marks
    decreases l
  {
    hide RunAlone;
    if k < l {
      AloneOneMore(calls, l - 1);
      MarksGrow(calls, k, l - 1);
    }
  }

  /** What the call that closes a transaction executes. */
  lemma ClosingExecutes(calls: seq<Choice>, j: nat, k: nat)
    requires j < k < |calls| && Outermost(calls, j, k)
    ensures Closes(calls, j, k) ==> Mark(Commit, k) in RunAlone(calls[..k + 1]).marks
    ensures calls[k].call == CallRollback ==> Mark(Rollback, k) in RunAlone(calls[..k + 1]).marks
  {
    hide RunAlone, Open, Outermost;
    LevelSince(calls, j, k);
    AloneOneMore(calls, k);
    var a := RunAlone(calls[..k]);
    assert CallAlone(a, calls[k], k).marks != a.marks ==> CallAlone(a, calls[k], k).marks[|a.marks|].call == k;
  }

  /** In every run, a commit that closes its thread's first begin has executed COMMIT when it returns, and a
      rollback in a transaction ROLLBACK. */
  lemma ClosingCallsExecute(n: nat, owner: Tid, schedule: seq<Move>, t: Tid, j: nat, k: nat)
    requires t < n && j < k < |History(n, owner, schedule).l.calls[t]|
    requires History(n, owner, schedule).s.threads[t].pc.Idle? || k + 1 < |History(n, owner, schedule).l.calls[t]|
    requires Outermost(History(n, owner, schedule).l.calls[t], j, k)
    ensures var h := History(n, owner, schedule);
            && h.s == Run(Init(n, owner), schedule, true) && |h.l.numbers| == |h.s.log|
            && (Closes(h.l.calls[t], j, k) ==> InLog(h.s.log, h.l.numbers, t, Mark(Commit, k)))
            && (h.l.calls[t][k].call == CallRollback ==> InLog(h.s.log, h.l.numbers, t, Mark(Rollback, k)))
  {
    hide Run, Init, Only, History, RunAlone, Outermost, Closes, InLog;
    EveryThreadAsAlone(n, owner, schedule, t);
    var h := History(n, owner, schedule);
    var calls, marks := h.l.calls[t], Only(h.s.log, h.l.numbers, t);
    ClosingExecutes(calls, j, k);
    var done := if h.s.threads[t].pc.Idle? then |calls| else |calls| - 1;
    assert calls[..|calls|] == calls;
    MarksGrow(calls, k + 1, done);
    assert RunAlone(calls[..k + 1]).marks <= marks;
    if Closes(calls, j, k) {
      MarkInLog(h.s.log, h.l.numbers, t, Mark(Commit, k));
    }
    if calls[k].call == CallRollback {
      MarkInLog(h.s.log, h.l.numbers, t, Mark(Rollback, k));
    }
  }
}
