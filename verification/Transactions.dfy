/** The nested transaction protocol of the database back ends, for any number of threads
    interleaved one shared access at a time.

    depth, owner and ownerValid are the static variables; the mutex is recursive.  Two fields of
    a thread are bookkeeping only and never steer it: `level` counts the db_begin_tx calls it
    still has open, and `own` says that it entered its transaction and has not released the
    mutex for it. */
module Transactions {

  type Tid = nat

  datatype Statement = Begin | Commit | Rollback

  /** Where a thread stands; each name but Idle is about to make one shared access. */
  datatype Pc =
    | Idle
    // db_begin_tx
    | BeginReadValid | BeginReadOwner | NestReadDepth | NestWriteDepth(seen: int)
    | BeginLock | BeginTestDepth | BeginMismatch | BeginExec
    | BeginSetOwner | BeginSetValid | BeginSetDepth
    // db_commit_tx
    | CommitReadValid | CommitReadOwner | CommitTestDepth | CommitReadDepth | CommitWriteDepth(seen: int)
    | CommitRetest | CommitExec | CommitClearValid | CommitUnlock
    // db_rollback_tx
    | RollbackReadValid | RollbackReadOwner | RollbackTestDepth | StaleClearValid | StaleUnlock
    | RollbackClearDepth | RollbackExec | RollbackClearValid | RollbackUnlock
    // db_store_resource and db_update_resource
    | StoreLock | StoreTestDepth | StoreBegin | StoreBody(auto: bool) | StoreEnd(statement: Statement) | StoreUnlock

  datatype Thread = Thread(pc: Pc, own: bool, level: nat)

  datatype Holder = Free | HeldBy(t: Tid)

  datatype Entry = Entry(t: Tid, statement: Statement)

  datatype State = State(
    depth: int, owner: Tid, ownerValid: bool,
    holder: Holder, count: nat,
    threads: seq<Thread>,
    log: seq<Entry>)

  /** What an idle thread calls next, and how a store's own work ends. */
  datatype Call = CallBegin | CallCommit | CallRollback | CallStore
  datatype Choice = Choice(call: Call, fails: bool)

  function Go(s: State, t: Tid, pc: Pc): State
    requires t < |s.threads|
  {
    s.(threads := s.threads[t := s.threads[t].(pc := pc)])
  }

  function GoAs(s: State, t: Tid, pc: Pc, own: bool, level: nat): State
    requires t < |s.threads|
  {
    s.(threads := s.threads[t := Thread(pc, own, level)])
  }

  /** pthread_mutex_lock on a recursive mutex; a thread that would block stays where it is. */
  function Lock(s: State, t: Tid, pc: Pc): State
    requires t < |s.threads|
  {
    if s.holder == Free then Go(s, t, pc).(holder := HeldBy(t), count := 1)
    else if s.holder == HeldBy(t) then Go(s, t, pc).(count := s.count + 1)
    else s
  }

  function Unlock(s: State): State {
    if s.count > 1 then s.(count := s.count - 1) else s.(holder := Free, count := 0)
  }

  function Exec(s: State, t: Tid, statement: Statement): State {
    s.(log := s.log + [Entry(t, statement)])
  }

  /** A step of db_begin_tx.  `ownerFirst` is the order in which it publishes its ownership: the
      owner before the valid flag, as the code has it. */
  function BeginStep(s: State, t: Tid, ownerFirst: bool): (r: State)
    requires t < |s.threads| && InBegin(s.threads[t].pc)
    ensures |r.threads| == |s.threads| && forall u :: 0 <= u < |s.threads| && u != t ==> r.threads[u] == s.threads[u]
  {
    match s.threads[t].pc
    case BeginReadValid => Go(s, t, if s.ownerValid then BeginReadOwner else BeginLock)
    case BeginReadOwner => Go(s, t, if s.owner == t then NestReadDepth else BeginLock)
    case NestReadDepth => Go(s, t, NestWriteDepth(s.depth))
    case NestWriteDepth(d) => GoAs(s, t, Idle, s.threads[t].own, s.threads[t].level + 1).(depth := d + 1)
    case BeginLock => Lock(s, t, BeginTestDepth)
    case BeginTestDepth => Go(s, t, if s.depth != 0 then BeginMismatch else BeginExec)
    case BeginMismatch => Unlock(Go(s, t, Idle))
    case BeginExec => Exec(Go(s, t, if ownerFirst then BeginSetOwner else BeginSetValid), t, Begin)
    case BeginSetOwner => Go(s, t, if ownerFirst then BeginSetValid else BeginSetDepth).(owner := t)
    case BeginSetValid => Go(s, t, if ownerFirst then BeginSetDepth else BeginSetOwner).(ownerValid := true)
    case BeginSetDepth => GoAs(s, t, Idle, true, 1).(depth := 1)
  }

  /** A step of db_commit_tx. */
  function CommitStep(s: State, t: Tid): (r: State)
    requires t < |s.threads| && InCommit(s.threads[t].pc)
    ensures |r.threads| == |s.threads| && forall u :: 0 <= u < |s.threads| && u != t ==> r.threads[u] == s.threads[u]
  {
    match s.threads[t].pc
    case CommitReadValid => Go(s, t, if s.ownerValid then CommitReadOwner else Idle)
    case CommitReadOwner => Go(s, t, if s.owner == t then CommitTestDepth else Idle)
    case CommitTestDepth => Go(s, t, if s.depth == 0 then Idle else CommitReadDepth)
    case CommitReadDepth => Go(s, t, CommitWriteDepth(s.depth))
    case CommitWriteDepth(d) =>
      GoAs(s, t, CommitRetest, s.threads[t].own, if s.threads[t].level > 0 then s.threads[t].level - 1 else 0)
      .(depth := d - 1)
    case CommitRetest => Go(s, t, if s.depth == 0 then CommitExec else Idle)
    case CommitExec => Exec(Go(s, t, CommitClearValid), t, Commit)
    case CommitClearValid => Go(s, t, CommitUnlock).(ownerValid := false)
    case CommitUnlock => Unlock(GoAs(s, t, Idle, false, 0))
  }

  /** A step of db_rollback_tx. */
  function RollbackStep(s: State, t: Tid): (r: State)
    requires t < |s.threads| && InRollback(s.threads[t].pc)
    ensures |r.threads| == |s.threads| && forall u :: 0 <= u < |s.threads| && u != t ==> r.threads[u] == s.threads[u]
  {
    match s.threads[t].pc
    case RollbackReadValid => Go(s, t, if s.ownerValid then RollbackReadOwner else Idle)
    case RollbackReadOwner => Go(s, t, if s.owner == t then RollbackTestDepth else Idle)
    case RollbackTestDepth => Go(s, t, if s.depth == 0 then StaleClearValid else RollbackClearDepth)
    case StaleClearValid => Go(s, t, StaleUnlock).(ownerValid := false)
    case StaleUnlock => Unlock(GoAs(s, t, Idle, false, 0))
    case RollbackClearDepth => GoAs(s, t, RollbackExec, s.threads[t].own, 0).(depth := 0)
    case RollbackExec => Exec(Go(s, t, RollbackClearValid), t, Rollback)
    case RollbackClearValid => Go(s, t, RollbackUnlock).(ownerValid := false)
    case RollbackUnlock => Unlock(GoAs(s, t, Idle, false, 0))
  }

  /** A step of db_store_resource or db_update_resource, whose own work may fail. */
  function StoreStep(s: State, t: Tid, fails: bool): (r: State)
    requires t < |s.threads| && InStore(s.threads[t].pc)
    ensures |r.threads| == |s.threads| && forall u :: 0 <= u < |s.threads| && u != t ==> r.threads[u] == s.threads[u]
  {
    match s.threads[t].pc
    case StoreLock => Lock(s, t, StoreTestDepth)
    case StoreTestDepth => Go(s, t, if s.depth == 0 then StoreBegin else StoreBody(false))
    case StoreBegin => Exec(Go(s, t, StoreBody(true)), t, Begin)
    case StoreBody(auto) =>
      Go(s, t, if !auto then StoreUnlock else StoreEnd(if fails then Rollback else Commit))
    case StoreEnd(statement) => Exec(Go(s, t, StoreUnlock), t, statement)
    case StoreUnlock => Unlock(Go(s, t, Idle))
  }

  predicate InBegin(pc: Pc) {
    pc.BeginReadValid? || pc.BeginReadOwner? || pc.NestReadDepth? || pc.NestWriteDepth? || pc.BeginLock? ||
    pc.BeginTestDepth? || pc.BeginMismatch? || pc.BeginExec? || pc.BeginSetOwner? || pc.BeginSetValid? ||
    pc.BeginSetDepth?
  }

  predicate InCommit(pc: Pc) {
    pc.CommitReadValid? || pc.CommitReadOwner? || pc.CommitTestDepth? || pc.CommitReadDepth? || pc.CommitWriteDepth? ||
    pc.CommitRetest? || pc.CommitExec? || pc.CommitClearValid? || pc.CommitUnlock?
  }

  predicate InRollback(pc: Pc) {
    pc.RollbackReadValid? || pc.RollbackReadOwner? || pc.RollbackTestDepth? || pc.StaleClearValid? || pc.StaleUnlock? ||
    pc.RollbackClearDepth? || pc.RollbackExec? || pc.RollbackClearValid? || pc.RollbackUnlock?
  }

  predicate InStore(pc: Pc) {
    pc.StoreLock? || pc.StoreTestDepth? || pc.StoreBegin? || pc.StoreBody? || pc.StoreEnd? || pc.StoreUnlock?
  }

  /** One step of thread `t`. */
  function Take(s: State, t: Tid, c: Choice, ownerFirst: bool): (r: State)
    requires t < |s.threads|
    ensures |r.threads| == |s.threads| && forall u :: 0 <= u < |s.threads| && u != t ==> r.threads[u] == s.threads[u]
  {
    var pc := s.threads[t].pc;
    if pc.Idle? then
      Go(s, t, match c.call
               case CallBegin => BeginReadValid
               case CallCommit => CommitReadValid
               case CallRollback => RollbackReadValid
               case CallStore => StoreLock)
    else if InBegin(pc) then BeginStep(s, t, ownerFirst)
    else if InCommit(pc) then CommitStep(s, t)
    else if InRollback(pc) then RollbackStep(s, t)
    else StoreStep(s, t, c.fails)
  }

  datatype Move = Move(t: Tid, choice: Choice)

  /** Any schedule: a step of a thread that does not exist changes nothing. */
  function Run(s: State, schedule: seq<Move>, ownerFirst: bool): (r: State)
    ensures |r.threads| == |s.threads|
    decreases |schedule|
  {
    if schedule == [] then s
    else
      var m := schedule[0];
      Run(if m.t < |s.threads| then Take(s, m.t, m.choice, ownerFirst) else s, schedule[1..], ownerFirst)
  }

  /** Start: no transaction, the mutex free, `n` idle threads; owner holds whatever it holds. */
  function Init(n: nat, owner: Tid): State {
    State(0, owner, false, Free, 0, seq(n, _ => Thread(Idle, false, 0)), [])
  }

  // ----- the invariant

  /** Mutex acquisitions a thread holds on account of the call it is in. */
  function CallLocks(pc: Pc): nat {
    match pc
    case BeginTestDepth => 1 case BeginMismatch => 1 case BeginExec => 1
    case BeginSetOwner => 1 case BeginSetValid => 1 case BeginSetDepth => 1
    case StoreTestDepth => 1 case StoreBegin => 1 case StoreBody(_) => 1 case StoreEnd(_) => 1 case StoreUnlock => 1
    case _ => 0
  }

  function Held(th: Thread): nat {
    CallLocks(th.pc) + if th.own then 1 else 0
  }

  /** Past the ownership test of a nested begin, a commit or a rollback. */
  predicate PastOwnerTest(pc: Pc) {
    pc.NestReadDepth? || pc.NestWriteDepth? ||
    pc.CommitTestDepth? || pc.CommitReadDepth? || pc.CommitWriteDepth? || pc.CommitRetest? ||
    pc.CommitExec? || pc.CommitClearValid? || pc.CommitUnlock? ||
    pc.RollbackTestDepth? || pc.RollbackClearDepth? || pc.RollbackExec? || pc.RollbackClearValid? || pc.RollbackUnlock?
  }

  /** After the outermost commit or rollback has decided to end the transaction. */
  predicate Ending(pc: Pc) {
    pc.CommitExec? || pc.CommitClearValid? || pc.CommitUnlock? ||
    pc.RollbackExec? || pc.RollbackClearValid? || pc.RollbackUnlock?
  }

  predicate Ended(pc: Pc) {
    pc.CommitClearValid? || pc.CommitUnlock? || pc.RollbackClearValid? || pc.RollbackUnlock?
  }

  predicate Entering(pc: Pc) {
    pc.BeginSetOwner? || pc.BeginSetValid? || pc.BeginSetDepth?
  }

  /** The thread has an SQL transaction open, explicit or automatic. */
  predicate Inside(th: Thread) {
    (th.own && !Ended(th.pc)) || Entering(th.pc) || th.pc == StoreBody(true) || th.pc.StoreEnd?
  }

  /** The branches the code keeps for states that never arise. */
  predicate Unreachable(pc: Pc) {
    pc.BeginMismatch? || pc.StaleClearValid? || pc.StaleUnlock?
  }

  /** What holds of a thread that owns the transaction. */
  predicate OwnerOk(s: State, t: Tid, th: Thread) {
    && (CallLocks(th.pc) > 0 ==> InStore(th.pc))
    && !th.pc.BeginLock? && !th.pc.StoreBegin? && th.pc != StoreBody(true) && !th.pc.StoreEnd?
    && s.owner == t && s.depth == th.level
    && (s.ownerValid <==> !th.pc.CommitUnlock? && !th.pc.RollbackUnlock?)
    && (Ending(th.pc) ==> th.level == 0)
    && (th.level == 0 ==> Ending(th.pc) || th.pc.CommitRetest?)
    && (th.pc.NestWriteDepth? ==> th.pc.seen == s.depth)
    && (th.pc.CommitWriteDepth? ==> th.pc.seen == s.depth)
  }

  /** What holds of a thread that does not. */
  predicate OtherOk(s: State, t: Tid, th: Thread) {
    && th.level == 0 && !PastOwnerTest(th.pc)
    && (th.pc.BeginReadOwner? || th.pc.CommitReadOwner? || th.pc.RollbackReadOwner? ==> s.owner != t)
    && (CallLocks(th.pc) > 0 ==>
          s.depth == 0 && (s.ownerValid <==> th.pc.BeginSetDepth?) &&
          (th.pc.BeginSetValid? || th.pc.BeginSetDepth? ==> s.owner == t) && th.pc != StoreBody(false))
    && (th.pc.StoreEnd? ==> th.pc.statement != Begin)
  }

  predicate ThreadOk(s: State, t: Tid)
    requires t < |s.threads|
  {
    var th := s.threads[t];
    && !Unreachable(th.pc)
    && (if th.own then OwnerOk(s, t, th) else OtherOk(s, t, th))
    && (Held(th) > 0 ==> s.holder == HeldBy(t) && s.count == Held(th))
  }

  /** BEGIN, then COMMIT or ROLLBACK by the same thread, and so on. */
  predicate Alternates(log: seq<Entry>) {
    forall i :: 0 <= i < |log| ==> Fits(log, i)
  }

  predicate Fits(log: seq<Entry>, i: nat)
    requires i < |log|
  {
    if i % 2 == 0 then log[i].statement == Begin
    else log[i].statement != Begin && log[i].t == log[i - 1].t
  }

  lemma AlternatesMore(log: seq<Entry>, e: Entry)
    requires Alternates(log)
    requires if |log| % 2 == 0 then e.statement == Begin else e.statement != Begin && e.t == log[|log| - 1].t
    ensures Alternates(log + [e])
  {
    forall i | 0 <= i < |log|
      ensures Fits(log + [e], i)
    {
      assert Fits(log, i);
    }
  }

  predicate MutexOk(s: State) {
    match s.holder
    case Free => s.count == 0 && !s.ownerValid && s.depth == 0 && |s.log| % 2 == 0
    case HeldBy(h) =>
      && h < |s.threads| && Held(s.threads[h]) > 0
      && (|s.log| % 2 == 1 <==> Inside(s.threads[h]))
      && (|s.log| % 2 == 1 ==> s.log[|s.log| - 1].t == h)
  }

  predicate Inv(s: State) {
    && (forall t :: 0 <= t < |s.threads| ==> ThreadOk(s, t))
    && MutexOk(s)
    && Alternates(s.log)
  }

  lemma InitInv(n: nat, owner: Tid)
    ensures Inv(Init(n, owner))
  {
  }

  /** The mover, the mutex and the log after a step. */
  predicate MovedOk(s: State, t: Tid)
    requires t < |s.threads|
  {
    ThreadOk(s, t) && MutexOk(s) && Alternates(s.log)
  }

  /** What a step of `t` may assume: its own invariant, the mutex holder's, the mutex and the log. */
  predicate Ready(s: State, t: Tid)
    requires t < |s.threads|
  {
    MovedOk(s, t) && (s.holder.HeldBy? ==> ThreadOk(s, s.holder.t))
  }

  lemma NestKept(s: State, t: Tid)
    requires t < |s.threads| && Ready(s, t)
    requires var pc := s.threads[t].pc;
             pc.BeginReadValid? || pc.BeginReadOwner? || pc.NestReadDepth? || pc.NestWriteDepth?
    ensures MovedOk(BeginStep(s, t, true), t)
  {
    hide Alternates;
  }

  lemma EnterKept(s: State, t: Tid)
    requires t < |s.threads| && Ready(s, t)
    requires var pc := s.threads[t].pc; pc.BeginLock? || pc.BeginTestDepth? || pc.BeginMismatch? || pc.BeginExec?
    ensures MovedOk(BeginStep(s, t, true), t)
  {
    hide Alternates;
    if s.threads[t].pc.BeginExec? {
      AlternatesMore(s.log, Entry(t, Begin));
    }
  }

  lemma PublishKept(s: State, t: Tid)
    requires t < |s.threads| && Ready(s, t)
    requires var pc := s.threads[t].pc; Entering(pc)
    ensures MovedOk(BeginStep(s, t, true), t)
  {
    hide Alternates;
  }

  lemma CommitTestKept(s: State, t: Tid)
    requires t < |s.threads| && Ready(s, t)
    requires var pc := s.threads[t].pc;
             pc.CommitReadValid? || pc.CommitReadOwner? || pc.CommitTestDepth? || pc.CommitReadDepth? ||
             pc.CommitWriteDepth?
    ensures MovedOk(CommitStep(s, t), t)
  {
    hide Alternates;
  }

  lemma CommitEndKept(s: State, t: Tid)
    requires t < |s.threads| && Ready(s, t)
    requires var pc := s.threads[t].pc; InCommit(pc) && (Ending(pc) || pc.CommitRetest?)
    ensures MovedOk(CommitStep(s, t), t)
  {
    hide Alternates;
    if s.threads[t].pc.CommitExec? {
      AlternatesMore(s.log, Entry(t, Commit));
    }
  }

  lemma RollbackTestKept(s: State, t: Tid)
    requires t < |s.threads| && Ready(s, t)
    requires var pc := s.threads[t].pc; InRollback(pc) && !Ending(pc)
    ensures MovedOk(RollbackStep(s, t), t)
  {
    hide Alternates;
  }

  lemma RollbackEndKept(s: State, t: Tid)
    requires t < |s.threads| && Ready(s, t)
    requires var pc := s.threads[t].pc; InRollback(pc) && Ending(pc)
    ensures MovedOk(RollbackStep(s, t), t)
  {
    hide Alternates;
    if s.threads[t].pc.RollbackExec? {
      AlternatesMore(s.log, Entry(t, Rollback));
    }
  }

  lemma StoreLockKept(s: State, t: Tid, fails: bool)
    requires t < |s.threads| && Ready(s, t)
    requires var pc := s.threads[t].pc; pc.StoreLock? || pc.StoreUnlock?
    ensures MovedOk(StoreStep(s, t, fails), t)
  {
    hide Alternates;
  }

  lemma StoreWorkKept(s: State, t: Tid, fails: bool)
    requires t < |s.threads| && Ready(s, t)
    requires var pc := s.threads[t].pc; pc.StoreTestDepth? || pc.StoreBody?
    ensures MovedOk(StoreStep(s, t, fails), t)
  {
    hide Alternates;
  }

  lemma StoreExecKept(s: State, t: Tid, fails: bool)
    requires t < |s.threads| && Ready(s, t)
    requires var pc := s.threads[t].pc; pc.StoreBegin? || pc.StoreEnd?
    ensures MovedOk(StoreStep(s, t, fails), t)
  {
    hide Alternates;
    if s.threads[t].pc.StoreBegin? {
      AlternatesMore(s.log, Entry(t, Begin));
    } else {
      AlternatesMore(s.log, Entry(t, s.threads[t].pc.statement));
    }
  }

  lemma IdleKept(s: State, t: Tid, c: Choice)
    requires t < |s.threads| && Ready(s, t) && s.threads[t].pc.Idle?
    ensures MovedOk(Take(s, t, c, true), t)
  {
    hide Alternates;
  }

  lemma MoverKept(s: State, t: Tid, c: Choice)
    requires t < |s.threads| && Ready(s, t)
    ensures MovedOk(Take(s, t, c, true), t)
  {
    hide BeginStep, CommitStep, RollbackStep, StoreStep, Ready, MovedOk;
    var pc := s.threads[t].pc;
    match pc
    case Idle => IdleKept(s, t, c);
    case BeginReadValid => NestKept(s, t);
    case BeginReadOwner => NestKept(s, t);
    case NestReadDepth => NestKept(s, t);
    case NestWriteDepth(_) => NestKept(s, t);
    case BeginSetOwner => PublishKept(s, t);
    case BeginSetValid => PublishKept(s, t);
    case BeginSetDepth => PublishKept(s, t);
    case StoreLock => StoreLockKept(s, t, c.fails);
    case StoreUnlock => StoreLockKept(s, t, c.fails);
    case StoreBegin => StoreExecKept(s, t, c.fails);
    case StoreEnd(_) => StoreExecKept(s, t, c.fails);
    case StoreTestDepth => StoreWorkKept(s, t, c.fails);
    case StoreBody(_) => StoreWorkKept(s, t, c.fails);
    case _ =>
      if InBegin(pc) {
        EnterKept(s, t);
      } else if InCommit(pc) && (Ending(pc) || pc.CommitRetest?) {
        CommitEndKept(s, t);
      } else if InCommit(pc) {
        CommitTestKept(s, t);
      } else if Ending(pc) {
        RollbackEndKept(s, t);
      } else {
        RollbackTestKept(s, t);
      }
  }

  /** Only the mutex holder writes the shared variables, and a step passes the mutex only from
      free to the mover or back. */
  predicate Framed(s: State, t: Tid, s': State) {
    && (s.holder != HeldBy(t) ==>
          s'.depth == s.depth && s'.owner == s.owner && s'.ownerValid == s.ownerValid &&
          (s.holder != Free ==> s'.holder == s.holder && s'.count == s.count))
    && (s'.owner == s.owner || s'.owner == t)
  }

  lemma StepFramed(s: State, t: Tid, c: Choice)
    requires t < |s.threads| && ThreadOk(s, t)
    ensures Framed(s, t, Take(s, t, c, true))
  {
  }

  /** So a step leaves alone what the other threads' invariants speak of. */
  lemma OthersKept(s: State, t: Tid, s': State, u: Tid)
    requires t < |s.threads| && u < |s.threads| == |s'.threads| && u != t && Framed(s, t, s')
    requires ThreadOk(s, u) && s'.threads[u] == s.threads[u]
    ensures ThreadOk(s', u)
  {
  }

  lemma StepKeepsInv(s: State, t: Tid, c: Choice)
    requires Inv(s) && t < |s.threads|
    ensures Inv(Take(s, t, c, true))
  {
    hide Take, ThreadOk, Framed, Alternates;
    var s' := Take(s, t, c, true);
    MoverKept(s, t, c);
    StepFramed(s, t, c);
    forall u | 0 <= u < |s'.threads|
      ensures ThreadOk(s', u)
    {
      if u != t {
        OthersKept(s, t, s', u);
      }
    }
  }

  lemma {:induction false} RunKeepsInv(s: State, schedule: seq<Move>)
    requires Inv(s)
    ensures Inv(Run(s, schedule, true))
    decreases |schedule|
  {
    hide Inv, Take;
    if schedule != [] {
      var m := schedule[0];
      if m.t < |s.threads| {
        StepKeepsInv(s, m.t, m.choice);
        RunKeepsInv(Take(s, m.t, m.choice, true), schedule[1..]);
      } else {
        RunKeepsInv(s, schedule[1..]);
      }
    }
  }

  // ----- what follows for every run

  /** No two threads have a transaction open, and the log is open exactly when one has. */
  predicate Exclusive(s: State) {
    && (forall t, u :: 0 <= t < u < |s.threads| ==> !(Inside(s.threads[t]) && Inside(s.threads[u])))
    && (|s.log| % 2 == 1 <==> exists t :: 0 <= t < |s.threads| && Inside(s.threads[t]))
  }

  /** Whoever is past an ownership test owns the transaction and holds the mutex. */
  predicate OwnerOnly(s: State) {
    forall t :: 0 <= t < |s.threads| && PastOwnerTest(s.threads[t].pc) ==>
      s.threads[t].own && s.holder == HeldBy(t)
  }

  /** For the owner, depth is the number of its open begins; COMMIT and ROLLBACK wait for zero. */
  predicate DepthCounts(s: State) {
    forall t :: 0 <= t < |s.threads| && s.threads[t].own ==>
      s.depth == s.threads[t].level && (Ending(s.threads[t].pc) ==> s.depth == 0) &&
      (s.threads[t].pc.Idle? ==> s.depth >= 1)
  }

  predicate NeverUnreachable(s: State) {
    forall t :: 0 <= t < |s.threads| ==> !Unreachable(s.threads[t].pc)
  }

  lemma InvExclusive(s: State)
    requires Inv(s)
    ensures Exclusive(s)
  {
    forall t | 0 <= t < |s.threads| && Inside(s.threads[t])
      ensures s.holder == HeldBy(t)
    {
      assert ThreadOk(s, t);
    }
  }

  lemma InvOwner(s: State)
    requires Inv(s)
    ensures OwnerOnly(s) && DepthCounts(s) && NeverUnreachable(s)
  {
    forall t | 0 <= t < |s.threads|
      ensures !Unreachable(s.threads[t].pc)
      ensures PastOwnerTest(s.threads[t].pc) ==> s.threads[t].own && s.holder == HeldBy(t)
      ensures s.threads[t].own ==>
                s.depth == s.threads[t].level && (Ending(s.threads[t].pc) ==> s.depth == 0) &&
                (s.threads[t].pc.Idle? ==> s.depth >= 1)
    {
      assert ThreadOk(s, t);
    }
  }

  /** Any number of threads, any schedule, whatever the owner variable held at the start: one
      transaction at a time, ownership tests that let only the owner through, the fallback
      branches never taken, and BEGIN strictly alternating with COMMIT or ROLLBACK. */
  lemma EveryRunIsSafe(n: nat, owner: Tid, schedule: seq<Move>)
    ensures var s := Run(Init(n, owner), schedule, true);
            Exclusive(s) && OwnerOnly(s) && DepthCounts(s) && NeverUnreachable(s) && Alternates(s.log)
  {
    hide Exclusive, OwnerOnly, DepthCounts, NeverUnreachable, Alternates, Run;
    var s := Run(Init(n, owner), schedule, true);
    InitInv(n, owner);
    RunKeepsInv(Init(n, owner), schedule);
    InvExclusive(s);
    InvOwner(s);
  }

  // ----- why the owner is written before the flag

  lemma {:induction false} RunThen(s: State, schedule: seq<Move>, m: Move, ownerFirst: bool)
    ensures var r := Run(s, schedule, ownerFirst);
            Run(s, schedule + [m], ownerFirst) ==
            if m.t < |r.threads| then Take(r, m.t, m.choice, ownerFirst) else r
    decreases |schedule|
  {
    hide Take;
    if schedule == [] {
      assert (schedule + [m])[1..] == [];
    } else {
      var first := schedule[0];
      assert (schedule + [m])[1..] == schedule[1..] + [m] && (schedule + [m])[0] == first;
      RunThen(if first.t < |s.threads| then Take(s, first.t, first.choice, ownerFirst) else s, schedule[1..], m,
              ownerFirst);
    }
  }

  /** One more step of a thread inside db_begin_tx. */
  lemma BeginMove(s: State, schedule: seq<Move>, now: State, t: Tid)
    requires now == Run(s, schedule, false) && t < |s.threads|
    requires now.threads[t].pc.Idle? || InBegin(now.threads[t].pc)
    ensures var next := if now.threads[t].pc.Idle? then Go(now, t, BeginReadValid) else BeginStep(now, t, false);
            Run(s, schedule + [Move(t, Choice(CallBegin, false))], false) == next
  {
    hide Run, BeginStep;
    RunThen(s, schedule, Move(t, Choice(CallBegin, false)), false);
  }

  /** Two threads, the first not yet in a transaction, the second entering one. */
  function Snapshot(first: Pc, second: Pc, valid: bool, locked: bool, log: seq<Entry>): State {
    State(0, 0, valid, if locked then HeldBy(1) else Free, if locked then 1 else 0,
          [Thread(first, false, 0), Thread(second, false, 0)], log)
  }

  lemma Entered() returns (schedule: seq<Move>)
    ensures Run(Init(2, 0), schedule, false) == Snapshot(Idle, BeginExec, false, true, [])
  {
    hide Run, BeginStep;
    var s0 := Init(2, 0);
    assert s0 == Snapshot(Idle, Idle, false, false, []);
    var begin := Move(1, Choice(CallBegin, false));
    schedule := [];
    RunNothing(s0);
    BeginMove(s0, schedule, Snapshot(Idle, Idle, false, false, []), 1);
    schedule := schedule + [begin];
    assert Run(s0, schedule, false) == Snapshot(Idle, BeginReadValid, false, false, []);
    BeginMove(s0, schedule, Snapshot(Idle, BeginReadValid, false, false, []), 1);
    schedule := schedule + [begin];
    EnteringSteps();
    BeginMove(s0, schedule, Snapshot(Idle, BeginLock, false, false, []), 1);
    schedule := schedule + [begin];
    BeginMove(s0, schedule, Snapshot(Idle, BeginTestDepth, false, true, []), 1);
    schedule := schedule + [begin];
  }

  lemma RunNothing(s: State)
    ensures Run(s, [], false) == s
  {
  }

  lemma EnteringSteps()
    ensures BeginStep(Snapshot(Idle, BeginReadValid, false, false, []), 1, false) ==
            Snapshot(Idle, BeginLock, false, false, [])
    ensures BeginStep(Snapshot(Idle, BeginLock, false, false, []), 1, false) ==
            Snapshot(Idle, BeginTestDepth, false, true, [])
    ensures BeginStep(Snapshot(Idle, BeginTestDepth, false, true, []), 1, false) ==
            Snapshot(Idle, BeginExec, false, true, [])
  {
  }

  lemma PublishingSteps(log: seq<Entry>)
    requires log == [Entry(1, Begin)]
    ensures BeginStep(Snapshot(Idle, BeginExec, false, true, []), 1, false) ==
            Snapshot(Idle, BeginSetValid, false, true, log)
    ensures BeginStep(Snapshot(Idle, BeginSetValid, false, true, log), 1, false) ==
            Snapshot(Idle, BeginSetOwner, true, true, log)
    ensures Go(Snapshot(Idle, BeginSetOwner, true, true, log), 0, BeginReadValid) ==
            Snapshot(BeginReadValid, BeginSetOwner, true, true, log)
    ensures BeginStep(Snapshot(BeginReadValid, BeginSetOwner, true, true, log), 0, false) ==
            Snapshot(BeginReadOwner, BeginSetOwner, true, true, log)
    ensures BeginStep(Snapshot(BeginReadOwner, BeginSetOwner, true, true, log), 0, false) ==
            Snapshot(NestReadDepth, BeginSetOwner, true, true, log)
  {
    assert [] + log == log;
  }

  /** With the flag written first, a thread whose id an old transaction left in `owner` passes the
      ownership test of a transaction that is not its own. */
  lemma FlagFirstIsUnsafe()
    ensures exists schedule: seq<Move> :: !OwnerOnly(Run(Init(2, 0), schedule, false))
  {
    hide Run, BeginStep, Init;
    var s0 := Init(2, 0);
    assert |s0.threads| == 2 by {
      RunNothing(s0);
      InitHasTwo();
    }
    var log := [Entry(1, Begin)];
    var schedule := Entered();
    PublishingSteps(log);
    BeginMove(s0, schedule, Snapshot(Idle, BeginExec, false, true, []), 1);
    schedule := schedule + [Move(1, Choice(CallBegin, false))];
    BeginMove(s0, schedule, Snapshot(Idle, BeginSetValid, false, true, log), 1);
    schedule := schedule + [Move(1, Choice(CallBegin, false))];
    BeginMove(s0, schedule, Snapshot(Idle, BeginSetOwner, true, true, log), 0);
    schedule := schedule + [Move(0, Choice(CallBegin, false))];
    BeginMove(s0, schedule, Snapshot(BeginReadValid, BeginSetOwner, true, true, log), 0);
    schedule := schedule + [Move(0, Choice(CallBegin, false))];
    BeginMove(s0, schedule, Snapshot(BeginReadOwner, BeginSetOwner, true, true, log), 0);
    schedule := schedule + [Move(0, Choice(CallBegin, false))];
    var last := Run(s0, schedule, false);
    assert last == Snapshot(NestReadDepth, BeginSetOwner, true, true, log);
    assert PastOwnerTest(last.threads[0].pc) && !last.threads[0].own;
    assert !OwnerOnly(last);
  }

  lemma InitHasTwo()
    ensures |Init(2, 0).threads| == 2
  {
  }
}
