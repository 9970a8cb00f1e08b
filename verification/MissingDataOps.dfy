/** The missing-data lists as they are kept: cursors, totals and windows in linked lists, and the list of
    missing points that a time series shows. */
module MissingDataOps {
  import opened MissingPoints
  import opened MissingData
  import KeyedList

  /** When a point of a series becomes overdue, and the time it should carry. */
  datatype Cursor = Cursor(deadline: int, expected: int)

  predicate Due(c: Cursor, now: int) {
    c.deadline > 0 && now >= c.deadline
  }

  class Monitor {
    const cursors: KeyedList.List<Cursor>
    const totals: KeyedList.List<int>
    const windows: KeyedList.List<Entry>

    ghost predicate Valid()
      reads this, cursors, cursors.cells, totals, totals.cells, windows, windows.cells
    {
      cursors.Valid() && totals.Valid() && windows.Valid()
    }

    constructor ()
      ensures Valid() && cursors.Map() == map[] && totals.Map() == map[] && windows.Map() == map[]
      ensures fresh(cursors) && fresh(totals) && fresh(windows)
    {
      cursors := new KeyedList.List();
      totals := new KeyedList.List();
      windows := new KeyedList.List();
    }

    /** ts_md_arm: the cell of the series is found, or made at the head, and written. */
    method Arm(ri: string, deadline: int, expected: int)
      requires Valid()
      modifies cursors, cursors.cells
      ensures Valid() && cursors.Map() == old(cursors.Map())[ri := Cursor(deadline, expected)]
      ensures forall i :: 0 <= i < |cursors.cells| ==> cursors.cells[i] in old(cursors.cells) || fresh(cursors.cells[i])
      ensures totals.Map() == old(totals.Map()) && windows.Map() == old(windows.Map())
    {
      hide KeyedList.Dictionary;
      var e;
      ghost var i;
      e, i := cursors.Find(ri);
      if e == null {
        cursors.Insert(ri, Cursor(deadline, expected));
      } else {
        cursors.Write(e, Cursor(deadline, expected), i);
      }
    }

    /** ts_md_disarm: the cursor and the total are unlinked; what subscriptions have accounted for stays. */
    method Disarm(ri: string, ghost s: State, ghost of: string -> string)
      requires Valid() && Represents(s)
      modifies cursors, cursors.cells, totals, totals.cells
      ensures Valid() && cursors.Map() == old(cursors.Map()) - {ri}
      ensures Represents(Next(s, Step.Disarm(ri), of))
      ensures forall c :: c in cursors.cells ==> c in old(cursors.cells)
      ensures forall c :: c in totals.cells ==> c in old(totals.cells)
    {
      hide KeyedList.Dictionary;
      cursors.Remove(ri);
      totals.Remove(ri);
    }

    /** ts_md_take_due: at most one overdue point, and the cursor moves on by one period. */
    method TakeDue(ri: string, now: int, pei: int) returns (due: bool, expected: int)
      requires Valid()
      modifies cursors, cursors.cells
      ensures Valid()
      ensures due <==> pei > 0 && ri in old(cursors.Map()) && Due(old(cursors.Map())[ri], now)
      ensures due ==> expected == old(cursors.Map())[ri].expected
      ensures cursors.cells == old(cursors.cells)
      ensures cursors.Map() ==
              if due then old(cursors.Map())[ri := Later(old(cursors.Map())[ri], pei, 1)] else old(cursors.Map())
      ensures totals.Map() == old(totals.Map()) && windows.Map() == old(windows.Map())
    {
      hide KeyedList.Dictionary;
      due, expected := false, 0;
      if pei <= 0 {
        return;
      }
      var e;
      ghost var i;
      e, i := cursors.Find(ri);
      if e != null && e.value.deadline > 0 && now >= e.value.deadline {
        expected := e.value.expected;
        cursors.Write(e, Cursor(e.value.deadline + pei, e.value.expected + pei), i);
        due := true;
      }
    }

    /** ts_add_missing_total */
    method AddMissingTotal(ri: string, n: int) returns (total: int)
      requires Valid() && n > 0
      modifies totals, totals.cells
      ensures Valid() && totals.Map() == old(totals.Map())[ri := total]
      ensures total == (if ri in old(totals.Map()) then old(totals.Map())[ri] else 0) + n
      ensures forall i :: 0 <= i < |totals.cells| ==> totals.cells[i] in old(totals.cells) || fresh(totals.cells[i])
      ensures cursors.Map() == old(cursors.Map()) && windows.Map() == old(windows.Map())
    {
      hide KeyedList.Dictionary;
      var e;
      ghost var i;
      e, i := totals.Find(ri);
      if e == null {
        total := n;
        totals.Insert(ri, total);
      } else {
        total := e.value + n;
        totals.Write(e, total, i);
      }
    }

    /** ts_get_missing_total */
    method GetMissingTotal(ri: string) returns (total: int)
      requires Valid()
      ensures total == if ri in totals.Map() then totals.Map()[ri] else 0
    {
      hide KeyedList.Dictionary;
      var e;
      ghost var i;
      e, i := totals.Find(ri);
      total := if e == null then 0 else e.value;
    }

    /** md_window_take */
    method WindowTake(sub: string, total: int, found: int, num: int, dur: int, now: int)
      returns (batch: int, before: int)
      requires Valid()
      modifies windows, windows.cells
      ensures Valid()
      ensures var e := if sub in old(windows.Map()) then old(windows.Map())[sub] else NewEntry;
              var t := Take(e, total, found, num, dur, now);
              && batch == t.batch && (batch > 0 ==> before == t.before)
              && windows.Map() == if num > 0 then old(windows.Map())[sub := t.entry] else old(windows.Map())
      ensures forall i :: 0 <= i < |windows.cells| ==> windows.cells[i] in old(windows.cells) || fresh(windows.cells[i])
      ensures cursors.Map() == old(cursors.Map()) && totals.Map() == old(totals.Map())
    {
      hide KeyedList.Dictionary;
      batch, before := 0, 0;
      if num <= 0 {
        return;
      }
      var cell;
      ghost var i;
      cell, i := windows.Find(sub);
      var e := if cell == null then NewEntry else cell.value;
      if e.window > 0 && dur > 0 && now - e.window > dur {
        var discarded := total - found - e.reported;
        if discarded > 0 {
          e := e.(reported := total - found);
        }
        e := e.(window := 0);
      }
      if e.window == 0 {
        e := e.(window := now);
      }
      var pending := total - e.reported;
      if pending >= num {
        before := e.reported;
        e := Entry(e.reported + num, 0);
        batch := num;
      }
      if cell == null {
        windows.Insert(sub, e);
      } else {
        windows.Write(cell, e, i);
      }
    }

    /** md_pending */
    method Pending(sub: string, total: int) returns (pending: int)
      requires Valid()
      ensures var reported := if sub in windows.Map() then windows.Map()[sub].reported else 0;
              pending == if total > reported then total - reported else 0
    {
      hide KeyedList.Dictionary;
      var e;
      ghost var i;
      e, i := windows.Find(sub);
      pending := total - (if e == null then 0 else e.value.reported);
      pending := if pending < 0 then 0 else pending;
    }

    /** md_forget */
    method Forget(sub: string)
      requires Valid()
      modifies windows, windows.cells
      ensures Valid() && windows.Map() == old(windows.Map()) - {sub}
      ensures forall c :: c in windows.cells ==> c in old(windows.cells)
      ensures cursors.Map() == old(cursors.Map()) && totals.Map() == old(totals.Map())
    {
      hide KeyedList.Dictionary;
      windows.Remove(sub);
    }

    /** ts_md_flush_sub, for a subscription on missing data: what is pending is sent, as far as mdlt has
        it, and the window is forgotten. */
    method FlushSub(series: string, sub: string, mdlt: seq<int>) returns (batch: seq<int>)
      requires Valid()
      modifies windows, windows.cells
      ensures Valid() && windows.Map() == old(windows.Map()) - {sub}
      ensures cursors.Map() == old(cursors.Map()) && totals.Map() == old(totals.Map())
      ensures batch == Flushed(mdlt, if series in totals.Map() then totals.Map()[series] else 0,
                               if sub in old(windows.Map()) then old(windows.Map())[sub].reported else 0)
    {
      hide KeyedList.Dictionary;
      var total := GetMissingTotal(series);
      var pending := Pending(sub, total);
      batch := [];
      if pending > 0 && |mdlt| > 0 {
        var length := if pending > |mdlt| then |mdlt| else pending;
        batch := mdlt[|mdlt| - length..];
      }
      Forget(sub);
    }

    /** The lists are those of a state of the protocol. */
    ghost predicate Represents(s: State)
      reads this, totals, windows
    {
      totals.Map() == s.totals && windows.Map() == s.entries
    }

    /** The step that adds to a total. */
    method DetectStep(series: string, found: int, ghost thread: nat, ghost s: State, ghost of: string -> string)
      returns (local: Local)
      requires Valid() && Represents(s)
      requires thread in s.carries && s.carries[thread] == Carry(series, if found > 0 then found else 1)
      modifies totals, totals.cells
      ensures Valid() && Represents(Next(s, Detect(thread), of))
      ensures Next(s, Detect(thread), of).locals[thread] == local
      ensures forall i :: 0 <= i < |totals.cells| ==> totals.cells[i] in old(totals.cells) || fresh(totals.cells[i])
    {
      hide KeyedList.Dictionary;
      var n := if found > 0 then found else 1;
      var total := AddMissingTotal(series, n);
      local := Local(series, total, n, {});
    }

    /** The step that visits a subscription, with the list of the series as it is now. */
    method VisitStep(local: Local, sub: string, mdlt: seq<int>, num: int, dur: int, now: int, ghost thread: nat,
                     ghost s: State, ghost of: string -> string) returns (notify: bool, sent: seq<int>)
      requires Valid() && Represents(s) && MayVisit(s, thread, sub, of) && s.locals[thread] == local
      requires mdlt == ListOf(s, local.series)
      modifies windows, windows.cells
      ensures Valid() && Represents(Next(s, Visit(thread, sub, num, dur, now), of))
      ensures ToldTo(Next(s, Visit(thread, sub, num, dur, now), of), sub) ==
              ToldTo(s, sub) + if notify then [sent] else []
      ensures forall i :: 0 <= i < |windows.cells| ==> windows.cells[i] in old(windows.cells) || fresh(windows.cells[i])
    {
      hide KeyedList.Dictionary, Take, Batch, Next;
      VisitEffect(s, thread, sub, num, dur, now, of);
      var batch, before := WindowTake(sub, local.total, local.found, num, dur, now);
      notify := batch > 0;
      sent := [];
      if notify {
        sent := LocateBatch(mdlt, local.total, before, num);
      }
    }
  }

  /** What the protocol's visit changes. */
  lemma VisitEffect(s: State, th: nat, sub: string, num: int, dur: int, now: int, of: string -> string)
    requires MayVisit(s, th, sub, of)
    ensures var s', l := Next(s, Visit(th, sub, num, dur, now), of), s.locals[th];
            var t := Take(EntryOf(s, sub), l.total, l.found, num, dur, now);
            && s'.totals == s.totals && s'.entries == (if num > 0 then s.entries[sub := t.entry] else s.entries)
            && ToldTo(s', sub) ==
               ToldTo(s, sub) + (if t.batch > 0 then [Batch(ListOf(s, l.series), l.total, t.before, num)] else [])
  {
    hide RunsOf, Batch;
  }

  // ----- deadlines

  function Later(c: Cursor, pei: int, k: int): Cursor {
    Cursor(c.deadline + k * pei, c.expected + k * pei)
  }

  /** How often a cursor is due before it has caught up with the clock. */
  function Overdue(c: Cursor, now: int, pei: int): nat
    requires pei > 0
  {
    if Due(c, now) then (now - c.deadline) / pei + 1 else 0
  }

  lemma QuotientBounds(a: int, b: int, k: int)
    requires b > 0 && a >= 0 && k >= 0
    ensures k * b <= a <==> k <= a / b
  {
    var q := a / b;
    assert a == q * b + a % b;
    if k <= q {
      assert (q - k) * b >= 0;
    } else {
      assert (k - q - 1) * b >= 0;
    }
  }

  /** Taking what is due, again and again, stops after that many times, and then the deadline is after
      the clock by at most a period. */
  lemma TakingStops(c: Cursor, now: int, pei: int, k: nat)
    requires pei > 0 && c.deadline > 0
    ensures Due(Later(c, pei, k), now) <==> k < Overdue(c, now, pei)
    ensures k == Overdue(c, now, pei) && k > 0 ==> now < Later(c, pei, k).deadline <= now + pei
  {
    assert k * pei >= 0;
    if now >= c.deadline {
      QuotientBounds(now - c.deadline, pei, k);
      if k > 0 {
        QuotientBounds(now - c.deadline, pei, k - 1);
        assert k * pei == (k - 1) * pei + pei;
      }
    }
  }

  // ----- mdlt

  /** The times k points after one arming should carry. */
  function Grid(expected: int, pei: int, k: nat): (g: seq<int>)
    ensures |g| == k
  {
    if k == 0 then [] else Grid(expected, pei, k - 1) + [expected + (k - 1) * pei]
  }

  lemma {:induction false} GridAt(expected: int, pei: int, k: nat, i: nat)
    requires i < k
    ensures Grid(expected, pei, k)[i] == expected + i * pei
  {
    if i < k - 1 {
      GridAt(expected, pei, k - 1, i);
    }
  }

  /** One more missing point goes on the list, the oldest ones off it; mdc is what is left. */
  method RecordMissing(mdlt: seq<int>, expected: int, mdn: int) returns (mdlt': seq<int>, mdc: int)
    ensures mdlt' == Newest(mdlt + [expected], mdn) && mdc == |mdlt'|
  {
    mdlt' := mdlt + [expected];
    if mdn > 0 {
      ghost var all := mdlt';
      ghost var gone := 0;
      while |mdlt'| > mdn
        invariant 0 <= gone <= |all| && mdlt' == all[gone..] && (gone == 0 || |mdlt'| >= mdn)
      {
        mdlt' := mdlt'[1..];
        gone := gone + 1;
      }
    }
    mdc := |mdlt'|;
  }

  /** A series is armed, and timeouts are found at the clock readings `nows`, from an empty list: the list
      holds the last mdn points of the grid, and the cursor stands where the next one is expected. */
  method Timeouts(m: Monitor, ri: string, deadline: int, e0: int, nows: seq<int>, pei: int, mdn: int)
    returns (mdlt: seq<int>, mdc: int)
    requires m.Valid() && pei > 0
    requires forall i :: 0 <= i < |nows| ==> Due(Later(Cursor(deadline, e0), pei, i), nows[i])
    modifies m.cursors, m.cursors.cells
    ensures m.Valid() && m.cursors.Map() == old(m.cursors.Map())[ri := Later(Cursor(deadline, e0), pei, |nows|)]
    ensures mdc == |mdlt| == if 0 < mdn < |nows| then mdn else |nows|
    ensures forall i :: 0 <= i < |mdlt| ==> mdlt[i] == e0 + (|nows| - |mdlt| + i) * pei
  {
    hide Later, Grid, Newest, KeyedList.Dictionary;
    ghost var c := Cursor(deadline, e0);
    NoTimeouts(c, pei, mdn);
    m.Arm(ri, deadline, e0);
    mdlt, mdc := TimeoutsOf(m, ri, nows, pei, mdn, c);
    NewestOfGrid(e0, pei, |nows|, mdn);
  }

  /** The timeouts of an armed series. */
  method TimeoutsOf(m: Monitor, ri: string, nows: seq<int>, pei: int, mdn: int, ghost c: Cursor)
    returns (mdlt: seq<int>, mdc: int)
    requires m.Valid() && pei > 0 && ri in m.cursors.Map() && m.cursors.Map()[ri] == c
    requires forall i :: 0 <= i < |nows| ==> Due(Later(c, pei, i), nows[i])
    modifies m.cursors, m.cursors.cells
    ensures m.Valid() && m.cursors.Map() == old(m.cursors.Map())[ri := Later(c, pei, |nows|)]
    ensures mdlt == Newest(Grid(c.expected, pei, |nows|), mdn) && mdc == |mdlt|
  {
    hide Later, Grid, Newest, KeyedList.Dictionary;
    NoTimeouts(c, pei, mdn);
    mdlt, mdc := [], 0;
    var i := 0;
    while i < |nows|
      invariant 0 <= i <= |nows| && mdlt == Newest(Grid(c.expected, pei, i), mdn) && mdc == |mdlt|
      invariant m.Valid() && ri in m.cursors.Map() && m.cursors.Map() == old(m.cursors.Map())[ri := Later(c, pei, i)]
      invariant m.cursors.cells == old(m.cursors.cells)
    {
      OneTimeout(c, pei, i, mdn);
      var due, expected := m.TakeDue(ri, nows[i], pei);
      mdlt, mdc := RecordMissing(mdlt, expected, mdn);
      i := i + 1;
    }
  }

  /** The list, entry by entry. */
  lemma NewestOfGrid(expected: int, pei: int, k: nat, mdn: int)
    ensures var mdlt := Newest(Grid(expected, pei, k), mdn);
            && |mdlt| == (if 0 < mdn < k then mdn else k)
            && forall i :: 0 <= i < |mdlt| ==> mdlt[i] == expected + (k - |mdlt| + i) * pei
  {
    var mdlt := Newest(Grid(expected, pei, k), mdn);
    hide Grid;
    forall i | 0 <= i < |mdlt|
      ensures mdlt[i] == expected + (k - |mdlt| + i) * pei
    {
      GridAt(expected, pei, k, k - |mdlt| + i);
    }
  }

  lemma NoTimeouts(c: Cursor, pei: int, mdn: int)
    ensures Later(c, pei, 0) == c && Newest(Grid(c.expected, pei, 0), mdn) == []
  {
  }

  lemma OneTimeout(c: Cursor, pei: int, i: nat, mdn: int)
    ensures Later(Later(c, pei, i), pei, 1) == Later(c, pei, i + 1)
    ensures Newest(Newest(Grid(c.expected, pei, i), mdn) + [Later(c, pei, i).expected], mdn) ==
            Newest(Grid(c.expected, pei, i + 1), mdn)
  {
    assert Grid(c.expected, pei, i + 1) == Grid(c.expected, pei, i) + [c.expected + i * pei];
    NewestOneMore(Grid(c.expected, pei, i), c.expected + i * pei, mdn);
  }

  // ----- which entries of mdlt a notification carries

  /** notify_missing_data finds the batch in mdlt. */
  method LocateBatch(mdlt: seq<int>, total: int, before: int, num: int) returns (batch: seq<int>)
    ensures batch == Batch(mdlt, total, before, num)
  {
    var start, length := |mdlt| - (total - before), num;
    if start < 0 {
      start := 0;
    }
    if start + length > |mdlt| {
      length := |mdlt| - start;
    }
    if length <= 0 {
      return [];
    }
    batch := [];
    var i := 0;
    while i < length
      invariant 0 <= i <= length && batch == mdlt[start..start + i]
    {
      batch := batch + [mdlt[start + i]];
      i := i + 1;
    }
  }

  /** When the list has dropped points that are pending, one can be sent twice: a subscription made after
      two points were lost, of a series that shows two, asks for two at a time. */
  lemma PointSentTwice()
    ensures var first := Take(NewEntry, 3, 1, 2, 0, 1);
            var second := Take(first.entry, 4, 1, 2, 0, 2);
            && first.batch == 2 && Batch([20, 30], 3, first.before, 2) == [20, 30]
            && second.batch == 2 && Batch([30, 40], 4, second.before, 2) == [30, 40]
  {
  }

  /** Points found one at a time leave fewer than `num` pending, and a batch is then the newest `num`
      points, which is what is sent exactly when mdlt may hold as many. */
  lemma NewestBatch(e: Entry, points: seq<int>, mdn: int, num: int, dur: int, now: int)
    requires points != [] && num > 0 && e.reported < |points| && |points| - 1 - e.reported < num && 0 <= e.reported
    ensures var total := |points|;
            var t := Take(e, total, 1, num, dur, now);
            && total - t.entry.reported < num && t.entry.reported <= total
            && (t.batch > 0 ==>
                  && t.before == total - num && total >= num
                  && (Batch(Newest(points, mdn), total, t.before, num) == points[total - num..] <==>
                      mdn <= 0 || mdn >= num))
  {
    hide Take, Batch, Newest;
    OneAtATime(e, |points|, num, dur, now);
    if |points| >= num {
      NewestSent(points, mdn, num);
    }
  }

  lemma OneAtATime(e: Entry, total: int, num: int, dur: int, now: int)
    requires num > 0 && e.reported < total && total - 1 - e.reported < num && 0 <= e.reported
    ensures var t := Take(e, total, 1, num, dur, now);
            && total - t.entry.reported < num && t.entry.reported <= total
            && (t.batch > 0 ==> t.before == total - num && total >= num)
  {
  }

  lemma NewestSent(points: seq<int>, mdn: int, num: int)
    requires 0 < num <= |points|
    ensures Batch(Newest(points, mdn), |points|, |points| - num, num) == points[|points| - num..] <==>
            mdn <= 0 || mdn >= num
  {
    var total, mdlt := |points|, Newest(points, mdn);
    if mdn <= 0 || mdn >= num {
      assert Batch(mdlt, total, total - num, num) == mdlt[|mdlt| - num..];
      assert mdlt[|mdlt| - num..] == points[total - num..];
    } else {
      assert |Batch(mdlt, total, total - num, num)| <= |mdlt| < num;
    }
  }

  /** A subscription made when a series has counted lost points already is told of those as soon as one
      more is lost, whenever that is. */
  lemma LateSubscription(done: int, num: int, dur: int, now: int)
    requires num > 0 && done >= 0
    ensures Take(NewEntry, done + 1, 1, num, dur, now).batch == num <==> done + 1 >= num
    ensures done + 1 >= num ==> Take(NewEntry, done + 1, 1, num, dur, now).before == 0
  {
  }
}
