/** The cadence of a timer over whole runs: when it is notified after it was armed, and how often,
    whatever is done with other timers meanwhile. */
module ClockPeriods {
  import opened Callout
  import opened ClockMachine
  import opened ClockTicks

  /** The count at which a timer is due for the (c + 1)-st time. */
  function Due(first: int, period: int, c: nat): int {
    if c == 0 then first else Due(first, period, c - 1) + period
  }

  lemma {:induction false} DueIs(first: int, period: int, c: nat)
    ensures Due(first, period, c) == first + c * period
  {
    if c > 0 { DueIs(first, period, c - 1); }
  }

  /** The counts since s0. */
  function Elapsed(s0: State, s: State): int {
    s.passes - s0.passes
  }

  /** The timer is queued for its next due count. A timer armed for no ticks before a count is due in
      that count although no ticks remain. */
  ghost predicate Queued(s: State, x: nat, togo: int) {
    && Has(s.callout, x)
    && (Remaining(s.callout, x) == togo || (Quiet(s.phase) && Remaining(s.callout, x) == 0 && togo == 1))
    && (Quiet(s.phase) ==> togo > 0)
  }

  /** The timer is on the every-tick list and was notified for its nth count last; that count is still to
      come if the tick has only notified it. */
  ghost predicate Ticking(s: State, x: nat, elapsed: int, nth: int) {
    && x in s.everytime
    && (s.phase.AtSync? && !Reached(s.everytime, x, s.phase.cur) ==> elapsed == nth)
    && (s.phase.AtSync? && Reached(s.everytime, x, s.phase.cur) ==> elapsed == nth - 1)
    && (s.phase.Counting? ==> elapsed == nth - 1)
    && (!s.phase.AtSync? && !s.phase.Counting? ==> elapsed == nth)
  }

  /** How a timer with a first due count and a period stands after c notifications. */
  ghost predicate OnSchedule(s0: State, s: State, x: nat, first: int, r: int, c: nat) {
    && ReloadOf(s, x) == r >= 0 && Notices(s0, s, x) == c
    && (|| (Queued(s, x, Due(first, r, c) - Elapsed(s0, s))
            && (c > 0 ==> r > 1 && Due(first, r, c - 1) <= Elapsed(s0, s)))
        || (s.phase == Notified(x) && c > 0 && Elapsed(s0, s) == Due(first, r, c - 1) && (r <= 1 ==> c == 1))
        || (r == 1 && Ticking(s, x, Elapsed(s0, s), first + c - 1))
        || (r == 0 && c == 1 && !Listed(s, x) && s.phase != Notified(x) && Elapsed(s0, s) >= first))
  }

  lemma TickingSync(s: State, a: Act, t: State, x: nat, elapsed: int, nth: int)
    requires Inv(s) && Next(s, a, t) && Ticking(s, x, elapsed, nth) && (a.TickStart? || a.SyncNext?)
    ensures Ticking(t, x, elapsed, if t.phase == AtSync(x) then nth + 1 else nth)
  {
    if a.SyncNext? { ReachedNext(s.everytime, x, s.phase.cur); }
  }

  lemma SyncNotices(s0: State, s: State, a: Act, t: State, x: nat)
    requires Inv(s) && Next(s, a, t) && (a.TickStart? || a.SyncNext?)
    ensures Notices(s0, t, x) == Notices(s0, s, x) + if t.phase == AtSync(x) then 1 else 0
    ensures t.phase == AtSync(x) ==> x in s.everytime
    ensures t == s.(log := t.log, phase := t.phase) && Quiet(s.phase) && Quiet(t.phase)
  {
    if t.phase.AtSync? { TimesAppend(s.log, t.phase.cur, x); }
    if a.SyncNext? { AfterIsListed(s.everytime, s.phase.cur); }
  }

  lemma SyncPasses(s0: State, s: State, t: State, x: nat, first: int, r: int, c: nat)
    requires OnSchedule(s0, s, x, first, r, c) && x !in s.everytime && Notices(s0, t, x) == c
    requires t == s.(log := t.log, phase := t.phase) && Quiet(s.phase) && Quiet(t.phase)
    ensures OnSchedule(s0, t, x, first, r, c)
  {
  }

  lemma ScheduleSync(s0: State, s: State, a: Act, t: State, x: nat, first: int, r: int, c: nat) returns (c': nat)
    requires Inv(s) && Next(s, a, t) && OnSchedule(s0, s, x, first, r, c) && (a.TickStart? || a.SyncNext?)
    ensures OnSchedule(s0, t, x, first, r, c')
  {
    SyncNotices(s0, s, a, t, x);
    c' := if t.phase == AtSync(x) then c + 1 else c;
    if x in s.everytime {
      TickingSync(s, a, t, x, Elapsed(s0, s), first + c - 1);
      assert Ticking(t, x, Elapsed(s0, t), first + c' - 1);
    } else {
      SyncPasses(s0, s, t, x, first, r, c);
    }
  }

  lemma ScheduleCount(s0: State, s: State, t: State, x: nat, first: int, r: int, c: nat)
    requires Inv(s) && Next(s, Count, t) && OnSchedule(s0, s, x, first, r, c)
    ensures OnSchedule(s0, t, x, first, r, c)
  {
    CountDownMeans(s.callout, x);
  }

  /** Its own expiry. */
  lemma PopOwn(s0: State, s: State, t: State, x: nat, first: int, r: int, c: nat)
    requires Inv(s) && Next(s, Pop, t) && OnSchedule(s0, s, x, first, r, c) && s.callout[0].id == x
    ensures OnSchedule(s0, t, x, first, r, c + 1) && Elapsed(s0, s) == Due(first, r, c)
  {
    TimesAppend(s.log, x, x);
    assert Remaining(s.callout, x) == 0;
    assert Elapsed(s0, t) == Elapsed(s0, s) == Due(first, r, c);
    assert Notices(s0, t, x) == c + 1 && t.phase == Notified(x);
  }

  /** After the count a state with the same data is on the same schedule. */
  lemma SameStanding(s0: State, s: State, t: State, x: nat, first: int, r: int, c: nat)
    requires OnSchedule(s0, s, x, first, r, c) && s.phase.Expiring? && t.phase.Notified? && t.phase.cur != x
    requires t.everytime == s.everytime && t.reload == s.reload && t.passes == s.passes && Notices(s0, t, x) == c
    requires (Has(t.callout, x) <==> Has(s.callout, x))
    requires Has(s.callout, x) ==> Remaining(t.callout, x) == Remaining(s.callout, x)
    ensures OnSchedule(s0, t, x, first, r, c)
  {
    assert Elapsed(s0, t) == Elapsed(s0, s);
    assert ReloadOf(t, x) == ReloadOf(s, x);
  }

  lemma PopKeepsOther(q: seq<Slot>, x: nat)
    requires q != [] && q[0].left <= 0 && q[0].id != x
    ensures Has(q[1..], x) <==> Has(q, x)
    ensures Has(q, x) ==> Remaining(q[1..], x) == Remaining(q, x)
  {
  }

  /** The expiry of another timer. */
  lemma PopOther(s0: State, s: State, t: State, x: nat, first: int, r: int, c: nat)
    requires Inv(s) && Next(s, Pop, t) && OnSchedule(s0, s, x, first, r, c) && s.callout[0].id != x
    ensures OnSchedule(s0, t, x, first, r, c)
  {
    TimesAppend(s.log, s.callout[0].id, x);
    PopKeepsOther(s.callout, x);
    assert t.callout == s.callout[1..];
    SameStanding(s0, s, t, x, first, r, c);
  }

  lemma ScheduleReload(s0: State, s: State, t: State, x: nat, first: int, r: int, c: nat)
    requires Inv(s) && Next(s, Reload, t) && OnSchedule(s0, s, x, first, r, c)
    ensures OnSchedule(s0, t, x, first, r, c)
  {
    var cur := s.phase.cur;
    if ReloadOf(s, cur) > 1 { InsertMeans(s.callout, cur, ReloadOf(s, cur), x); }
  }

  lemma ScheduleEnd(s0: State, s: State, t: State, x: nat, first: int, r: int, c: nat)
    requires Inv(s) && Next(s, EndTick, t) && OnSchedule(s0, s, x, first, r, c)
    ensures OnSchedule(s0, t, x, first, r, c)
  {
    NoneDue(s.callout, x);
  }

  lemma ScheduleDisarm(s0: State, s: State, t: State, x: nat, id: nat, first: int, r: int, c: nat)
    requires Inv(s) && Next(s, Disarm(id), t) && OnSchedule(s0, s, x, first, r, c) && id != x
    ensures OnSchedule(s0, t, x, first, r, c)
  {
    DeleteMeans(s.callout, id, x);
    WithoutMeans(s.everytime, id);
    if s.phase.AtSync? { ReachedWithout(s.everytime, x, s.phase.cur, id); }
  }

  lemma SchedulePut(s0: State, s: State, t: State, x: nat, a: Act, first: int, r: int, c: nat)
    requires Inv(s) && a.Put? && Next(s, a, t) && OnSchedule(s0, s, x, first, r, c) && a.id != x
    ensures OnSchedule(s0, t, x, first, r, c)
  {
    assert ReloadOf(t, x) == ReloadOf(s, x);
    if a.left == 1 && a.left == a.reload {
      assert t.everytime[1..] == s.everytime;
    } else {
      InsertMeans(s.callout, a.id, a.left, x);
      assert t.everytime == s.everytime;
    }
  }

  /** Every step that does not touch the timer keeps it on schedule. */
  lemma ScheduleNext(s0: State, s: State, a: Act, t: State, x: nat, first: int, r: int, c: nat) returns (c': nat)
    requires Inv(s) && Next(s, a, t) && OnSchedule(s0, s, x, first, r, c) && !Touches(a, x)
    ensures OnSchedule(s0, t, x, first, r, c')
    ensures Expires(s, a, x) ==> Elapsed(s0, s) == Due(first, r, c)
  {
    c' := c;
    match a
    case TickStart => c' := ScheduleSync(s0, s, a, t, x, first, r, c);
    case SyncNext => c' := ScheduleSync(s0, s, a, t, x, first, r, c);
    case Count => ScheduleCount(s0, s, t, x, first, r, c);
    case Pop =>
      if s.callout[0].id == x {
        PopOwn(s0, s, t, x, first, r, c);
        c' := c + 1;
      } else {
        PopOther(s0, s, t, x, first, r, c);
      }
    case Reload => ScheduleReload(s0, s, t, x, first, r, c);
    case EndTick => ScheduleEnd(s0, s, t, x, first, r, c);
    case Disarm(id) => ScheduleDisarm(s0, s, t, x, id, first, r, c);
    case Put(id, left, reload) => SchedulePut(s0, s, t, x, a, first, r, c);
  }

  /** The count in which a timer that is armed for n ticks in state s is first due. No ticks mean the
      next count, or none if a tick is past its count. A timer for every tick that a listener of an
      every-tick timer arms is passed over by the tick it is armed in. */
  function FirstDue(s: State, n: int, reload: int): int {
    if n == 0 then if Quiet(s.phase) then 1 else 0
    else if n == 1 && reload == 1 && s.phase.AtSync? then 2
    else n
  }

  /** The timer is armed in step i and not set or removed again before state j. */
  ghost predicate PutAt(ss: seq<State>, acts: seq<Act>, i: nat, j: nat, x: nat, n: int, reload: int) {
    && Run(ss, acts) && i < j <= |acts| && acts[i] == Put(x, n, reload)
    && (forall k: nat {:trigger acts[k]} :: i < k < j ==> !Touches(acts[k], x))
  }

  lemma ScheduleStart(s: State, t: State, x: nat, n: int, reload: int)
    requires Inv(s) && Next(s, Put(x, n, reload), t)
    ensures OnSchedule(s, t, x, FirstDue(s, n, reload), reload, 0)
  {
    if n != 1 || reload != 1 { InsertMeans(s.callout, x, n, x); }
  }

  lemma {:induction false} ScheduleKept(ss: seq<State>, acts: seq<Act>, i: nat, j: nat, x: nat, n: int, reload: int)
    returns (c: nat)
    requires PutAt(ss, acts, i, j, x, n, reload)
    ensures OnSchedule(ss[i], ss[j], x, FirstDue(ss[i], n, reload), reload, c)
    decreases j
  {
    InvAlways(ss, acts, j - 1);
    assert Next(ss[j - 1], acts[j - 1], ss[j]);
    if j == i + 1 {
      c := 0;
      ScheduleStart(ss[i], ss[j], x, n, reload);
    } else {
      c := ScheduleKept(ss, acts, i, j - 1, x, n, reload);
      c := ScheduleNext(ss[i], ss[j - 1], acts[j - 1], ss[j], x, FirstDue(ss[i], n, reload), reload, c);
    }
  }

  /** c notifications of a timer that is first due in count `first` are right after `elapsed` counts. */
  ghost predicate RightCount(elapsed: int, first: int, reload: int, c: int) {
    && (c == 0 ==> elapsed < first)
    && (c > 0 && reload > 0 ==> first + (c - 1) * reload <= elapsed < first + c * reload)
    && (c > 0 && reload == 0 ==> c == 1 && first <= elapsed)
  }

  /** A timer keeps its cadence for as long as it is not set or removed, whatever is done with other
      timers: an expiry with c notifications before it happens in count first + c * reload, and
      between ticks the number of notifications is what the elapsed counts call for. */
  lemma Cadence(ss: seq<State>, acts: seq<Act>, i: nat, j: nat, x: nat, n: int, reload: int)
    requires PutAt(ss, acts, i, j, x, n, reload)
    ensures Notices(ss[i], ss[j], x) >= 0
    ensures var first, c, elapsed := FirstDue(ss[i], n, reload), Notices(ss[i], ss[j], x), Elapsed(ss[i], ss[j]);
      && (j < |acts| && Expires(ss[j], acts[j], x) ==> elapsed == first + c * reload)
      && (ss[j].phase.Idle? ==> RightCount(elapsed, first, reload, c))
  {
    var c := ScheduleKept(ss, acts, i, j, x, n, reload);
    var first := FirstDue(ss[i], n, reload);
    InvAlways(ss, acts, j);
    DueIs(first, reload, c);
    if c > 0 { DueIs(first, reload, c - 1); }
    if j < |acts| && Expires(ss[j], acts[j], x) {
      assert Next(ss[j], acts[j], ss[j + 1]);
      var c' := ScheduleNext(ss[i], ss[j], acts[j], ss[j + 1], x, first, reload, c);
    }
  }

  /** A timer on the every-tick list stays there until it is set or removed. */
  lemma {:induction false} StaysSynchronous(ss: seq<State>, acts: seq<Act>, i: nat, j: nat, x: nat)
    requires Run(ss, acts) && i <= j <= |acts| && x in ss[i].everytime
    requires forall k: nat {:trigger acts[k]} :: i <= k < j ==> !Touches(acts[k], x)
    ensures x in ss[j].everytime
    decreases j
  {
    if i < j {
      StaysSynchronous(ss, acts, i, j - 1, x);
      InvAlways(ss, acts, j - 1);
      assert Next(ss[j - 1], acts[j - 1], ss[j]);
      if acts[j - 1].Disarm? { WithoutMeans(ss[j - 1].everytime, acts[j - 1].id); }
    }
  }

  /** A timer armed for every tick is notified exactly once in every tick that starts after it was
      armed, until it is set or removed. */
  lemma EveryTickNotifies(ss: seq<State>, acts: seq<Act>, h: nat, i: nat, j: nat, x: nat)
    requires PutAt(ss, acts, h, j, x, 1, 1) && h < i && WithinTick(ss, acts, i, j, x) && ss[j].phase.Idle?
    ensures Notices(ss[i], ss[j], x) == 1 && x in ss[j].everytime
  {
    assert Next(ss[h], acts[h], ss[h + 1]);
    StaysSynchronous(ss, acts, h + 1, i, x);
    TickNotifiesExactly(ss, acts, i, j, x);
  }
}
