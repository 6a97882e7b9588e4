/** What one tick of the clock notifies: every every-tick timer and every due timer once, and
    nothing else, whatever listeners do with other timers. */
module ClockTicks {
  import opened Callout
  import opened ClockMachine

  function Times(log: seq<nat>, x: nat): nat {
    if log == [] then 0 else Times(log[..|log| - 1], x) + if log[|log| - 1] == x then 1 else 0
  }

  lemma TimesAppend(log: seq<nat>, y: nat, x: nat)
    ensures Times(log + [y], x) == Times(log, x) + if x == y then 1 else 0
  {
    assert (log + [y])[..|log|] == log;
  }

  /** x stands in the list at or before cur. */
  predicate Reached(l: seq<nat>, x: nat, cur: nat) {
    l != [] && (l[0] == x || (l[0] != cur && Reached(l[1..], x, cur)))
  }

  lemma {:induction false} ReachedWithout(l: seq<nat>, x: nat, cur: nat, y: nat)
    requires NoDuplicates(l) && y != x && y != cur
    ensures Reached(Without(l, y), x, cur) == Reached(l, x, cur)
  {
    if l != [] { ReachedWithout(l[1..], x, cur, y); }
  }

  /** Moving on from cur reaches exactly the next entry more, or has reached all of them. */
  lemma {:induction false} ReachedNext(l: seq<nat>, x: nat, cur: nat)
    requires NoDuplicates(l) && cur in l
    ensures var next := After(l, cur);
      && (next.Some? ==> (Reached(l, x, next.value) <==> Reached(l, x, cur) || x == next.value))
      && (next.Some? ==> !Reached(l, next.value, cur))
      && (next.None? && x in l ==> Reached(l, x, cur))
  {
    if l[0] != cur {
      ReachedNext(l[1..], x, cur);
      AfterIsListed(l[1..], cur);
    } else if |l| > 1 {
      assert l[1] in l[1..];
    }
  }

  /** Where an expired timer goes: nowhere, to the every-tick list, or back with its period. */
  ghost predicate Requeued(s: State, x: nat) {
    var r := ReloadOf(s, x);
    && (r == 0 ==> !Listed(s, x))
    && (r == 1 ==> x in s.everytime)
    && (r > 1 ==> Has(s.callout, x) && Remaining(s.callout, x) == r)
  }

  function Notices(s0: State, s: State, x: nat): int {
    Times(s.log, x) - Times(s0.log, x)
  }

  ghost predicate OnTrackSync(s0: State, s: State, x: nat) {
    && x in s.everytime
    && (s.phase.AtSync? && !Reached(s.everytime, x, s.phase.cur) ==> Notices(s0, s, x) == 0)
    && (s.phase.AtSync? && Reached(s.everytime, x, s.phase.cur) ==> Notices(s0, s, x) == 1)
    && (!s.phase.AtSync? ==> Notices(s0, s, x) == 1)
  }

  ghost predicate OnTrackLater(s0: State, s: State, x: nat, r: nat) {
    && Has(s.callout, x) && Notices(s0, s, x) == 0
    && (s.phase.AtSync? || s.phase.Counting? ==> Remaining(s.callout, x) == r)
    && (!s.phase.AtSync? && !s.phase.Counting? ==> Remaining(s.callout, x) == r - 1)
  }

  ghost predicate OnTrackDue(s0: State, s: State, x: nat) {
    || (s.phase.AtSync? && Pending(s0, s, x) && Remaining(s.callout, x) <= 1)
    || (s.phase.Counting? && Pending(s0, s, x) && Remaining(s.callout, x) <= 1)
    || ((s.phase.Expiring? || s.phase.Notified?) && Pending(s0, s, x) && Remaining(s.callout, x) == 0)
    || (!s.phase.AtSync? && !s.phase.Counting? && Notices(s0, s, x) == 1 && (s.phase == Notified(x) || Requeued(s, x)))
  }

  ghost predicate Pending(s0: State, s: State, x: nat) {
    Has(s.callout, x) && Notices(s0, s, x) == 0
  }

  /** How a timer fares in a tick that began in s0. */
  ghost predicate OnTrack(s0: State, s: State, x: nat) {
    && ReloadOf(s, x) == ReloadOf(s0, x)
    && (x in s0.everytime ==> OnTrackSync(s0, s, x))
    && (Has(s0.callout, x) && Remaining(s0.callout, x) > 1 ==> OnTrackLater(s0, s, x, Remaining(s0.callout, x)))
    && (Has(s0.callout, x) && Remaining(s0.callout, x) <= 1 ==> OnTrackDue(s0, s, x))
    && (!Listed(s0, x) ==> !Listed(s, x) && Notices(s0, s, x) == 0 && s.phase != Notified(x))
  }

  lemma TrackStart(s0: State, s: State, x: nat)
    requires Inv(s0) && Next(s0, TickStart, s)
    ensures OnTrack(s0, s, x)
  {
    if s0.everytime != [] { TimesAppend(s0.log, s0.everytime[0], x); }
  }

  lemma TrackSyncNext(s0: State, s: State, t: State, x: nat)
    requires Inv(s0) && Inv(s) && Next(s, SyncNext, t) && OnTrack(s0, s, x)
    ensures OnTrack(s0, t, x)
  {
    var l, cur := s.everytime, s.phase.cur;
    ReachedNext(l, x, cur);
    AfterIsListed(l, cur);
    if After(l, cur).Some? { TimesAppend(s.log, After(l, cur).value, x); }
  }

  lemma TrackCount(s0: State, s: State, t: State, x: nat)
    requires Inv(s0) && Inv(s) && Next(s, Count, t) && OnTrack(s0, s, x)
    ensures OnTrack(s0, t, x)
  {
    CountDownMeans(s.callout, x);
  }

  lemma TrackPop(s0: State, s: State, t: State, x: nat)
    requires Inv(s0) && Inv(s) && Next(s, Pop, t) && OnTrack(s0, s, x)
    ensures OnTrack(s0, t, x)
  {
    TimesAppend(s.log, s.callout[0].id, x);
  }

  lemma TrackReload(s0: State, s: State, t: State, x: nat)
    requires Inv(s0) && Inv(s) && Next(s, Reload, t) && OnTrack(s0, s, x)
    ensures OnTrack(s0, t, x)
  {
    var cur := s.phase.cur;
    if ReloadOf(s, cur) > 1 { InsertMeans(s.callout, cur, ReloadOf(s, cur), x); }
  }

  lemma TrackEnd(s0: State, s: State, t: State, x: nat)
    requires Inv(s0) && Inv(s) && Next(s, EndTick, t) && OnTrack(s0, s, x)
    ensures OnTrack(s0, t, x)
  {
    NoneDue(s.callout, x);
  }

  lemma TrackDisarm(s0: State, s: State, t: State, x: nat, id: nat)
    requires Inv(s0) && Inv(s) && Next(s, Disarm(id), t) && OnTrack(s0, s, x) && id != x && !s.phase.Idle?
    ensures OnTrack(s0, t, x)
  {
    DeleteMeans(s.callout, id, x);
    WithoutMeans(s.everytime, id);
    if s.phase.AtSync? { ReachedWithout(s.everytime, x, s.phase.cur, id); }
  }

  lemma TrackPut(s0: State, s: State, t: State, x: nat, id: nat, left: int, reload: int)
    requires Inv(s0) && Inv(s) && Next(s, Put(id, left, reload), t) && OnTrack(s0, s, x) && id != x && !s.phase.Idle?
    ensures OnTrack(s0, t, x)
  {
    if left == 1 && left == reload {
      assert t.everytime[1..] == s.everytime;
    } else {
      InsertMeans(s.callout, id, left, x);
    }
  }

  lemma TrackNext(s0: State, s: State, a: Act, t: State, x: nat)
    requires Inv(s0) && Inv(s) && Next(s, a, t) && OnTrack(s0, s, x) && !s.phase.Idle? && !Touches(a, x)
    ensures OnTrack(s0, t, x)
  {
    match a
    case TickStart =>
    case SyncNext => TrackSyncNext(s0, s, t, x);
    case Count => TrackCount(s0, s, t, x);
    case Pop => TrackPop(s0, s, t, x);
    case Reload => TrackReload(s0, s, t, x);
    case EndTick => TrackEnd(s0, s, t, x);
    case Disarm(id) => TrackDisarm(s0, s, t, x, id);
    case Put(id, left, reload) => TrackPut(s0, s, t, x, id, left, reload);
  }

  /** Steps i to j - 1 lie in one tick that starts with step i and do not touch x. */
  ghost predicate WithinTick(ss: seq<State>, acts: seq<Act>, i: nat, j: nat, x: nat) {
    && Run(ss, acts) && i < j <= |acts| && acts[i].TickStart?
    && (forall k: nat :: i < k < j ==> Midway(ss[k], acts[k], x))
  }

  predicate Midway(s: State, a: Act, x: nat) {
    !s.phase.Idle? && !Touches(a, x)
  }

  lemma {:induction false} TrackedThroughout(ss: seq<State>, acts: seq<Act>, i: nat, j: nat, x: nat)
    requires WithinTick(ss, acts, i, j, x)
    ensures OnTrack(ss[i], ss[j], x)
    decreases j
  {
    InvAlways(ss, acts, i);
    assert Next(ss[j - 1], acts[j - 1], ss[j]);
    if j == i + 1 {
      TrackStart(ss[i], ss[j], x);
    } else {
      TrackedThroughout(ss, acts, i, j - 1, x);
      InvAlways(ss, acts, j - 1);
      TrackNext(ss[i], ss[j - 1], acts[j - 1], ss[j], x);
    }
  }

  /** A finished tick has notified each every-tick timer and each timer with at most one tick left
      exactly once, and no other. A due timer with a period of one moves to the every-tick list, one
      with a longer period waits that long again, and every other timer has one tick less. */
  ghost predicate TickEffect(s: State, t: State, x: nat) {
    && (x in s.everytime ==> Notices(s, t, x) == 1 && x in t.everytime)
    && (Has(s.callout, x) && Remaining(s.callout, x) <= 1 ==>
          Notices(s, t, x) == 1 && Requeued(t, x) && ReloadOf(t, x) == ReloadOf(s, x))
    && (Has(s.callout, x) && Remaining(s.callout, x) > 1 ==>
          Notices(s, t, x) == 0 && Has(t.callout, x) && Remaining(t.callout, x) == Remaining(s.callout, x) - 1)
    && (!Listed(s, x) ==> Notices(s, t, x) == 0 && !Listed(t, x))
  }

  lemma TickNotifiesExactly(ss: seq<State>, acts: seq<Act>, i: nat, j: nat, x: nat)
    requires WithinTick(ss, acts, i, j, x) && ss[j].phase.Idle?
    ensures TickEffect(ss[i], ss[j], x)
  {
    TrackedThroughout(ss, acts, i, j, x);
  }
}
