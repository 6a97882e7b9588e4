/** The clock of dev/clock.c as a state machine. A tick is taken apart into the steps between which
    listeners run, so that a run interleaves the tick handler with timers being set and removed. */
module ClockMachine {
  import opened Common
  import opened Callout

  /** Where the tick handler is. `AtSync` and `Notified` are the points at which a listener runs:
      after the notification of an every-tick timer and of an expired one. */
  datatype Phase = Idle | AtSync(cur: nat) | Counting | Expiring | Notified(cur: nat)

  /** passes counts the decrements of the callout queue; log lists the notifications. */
  datatype State = State(callout: seq<Slot>, everytime: seq<nat>, reload: map<nat, int>, phase: Phase, passes: nat,
                         log: seq<nat>)

  datatype Act =
    | TickStart | SyncNext | Count | Pop | Reload | EndTick
    | Disarm(id: nat) | Put(id: nat, left: int, reload: int)

  const INITIAL := State([], [], map[], Idle, 0, [])

  function ReloadOf(s: State, id: nat): int {
    if id in s.reload then s.reload[id] else 0
  }

  predicate Listed(s: State, id: nat) {
    Has(s.callout, id) || id in s.everytime
  }

  /** Who may set or remove a timer: outside code between ticks, a listener during one, but no
      listener its own timer. */
  predicate Settable(s: State, id: nat) {
    s.phase.Idle? || ((s.phase.AtSync? || s.phase.Notified?) && s.phase.cur != id)
  }

  /** The every-tick list without a timer. */
  function Without(l: seq<nat>, id: nat): seq<nat> {
    if l == [] then [] else if l[0] == id then l[1..] else [l[0]] + Without(l[1..], id)
  }

  /** The entry after cur. */
  function After(l: seq<nat>, cur: nat): Option<nat> {
    if l == [] then None
    else if l[0] != cur then After(l[1..], cur)
    else if |l| > 1 then Some(l[1]) else None
  }

  function Synchronous(s: State, id: nat): State {
    s.(everytime := [id] + s.everytime)
  }

  function Oneshot(s: State, id: nat, ticks: int): State {
    s.(callout := Insert(s.callout, id, ticks))
  }

  function Notify(s: State, id: nat, phase: Phase): State {
    s.(log := s.log + [id], phase := phase)
  }

  function Disarmed(s: State, id: nat): State {
    if Has(s.callout, id) then s.(callout := Delete(s.callout, id)) else s.(everytime := Without(s.everytime, id))
  }

  function Armed(s: State, id: nat, left: int, reload: int): State {
    var t := s.(reload := s.reload[id := reload]);
    if left == 1 && left == reload then Synchronous(t, id) else Oneshot(t, id, left)
  }

  function Reloaded(s: State, id: nat): State {
    if ReloadOf(s, id) == 0 then s
    else if ReloadOf(s, id) == 1 then Synchronous(s, id)
    else Oneshot(s, id, ReloadOf(s, id))
  }

  ghost predicate Next(s: State, a: Act, t: State) {
    match a
    case TickStart =>
      && s.phase.Idle?
      && (s.everytime == [] ==> t == s.(phase := Counting))
      && (s.everytime != [] ==> t == Notify(s, s.everytime[0], AtSync(s.everytime[0])))
    case SyncNext =>
      && s.phase.AtSync?
      && var next := After(s.everytime, s.phase.cur);
      && (next.None? ==> t == s.(phase := Counting))
      && (next.Some? ==> t == Notify(s, next.value, AtSync(next.value)))
    case Count =>
      s.phase.Counting? && t == s.(callout := CountDown(s.callout), passes := s.passes + 1, phase := Expiring)
    case Pop =>
      && s.phase.Expiring? && s.callout != [] && s.callout[0].left <= 0
      && t == Notify(s.(callout := s.callout[1..]), s.callout[0].id, Notified(s.callout[0].id))
    case Reload => s.phase.Notified? && t == Reloaded(s, s.phase.cur).(phase := Expiring)
    case EndTick => s.phase.Expiring? && (s.callout == [] || s.callout[0].left > 0) && t == s.(phase := Idle)
    case Disarm(id) => Settable(s, id) && t == Disarmed(s, id)
    case Put(id, left, reload) =>
      && Settable(s, id) && !Listed(s, id) && left >= 0 && reload >= 0 && (left > 0 || reload > 0)
      && t == Armed(s, id, left, reload)
  }

  ghost predicate NoDuplicates(l: seq<nat>) {
    l == [] || (l[0] !in l[1..] && NoDuplicates(l[1..]))
  }

  /** No decrement is pending: every queued timer has its remaining ticks ahead of it. */
  predicate Quiet(p: Phase) {
    !p.Expiring? && !p.Notified?
  }

  ghost predicate Inv(s: State) {
    && OverdueFirst(s.callout) && Unique(s.callout) && NoDuplicates(s.everytime)
    && (forall x :: x in s.everytime ==> !Has(s.callout, x))
    && (Quiet(s.phase) ==> NonNegative(s.callout))
    && (s.phase.AtSync? ==> s.phase.cur in s.everytime)
    && (s.phase.Notified? ==> !Listed(s, s.phase.cur))
    && (forall x :: x in s.reload ==> s.reload[x] >= 0)
  }

  lemma {:induction false} WithoutMeans(l: seq<nat>, id: nat)
    requires NoDuplicates(l)
    ensures NoDuplicates(Without(l, id))
    ensures forall x :: x in Without(l, id) <==> x in l && x != id
  {
    if l != [] { WithoutMeans(l[1..], id); }
  }

  lemma {:induction false} AfterIsListed(l: seq<nat>, cur: nat)
    ensures After(l, cur).Some? ==> After(l, cur).value in l
  {
    if l != [] { AfterIsListed(l[1..], cur); }
  }

  lemma InvSynchronous(s: State, id: nat)
    requires Inv(s) && !Listed(s, id) && (s.phase.Notified? ==> s.phase.cur != id)
    ensures Inv(Synchronous(s, id))
  {
    assert Synchronous(s, id).everytime[1..] == s.everytime;
  }

  lemma InvOneshot(s: State, id: nat, ticks: int)
    requires Inv(s) && !Listed(s, id) && (s.phase.Notified? ==> s.phase.cur != id) && ticks >= 0
    ensures Inv(Oneshot(s, id, ticks))
  {
    InsertUnique(s.callout, id, ticks);
    InsertMeans(s.callout, id, ticks, id);
    if s.phase.Notified? { InsertMeans(s.callout, id, ticks, s.phase.cur); }
    forall x | x in s.everytime ensures !Has(Oneshot(s, id, ticks).callout, x) { InsertMeans(s.callout, id, ticks, x); }
  }

  lemma InvDisarmed(s: State, id: nat)
    requires Inv(s) && Settable(s, id)
    ensures Inv(Disarmed(s, id))
    ensures !Listed(Disarmed(s, id), id)
  {
    WithoutMeans(s.everytime, id);
    DeleteUnique(s.callout, id);
    DeleteMeans(s.callout, id, id);
    forall x ensures Has(Delete(s.callout, id), x) <==> x != id && Has(s.callout, x) { DeleteMeans(s.callout, id, x); }
  }

  lemma InvArmed(s: State, id: nat, left: int, reload: int)
    requires Inv(s) && Settable(s, id) && !Listed(s, id) && left >= 0 && reload >= 0
    ensures Inv(Armed(s, id, left, reload))
  {
    var t := s.(reload := s.reload[id := reload]);
    if left == 1 && left == reload { InvSynchronous(t, id); } else { InvOneshot(t, id, left); }
  }

  lemma InvReloaded(s: State)
    requires Inv(s) && s.phase.Notified?
    ensures Inv(Reloaded(s, s.phase.cur).(phase := Expiring))
  {
    var t := s.(phase := Expiring);
    if ReloadOf(s, s.phase.cur) == 1 { InvSynchronous(t, s.phase.cur); }
    if ReloadOf(s, s.phase.cur) > 1 { InvOneshot(t, s.phase.cur, ReloadOf(s, s.phase.cur)); }
  }

  lemma InvCount(s: State)
    requires Inv(s) && s.phase.Counting?
    ensures Inv(s.(callout := CountDown(s.callout), passes := s.passes + 1, phase := Expiring))
  {
    CountDownUnique(s.callout);
    CountDownMeans(s.callout, 0);
    forall x | x in s.everytime ensures !Has(CountDown(s.callout), x) { CountDownMeans(s.callout, x); }
  }

  /** Every step keeps the invariant. */
  lemma InvNext(s: State, a: Act, t: State)
    requires Inv(s) && Next(s, a, t)
    ensures Inv(t)
  {
    match a
    case TickStart =>
    case SyncNext => AfterIsListed(s.everytime, s.phase.cur);
    case Count => InvCount(s);
    case Pop =>
    case Reload => InvReloaded(s);
    case EndTick => NoneDue(s.callout, 0);
    case Disarm(id) => InvDisarmed(s, id);
    case Put(id, left, reload) => InvArmed(s, id, left, reload);
  }

  /** ss are the states before, between and after the steps. */
  ghost predicate Run(ss: seq<State>, acts: seq<Act>) {
    && |ss| == |acts| + 1
    && Inv(ss[0])
    && (forall i: nat {:trigger acts[i]} :: i < |acts| ==> Next(ss[i], acts[i], ss[i + 1]))
  }

  lemma {:induction false} InvAlways(ss: seq<State>, acts: seq<Act>, i: nat)
    requires Run(ss, acts) && i < |ss|
    ensures Inv(ss[i])
  {
    if i > 0 {
      InvAlways(ss, acts, i - 1);
      InvNext(ss[i - 1], acts[i - 1], ss[i]);
    }
  }

  /** The step sets or removes the timer. */
  predicate Touches(a: Act, x: nat) {
    (a.Disarm? || a.Put?) && a.id == x
  }

  /** The step notifies the timer as one that has expired. */
  predicate Expires(s: State, a: Act, x: nat) {
    a.Pop? && s.callout != [] && s.callout[0].id == x
  }

  /** The timer is queued; between ticks and before the count of one it has ticks left. */
  ghost predicate Waiting(s: State, x: nat) {
    Has(s.callout, x) && (Quiet(s.phase) ==> Remaining(s.callout, x) > 0)
  }

  /** Whatever is done with other timers, a waiting timer loses a tick exactly in a count. */
  lemma WaitingNext(s: State, a: Act, t: State, x: nat)
    requires Inv(s) && Next(s, a, t) && Waiting(s, x) && !Touches(a, x) && !Expires(s, a, x)
    ensures Waiting(t, x)
    ensures Remaining(t.callout, x) == Remaining(s.callout, x) - (t.passes - s.passes)
  {
    match a
    case TickStart =>
    case SyncNext =>
    case Count => CountDownMeans(s.callout, x);
    case Pop =>
    case Reload =>
      if ReloadOf(s, s.phase.cur) > 1 { InsertMeans(s.callout, s.phase.cur, ReloadOf(s, s.phase.cur), x); }
    case EndTick => NoneDue(s.callout, x);
    case Disarm(id) => DeleteMeans(s.callout, id, x);
    case Put(id, left, reload) =>
      if left != 1 || left != reload { InsertMeans(s.callout, id, left, x); }
  }

  /** The timer is armed in step i for n ticks and neither set, removed nor expired before state j. */
  ghost predicate ArmedFor(ss: seq<State>, acts: seq<Act>, i: nat, j: nat, x: nat, n: int, reload: int) {
    && Run(ss, acts) && i < j <= |acts|
    && acts[i] == Put(x, n, reload) && n >= 1 && !(n == 1 && reload == 1)
    && (forall k: nat {:trigger acts[k]} :: i < k < j ==> !Touches(acts[k], x) && !Expires(ss[k], acts[k], x))
  }

  lemma {:induction false} TicksRemaining(ss: seq<State>, acts: seq<Act>, i: nat, j: nat, x: nat, n: int, reload: int)
    requires ArmedFor(ss, acts, i, j, x, n, reload)
    ensures Waiting(ss[j], x)
    ensures Remaining(ss[j].callout, x) == n - (ss[j].passes - ss[i].passes)
    decreases j
  {
    InvAlways(ss, acts, j - 1);
    assert Next(ss[j - 1], acts[j - 1], ss[j]);
    if j == i + 1 {
      InsertMeans(ss[i].callout, x, n, x);
    } else {
      TicksRemaining(ss, acts, i, j - 1, x, n, reload);
      WaitingNext(ss[j - 1], acts[j - 1], ss[j], x);
    }
  }

  /** A timer armed for n >= 1 ticks expires in the n-th tick that counts down after it was armed:
      not in an earlier one, and the n-th does not end without it. This holds whatever is set,
      removed, expired or reloaded meanwhile. */
  lemma ExpiresOnTime(ss: seq<State>, acts: seq<Act>, i: nat, j: nat, x: nat, n: int, reload: int)
    requires ArmedFor(ss, acts, i, j, x, n, reload)
    ensures j < |acts| && Expires(ss[j], acts[j], x) ==> ss[j].passes - ss[i].passes == n
    ensures ss[j].phase.Idle? ==> ss[j].passes - ss[i].passes < n
  {
    TicksRemaining(ss, acts, i, j, x, n, reload);
    if j < |acts| { assert Expires(ss[j], acts[j], x) ==> Next(ss[j], acts[j], ss[j + 1]); }
  }
}
