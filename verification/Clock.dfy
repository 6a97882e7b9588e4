/** The clock object of dev/clock.c. Its history is a run of the machine, so what is proved of
    runs holds of the object. */
module Clock {
  import opened Callout
  import opened ClockMachine
  import opened ClockTicks

  /** The list a timer is on, as its `clocklist` field says. */
  datatype Which = OnEverytime | OnCallout

  class Clock {
    var callout: seq<Slot>
    var everytime: seq<nat>
    var reload: map<nat, int>
    var clocklist: map<nat, Which>
    /** The notifications made so far. */
    var log: seq<nat>
    ghost var phase: Phase
    ghost var passes: nat
    ghost var states: seq<State>
    ghost var acts: seq<Act>

    ghost function Abs(): State
      reads this
    {
      State(callout, everytime, reload, phase, passes, log)
    }

    /** clocklist says for every timer which list it is on. */
    ghost predicate ListsAgree()
      reads this`callout, this`everytime, this`clocklist
    {
      && (forall x :: x in clocklist && clocklist[x].OnCallout? <==> Has(callout, x))
      && (forall x :: x in clocklist && clocklist[x].OnEverytime? <==> x in everytime)
    }

    ghost predicate Valid()
      reads this
    {
      Run(states, acts) && states[0] == INITIAL && states[|acts|] == Abs() && ListsAgree()
    }

    constructor ()
      ensures Valid() && Abs() == INITIAL && acts == []
    {
      callout, everytime, reload, clocklist, log := [], [], map[], map[], [];
      phase, passes := Idle, 0;
      states, acts := [INITIAL], [];
    }

    /** Adds a step to the history. */
    ghost method Record(a: Act)
      requires Run(states, acts) && Next(states[|acts|], a, Abs())
      modifies this`states, this`acts
      ensures Run(states, acts) && acts == old(acts) + [a] && states == old(states) + [Abs()]
      ensures Inv(Abs())
    {
      ghost var ss, s := states, Abs();
      acts, states := acts + [a], states + [s];
      forall i: nat | i < |acts| ensures Next(states[i], acts[i], states[i + 1]) {
        if i < |old(acts)| { assert Next(ss[i], old(acts)[i], ss[i + 1]); }
      }
      InvAlways(states, acts, |acts|);
    }

    /** add_synchronous_timer. */
    method AddSynchronous(id: nat)
      requires !Has(callout, id) && id !in everytime && ListsAgree()
      modifies this`everytime, this`clocklist
      ensures everytime == [id] + old(everytime) && ListsAgree()
    {
      clocklist := clocklist[id := OnEverytime];
      everytime := [id] + everytime;
    }

    /** remove_synchronous_timer. */
    method RemoveSynchronous(id: nat)
      requires NoDuplicates(everytime) && ListsAgree() && !Has(callout, id)
      modifies this`everytime, this`clocklist
      ensures everytime == Without(old(everytime), id) && ListsAgree()
    {
      var i := PlaceOf(everytime, id);
      WithoutMeans(everytime, id);
      if i < |everytime| {
        clocklist := clocklist - {id};
        everytime := everytime[..i] + everytime[i + 1..];
      }
    }

    /** add_oneshot_timer, for any tick count. */
    method AddOneshot(id: nat, ticks: int)
      modifies this`callout, this`clocklist
      ensures callout == Insert(old(callout), id, ticks)
      ensures clocklist == old(clocklist)[id := OnCallout]
    {
      clocklist := clocklist[id := OnCallout];
      var p, left := 0, ticks;
      while p < |callout| && left > callout[p].left
        invariant p <= |callout| && callout == old(callout) && clocklist == old(clocklist)[id := OnCallout]
        invariant callout[..p] + Insert(callout[p..], id, left) == Insert(callout, id, ticks)
      {
        InsertSkips(callout, p, id, left);
        if callout[p].left > 0 {
          left := left - callout[p].left;
        }
        p := p + 1;
      }
      if p < |callout| {
        InsertHere(callout, p, id, left);
        callout := callout[..p] + [Slot(id, left), Slot(callout[p].id, callout[p].left - left)] + callout[p + 1..];
      } else {
        callout := callout + [Slot(id, left)];
      }
    }

    /** remove_oneshot_timer. */
    method RemoveOneshot(id: nat)
      modifies this`callout, this`clocklist
      ensures callout == Delete(old(callout), id)
      ensures Has(old(callout), id) ==> clocklist == old(clocklist) - {id}
      ensures !Has(old(callout), id) ==> clocklist == old(clocklist)
    {
      var p := SlotOf(callout, id);
      if p < |callout| {
        DeleteHere(callout, p, id);
        if p + 1 < |callout| && callout[p].left > 0 {
          callout := callout[..p] + [Slot(callout[p + 1].id, callout[p + 1].left + callout[p].left)] + callout[p + 2..];
        } else {
          callout := callout[..p] + callout[p + 1..];
        }
        clocklist := clocklist - {id};
      } else {
        DeleteAbsent(callout, id);
      }
    }

    /** ticks_left_on_oneshot_timer: the ticks remaining, or zero for a timer that is not queued. */
    method TicksLeft(id: nat) returns (left: int)
      ensures Has(callout, id) ==> left == Remaining(callout, id)
      ensures !Has(callout, id) ==> left == 0
    {
      left := 0;
      var p := 0;
      while p < |callout|
        invariant p <= |callout| && left >= 0
        invariant Has(callout[p..], id) == Has(callout, id)
        invariant Has(callout, id) ==> left + Remaining(callout[p..], id) == Remaining(callout, id)
      {
        assert callout[p..][0] == callout[p] && callout[p..][1..] == callout[p + 1..];
        left := left + Positive(callout[p].left);
        if callout[p].id == id {
          return;
        }
        p := p + 1;
      }
      left := 0;
    }

    /** remove_from_clocklist. */
    method RemoveFromList(id: nat)
      requires Valid() && Settable(Abs(), id)
      modifies this`callout, this`everytime, this`clocklist, this`states, this`acts
      ensures Valid() && Abs() == Disarmed(old(Abs()), id) && !Listed(Abs(), id)
      ensures Grown(old(states), old(acts), states, acts, phase, id)
    {
      ghost var s := Abs();
      InvAlways(states, acts, |acts|);
      InvDisarmed(s, id);
      if id !in clocklist {
        WithoutAbsent(everytime, id);
        assert Disarmed(s, id) == s;
      } else if clocklist[id].OnEverytime? {
        RemoveSynchronous(id);
      } else {
        RemoveOneshot(id);
        StillAgree(s.callout, s.everytime, old(clocklist), id);
      }
      Record(Disarm(id));
    }

    /** timer_settime, once the times are converted to ticks. */
    method SetTime(id: nat, left: int, period: int)
      requires Valid() && Settable(Abs(), id) && left >= 0 && period >= 0
      modifies this`callout, this`everytime, this`clocklist, this`reload, this`states, this`acts
      ensures Valid()
      ensures left == 0 && period == 0 ==> Abs() == Disarmed(old(Abs()), id)
      ensures left > 0 || period > 0 ==> Abs() == Armed(Disarmed(old(Abs()), id), id, left, period)
      ensures Grown(old(states), old(acts), states, acts, phase, id)
    {
      ghost var s := Abs();
      if id in clocklist {
        RemoveFromList(id);
      } else {
        InvAlways(states, acts, |acts|);
        WithoutAbsent(everytime, id);
        assert Disarmed(s, id) == s;
      }
      if left > 0 || period > 0 {
        ghost var ss, prior := states, acts;
        Enqueue(id, left, period);
        GrownFurther(old(states), old(acts), ss, prior, states, acts, phase, id);
      }
    }

    /** The last part of timer_settime: the timer is on no list. */
    method Enqueue(id: nat, left: int, period: int)
      requires Valid() && Settable(Abs(), id) && !Listed(Abs(), id) && left >= 0 && period >= 0
      requires left > 0 || period > 0
      modifies this`callout, this`everytime, this`clocklist, this`reload, this`states, this`acts
      ensures Valid() && Abs() == Armed(old(Abs()), id, left, period)
      ensures Grown(old(states), old(acts), states, acts, phase, id)
    {
      InvAlways(states, acts, |acts|);
      reload := reload[id := period];
      if left == 1 && left == period {
        AddSynchronous(id);
      } else {
        InsertAgrees(callout, clocklist, id, left);
        AddOneshot(id, left);
      }
      Record(Put(id, left, period));
    }

    /** Adds a step of the tick that began with step i. */
    ghost method Advance(a: Act, i: nat, targets: set<nat>)
      requires Run(states, acts) && Next(states[|acts|], a, Abs()) && Ticking(states, acts, i, targets)
      requires !states[|acts|].phase.Idle? && !a.Disarm? && !a.Put?
      modifies this`states, this`acts
      ensures Run(states, acts) && Inv(Abs()) && Ticking(states, acts, i, targets)
      ensures states[0] == old(states[0]) && states[|acts|] == Abs()
      ensures acts[..i] == old(acts)[..i] && states[..i + 1] == old(states)[..i + 1]
    {
      TickingStep(states, acts, a, Abs(), i, targets);
      Record(a);
    }

    /** The body of the listener of the timer notified last. */
    method Listen(requests: seq<Request>, ghost cur: nat, ghost i: nat, ghost targets: set<nat>)
      requires Valid() && (phase == AtSync(cur) || phase == Notified(cur)) && Ticking(states, acts, i, targets)
      requires forall r :: r in requests ==> Behaved(cur, r) && r.id in targets
      modifies this`callout, this`everytime, this`clocklist, this`reload, this`states, this`acts
      ensures Valid() && Ticking(states, acts, i, targets)
      ensures acts[..i] == old(acts)[..i] && states[..i + 1] == old(states)[..i + 1]
      ensures Behind(everytime, cur) <= old(Behind(everytime, cur)) && Due(callout) <= old(Due(callout))
    {
      var k := 0;
      while k < |requests|
        invariant k <= |requests| && Valid() && Ticking(states, acts, i, targets)
        invariant acts[..i] == old(acts)[..i] && states[..i + 1] == old(states)[..i + 1]
        invariant Behind(everytime, cur) <= old(Behind(everytime, cur)) && Due(callout) <= old(Due(callout))
      {
        var r := requests[k];
        ghost var s, ss, prior := Abs(), states, acts;
        InvAlways(states, acts, |acts|);
        SetTime(r.id, r.left, r.period);
        TickingGrown(ss, prior, states, acts, phase, r.id, i, targets);
        RequestShrinks(s, Abs(), r);
        k := k + 1;
      }
    }

    /** The notification of an every-tick timer, and what its listener does. */
    method NotifySync(th: nat, reactions: map<nat, seq<Request>>, ghost i: nat, ghost targets: set<nat>)
      requires Valid() && phase == AtSync(th) && Ticking(states, acts, i, targets) && Reactions(reactions, targets)
      modifies this`callout, this`everytime, this`clocklist, this`reload, this`states, this`acts
      ensures Valid() && Ticking(states, acts, i, targets) && Inv(Abs())
      ensures acts[..i] == old(acts)[..i] && states[..i + 1] == old(states)[..i + 1]
      ensures Behind(everytime, th) <= old(Behind(everytime, th))
    {
      if th in reactions {
        Listen(reactions[th], th, i, targets);
      }
      InvAlways(states, acts, |acts|);
    }

    /** The pass of a tick over the every-tick list. */
    method SyncPass(reactions: map<nat, seq<Request>>, ghost targets: set<nat>)
      requires Valid() && phase.Idle? && Reactions(reactions, targets)
      modifies this`callout, this`everytime, this`clocklist, this`reload, this`log, this`phase, this`states, this`acts
      ensures Valid() && phase == Counting && Ticking(states, acts, |old(acts)|, targets) && Inv(Abs())
      ensures acts[..|old(acts)|] == old(acts) && states[..|old(acts)| + 1] == old(states)
    {
      ghost var i := |acts|;
      if everytime == [] {
        phase := Counting;
        Record(TickStart);
        return;
      }
      var th, more := everytime[0], true;
      log, phase := log + [th], AtSync(th);
      Record(TickStart);
      while more
        invariant Valid() && Ticking(states, acts, i, targets) && Inv(Abs())
        invariant acts[..i] == old(acts) && states[..i + 1] == old(states)
        invariant more ==> phase == AtSync(th)
        invariant !more ==> phase == Counting
        decreases more, Behind(everytime, th)
      {
        NotifySync(th, reactions, i, targets);
        var next := After(everytime, th);
        if next.Some? {
          BehindNext(everytime, th);
          th := next.value;
          log, phase := log + [th], AtSync(th);
        } else {
          more, phase := false, Counting;
        }
        Advance(SyncNext, i, targets);
      }
    }

    /** Takes the first timer off the callout queue and notifies it. */
    method PopFirst(ghost i: nat, ghost targets: set<nat>) returns (th: nat)
      requires Valid() && phase == Expiring && callout != [] && callout[0].left <= 0
      requires Ticking(states, acts, i, targets)
      modifies this`callout, this`clocklist, this`log, this`phase, this`states, this`acts
      ensures Valid() && phase == Notified(th) && Ticking(states, acts, i, targets)
      ensures acts[..i] == old(acts)[..i] && states[..i + 1] == old(states)[..i + 1]
      ensures Due(callout) < old(Due(callout))
    {
      InvAlways(states, acts, |acts|);
      th := callout[0].id;
      callout, clocklist := callout[1..], clocklist - {th};
      log, phase := log + [th], Notified(th);
      Advance(Pop, i, targets);
    }

    /** Puts a notified timer back according to its period. */
    method ReloadTimer(th: nat, ghost i: nat, ghost targets: set<nat>)
      requires Valid() && phase == Notified(th) && Ticking(states, acts, i, targets)
      modifies this`callout, this`everytime, this`clocklist, this`phase, this`states, this`acts
      ensures Valid() && phase == Expiring && Ticking(states, acts, i, targets)
      ensures acts[..i] == old(acts)[..i] && states[..i + 1] == old(states)[..i + 1]
      ensures Due(callout) == old(Due(callout))
    {
      InvAlways(states, acts, |acts|);
      if th in reload && reload[th] != 0 {
        if reload[th] == 1 {
          AddSynchronous(th);
        } else {
          InsertAgrees(callout, clocklist, th, reload[th]);
          DueInsert(callout, th, reload[th]);
          AddOneshot(th, reload[th]);
        }
      }
      phase := Expiring;
      Advance(Reload, i, targets);
    }

    /** The notification of an expired timer, what its listener does, and its reload. */
    method ExpireFirst(reactions: map<nat, seq<Request>>, ghost i: nat, ghost targets: set<nat>)
      requires Valid() && phase == Expiring && callout != [] && callout[0].left <= 0
      requires Ticking(states, acts, i, targets) && Reactions(reactions, targets)
      modifies this`callout, this`everytime, this`clocklist, this`reload, this`log, this`phase, this`states, this`acts
      ensures Valid() && phase == Expiring && Ticking(states, acts, i, targets)
      ensures acts[..i] == old(acts)[..i] && states[..i + 1] == old(states)[..i + 1]
      ensures Due(callout) < old(Due(callout))
    {
      var th := PopFirst(i, targets);
      if th in reactions {
        Listen(reactions[th], th, i, targets);
      }
      ReloadTimer(th, i, targets);
    }

    /** The rest of a tick after the pass over the every-tick list: count, then expire what is due. */
    method CalloutPass(reactions: map<nat, seq<Request>>, ghost i: nat, ghost targets: set<nat>)
      requires Valid() && phase == Counting && Ticking(states, acts, i, targets)
      requires Reactions(reactions, targets) && Inv(Abs())
      modifies this
      ensures Valid() && phase == Expiring && Ticking(states, acts, i, targets)
      ensures callout == [] || callout[0].left > 0
      ensures passes == old(passes) + 1
      ensures acts[..i] == old(acts)[..i] && states[..i + 1] == old(states)[..i + 1]
    {
      ghost var q := callout;
      var mustcallout;
      callout, mustcallout := CountPass(callout);
      passes, phase := passes + 1, Expiring;
      forall x ensures Has(callout, x) <==> Has(q, x) { CountDownMeans(q, x); }
      Advance(Count, i, targets);
      if mustcallout {
        while callout != [] && callout[0].left <= 0
          invariant Valid() && phase == Expiring && Ticking(states, acts, i, targets)
          invariant acts[..i] == old(acts)[..i] && states[..i + 1] == old(states)[..i + 1]
          invariant passes == old(passes) + 1
          decreases Due(callout)
        {
          ExpireFirst(reactions, i, targets);
        }
      }
    }

    /** fdev_handle_clock: one tick. The timers that no listener sets or removes fare as
        `TickEffect` says. */
    method HandleClock(reactions: map<nat, seq<Request>>, ghost targets: set<nat>)
      requires Valid() && phase.Idle? && Reactions(reactions, targets)
      modifies this
      ensures Valid() && phase.Idle? && old(acts) <= acts && old(states) <= states && passes == old(passes) + 1
      ensures forall x :: x !in targets ==> TickEffect(old(Abs()), Abs(), x)
    {
      ghost var i := |acts|;
      SyncPass(reactions, targets);
      CalloutPass(reactions, i, targets);
      phase := Idle;
      Advance(EndTick, i, targets);
      assert old(states)[i] == states[..i + 1][i] == states[i];
      forall x | x !in targets ensures TickEffect(old(Abs()), Abs(), x) {
        TickOf(states, acts, i, targets, x);
      }
    }
  }

  lemma TickOf(ss: seq<State>, acts: seq<Act>, i: nat, targets: set<nat>, x: nat)
    requires Run(ss, acts) && Ticking(ss, acts, i, targets) && ss[|acts|].phase.Idle? && x !in targets
    ensures TickEffect(ss[i], ss[|acts|], x)
  {
    forall k: nat | i < k < |acts| ensures Midway(ss[k], acts[k], x) {
      assert MidTick(ss[k], acts[k], targets);
    }
    TickNotifiesExactly(ss, acts, i, |acts|, x);
  }

  /** The loop of a tick that counts the callout queue down, and whether anything is due then. */
  method CountPass(q: seq<Slot>) returns (r: seq<Slot>, mustcallout: bool)
    ensures r == CountDown(q)
    ensures mustcallout <==> r != [] && r[0].left <= 0
  {
    var done, rest: seq<Slot> := [], q;
    mustcallout := false;
    while rest != []
      invariant CountDown(q) == done + CountDown(rest)
      invariant mustcallout <==> done != []
      invariant done != [] ==> done[0].left < 0
      decreases |rest|
    {
      var th := Slot(rest[0].id, rest[0].left - 1);
      if th.left > 0 {
        return done + ([th] + rest[1..]), mustcallout;
      }
      mustcallout := true;
      if th.left == 0 {
        return done + ([th] + rest[1..]), mustcallout;
      }
      Regroup(done, th, CountDown(rest[1..]));
      done, rest := done + [th], rest[1..];
    }
    r := done;
  }

  lemma Regroup(a: seq<Slot>, x: Slot, b: seq<Slot>)
    ensures a + ([x] + b) == (a + [x]) + b
  {
  }

  /** The history has grown by steps that touch id, in the same phase. */
  ghost predicate Grown(ss: seq<State>, acts: seq<Act>, ss': seq<State>, acts': seq<Act>, phase: Phase, id: nat) {
    && |ss| == |acts| + 1 && |ss'| == |acts'| + 1 && acts <= acts' && ss <= ss'
    && (forall k :: |acts| <= k < |acts'| ==> Touches(acts'[k], id) && ss'[k].phase == phase)
  }

  lemma GrownFurther(ss: seq<State>, acts: seq<Act>, ss': seq<State>, acts': seq<Act>,
                     ss'': seq<State>, acts'': seq<Act>, phase: Phase, id: nat)
    requires Grown(ss, acts, ss', acts', phase, id) && Grown(ss', acts', ss'', acts'', phase, id)
    ensures Grown(ss, acts, ss'', acts'', phase, id)
  {
    forall k | |acts| <= k < |acts''| ensures Touches(acts''[k], id) && ss''[k].phase == phase {
      if k < |acts'| { assert acts''[k] == acts'[k] && ss''[k] == ss'[k]; }
    }
  }

  /** The loop of remove_oneshot_timer: the first slot of the timer, or the end of the queue. */
  method SlotOf(q: seq<Slot>, id: nat) returns (p: nat)
    ensures p <= |q| && (Has(q, id) <==> p < |q|)
    ensures p < |q| ==> q[p].id == id && Delete(q, id) == q[..p] + Delete(q[p..], id)
  {
    p := 0;
    while p < |q| && q[p].id != id
      invariant p <= |q| && Has(q[p..], id) == Has(q, id) && Delete(q, id) == q[..p] + Delete(q[p..], id)
    {
      DeleteSkips(q, p, id);
      p := p + 1;
    }
  }

  /** What a listener asks for: timer id to expire after left ticks, then every period ticks; two
      zeros remove the timer. */
  datatype Request = Request(id: nat, left: int, period: int)

  /** The listener of timer t does not set t itself, and arms others for at least one tick. */
  predicate Behaved(t: nat, r: Request) {
    r.id != t && r.period >= 0 && (r.left >= 1 || (r.left == 0 && r.period == 0))
  }

  /** What the listener of each timer does when it is notified, and the timers it does it to. */
  ghost predicate Reactions(reactions: map<nat, seq<Request>>, targets: set<nat>) {
    forall t, r :: t in reactions && r in reactions[t] ==> Behaved(t, r) && r.id in targets
  }

  /** How many entries of the every-tick list come after cur. */
  ghost function Behind(l: seq<nat>, cur: nat): nat {
    if l == [] then 0 else if l[0] == cur then |l| - 1 else Behind(l[1..], cur)
  }

  lemma {:induction false} BehindWithout(l: seq<nat>, cur: nat, id: nat)
    requires id != cur
    ensures Behind(Without(l, id), cur) <= Behind(l, cur)
  {
    if l != [] && l[0] != cur && l[0] != id {
      BehindWithout(l[1..], cur, id);
    } else if l != [] && l[0] == cur {
      WithoutShrinks(l[1..], id);
    }
  }

  lemma {:induction false} WithoutShrinks(l: seq<nat>, id: nat)
    ensures |Without(l, id)| <= |l|
  {
    if l != [] { WithoutShrinks(l[1..], id); }
  }

  lemma {:induction false} BehindNext(l: seq<nat>, cur: nat)
    requires NoDuplicates(l) && cur in l && After(l, cur).Some?
    ensures Behind(l, After(l, cur).value) < Behind(l, cur)
  {
    if l[0] != cur {
      BehindNext(l[1..], cur);
      AfterIsListed(l[1..], cur);
    } else {
      assert l[1] in l[1..];
    }
  }

  /** How many slots in front are due. */
  ghost function Due(q: seq<Slot>): nat {
    if q == [] || q[0].left > 0 then 0 else 1 + Due(q[1..])
  }

  lemma {:induction false} DueInsert(q: seq<Slot>, id: nat, ticks: int)
    requires ticks >= 1
    ensures Due(Insert(q, id, ticks)) == Due(q)
  {
    if q != [] && q[0].left <= 0 { DueInsert(q[1..], id, ticks); }
  }

  lemma {:induction false} DueDelete(q: seq<Slot>, id: nat)
    requires OverdueFirst(q)
    ensures Due(Delete(q, id)) <= Due(q)
  {
    if q != [] && q[0].left <= 0 && q[0].id != id { DueDelete(q[1..], id); }
  }

  /** A request does not lengthen what the tick has still to do. */
  lemma RequestShrinks(s: State, t: State, r: Request)
    requires Inv(s) && Settable(s, r.id) && !s.phase.Idle? && Behaved(s.phase.cur, r)
    requires r.left == 0 && r.period == 0 ==> t == Disarmed(s, r.id)
    requires r.left > 0 || r.period > 0 ==> t == Armed(Disarmed(s, r.id), r.id, r.left, r.period)
    ensures Behind(t.everytime, s.phase.cur) <= Behind(s.everytime, s.phase.cur)
    ensures Due(t.callout) <= Due(s.callout)
  {
    BehindWithout(s.everytime, s.phase.cur, r.id);
    DueDelete(s.callout, r.id);
    var m := Disarmed(s, r.id);
    if r.left > 0 {
      DueInsert(m.callout, r.id, r.left);
      assert ([r.id] + m.everytime)[1..] == m.everytime;
    }
  }

  /** A step after the first in a tick: it touches only targets. */
  ghost predicate MidTick(s: State, a: Act, targets: set<nat>) {
    !s.phase.Idle? && (a.Disarm? || a.Put? ==> a.id in targets)
  }

  /** The history from step i on is a tick underway. */
  ghost predicate Ticking(ss: seq<State>, acts: seq<Act>, i: nat, targets: set<nat>) {
    && |ss| == |acts| + 1 && i < |acts| && acts[i].TickStart?
    && (forall k :: i < k < |acts| ==> MidTick(ss[k], acts[k], targets))
  }

  lemma TickingGrown(ss: seq<State>, acts: seq<Act>, ss': seq<State>, acts': seq<Act>, phase: Phase, id: nat, i: nat,
                     targets: set<nat>)
    requires Ticking(ss, acts, i, targets) && Grown(ss, acts, ss', acts', phase, id) && id in targets && !phase.Idle?
    ensures Ticking(ss', acts', i, targets)
  {
    forall k | i < k < |acts'| ensures MidTick(ss'[k], acts'[k], targets) {
      if k < |acts| { assert MidTick(ss[k], acts[k], targets) && acts'[k] == acts[k] && ss'[k] == ss[k]; }
    }
  }

  lemma TickingStep(ss: seq<State>, acts: seq<Act>, a: Act, t: State, i: nat, targets: set<nat>)
    requires Ticking(ss, acts, i, targets) && MidTick(ss[|acts|], a, targets)
    ensures Ticking(ss + [t], acts + [a], i, targets)
  {
    var ss', acts' := ss + [t], acts + [a];
    forall k | i < k < |acts'| ensures MidTick(ss'[k], acts'[k], targets) {
      if k < |acts| { assert MidTick(ss[k], acts[k], targets) && acts'[k] == acts[k] && ss'[k] == ss[k]; }
    }
  }

  /** Taking a queued timer out keeps the lists and clocklist in agreement. */
  lemma StillAgree(callout: seq<Slot>, everytime: seq<nat>, clocklist: map<nat, Which>, id: nat)
    requires OverdueFirst(callout) && Unique(callout) && Has(callout, id)
    requires forall x :: x in clocklist && clocklist[x].OnCallout? <==> Has(callout, x)
    ensures forall x :: x in clocklist - {id} && clocklist[x].OnCallout? <==> Has(Delete(callout, id), x)
  {
    forall x ensures x in clocklist - {id} && clocklist[x].OnCallout? <==> Has(Delete(callout, id), x) {
      DeleteMeans(callout, id, x);
    }
  }

  lemma {:induction false} WithoutAbsent(l: seq<nat>, id: nat)
    requires id !in l
    ensures Without(l, id) == l
  {
    if l != [] { WithoutAbsent(l[1..], id); }
  }

  /** So does queueing a timer. */
  lemma InsertAgrees(callout: seq<Slot>, clocklist: map<nat, Which>, id: nat, ticks: int)
    requires OverdueFirst(callout) && !Has(callout, id) && ticks >= 0
    requires forall x :: x in clocklist && clocklist[x].OnCallout? <==> Has(callout, x)
    ensures var c := clocklist[id := OnCallout];
      forall x :: x in c && c[x].OnCallout? <==> Has(Insert(callout, id, ticks), x)
  {
    var c := clocklist[id := OnCallout];
    forall x ensures x in c && c[x].OnCallout? <==> Has(Insert(callout, id, ticks), x) {
      InsertMeans(callout, id, ticks, x);
    }
  }

  /** The loop of remove_synchronous_timer: the place of the timer, or the end of the list. */
  method PlaceOf(l: seq<nat>, id: nat) returns (i: nat)
    ensures i < |l| ==> l[i] == id && Without(l, id) == l[..i] + l[i + 1..]
    ensures i >= |l| ==> id !in l && Without(l, id) == l
  {
    i := 0;
    while i < |l| && l[i] != id
      invariant i <= |l| && id !in l[..i] && Without(l, id) == l[..i] + Without(l[i..], id)
    {
      WithoutSkips(l, i, id);
      i := i + 1;
    }
    if i < |l| { assert l[i..][1..] == l[i + 1..]; }
  }

  lemma WithoutSkips(l: seq<nat>, i: nat, id: nat)
    requires i < |l| && l[i] != id && Without(l, id) == l[..i] + Without(l[i..], id)
    ensures Without(l, id) == l[..i + 1] + Without(l[i + 1..], id)
  {
    assert l[i..][1..] == l[i + 1..];
    assert l[..i] + ([l[i]] + Without(l[i + 1..], id)) == l[..i + 1] + Without(l[i + 1..], id);
  }

  lemma InsertSkips(q: seq<Slot>, p: nat, id: nat, ticks: int)
    requires p < |q| && ticks > q[p].left
    ensures q[..p] + Insert(q[p..], id, ticks) == q[..p + 1] + Insert(q[p + 1..], id, ticks - Positive(q[p].left))
  {
    assert q[p..][1..] == q[p + 1..];
    assert q[..p] + ([q[p]] + Insert(q[p + 1..], id, ticks - Positive(q[p].left)))
        == q[..p + 1] + Insert(q[p + 1..], id, ticks - Positive(q[p].left));
  }

  lemma InsertHere(q: seq<Slot>, p: nat, id: nat, ticks: int)
    requires p < |q| && ticks <= q[p].left
    ensures q[..p] + Insert(q[p..], id, ticks)
      == q[..p] + [Slot(id, ticks), Slot(q[p].id, q[p].left - ticks)] + q[p + 1..]
  {
    assert q[p..][1..] == q[p + 1..];
  }

  lemma DeleteSkips(q: seq<Slot>, p: nat, id: nat)
    requires p < |q| && q[p].id != id
    ensures q[..p] + Delete(q[p..], id) == q[..p + 1] + Delete(q[p + 1..], id)
    ensures Has(q[p..], id) == Has(q[p + 1..], id)
  {
    assert q[p..][1..] == q[p + 1..];
    assert q[..p] + ([q[p]] + Delete(q[p + 1..], id)) == q[..p + 1] + Delete(q[p + 1..], id);
  }

  lemma DeleteHere(q: seq<Slot>, p: nat, id: nat)
    requires p < |q| && q[p].id == id && Delete(q, id) == q[..p] + Delete(q[p..], id)
    ensures p + 1 < |q| && q[p].left > 0 ==>
      Delete(q, id) == q[..p] + [Slot(q[p + 1].id, q[p + 1].left + q[p].left)] + q[p + 2..]
    ensures !(p + 1 < |q| && q[p].left > 0) ==> Delete(q, id) == q[..p] + q[p + 1..]
  {
    assert q[p..][1..] == q[p + 1..];
    if p + 1 < |q| { assert q[p..][2..] == q[p + 2..]; }
  }
}
