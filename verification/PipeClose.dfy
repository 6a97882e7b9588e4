/** What becomes of the calls on an end of a pipe when the other end closes. */
module PipeClose {
  import opened PipeMachine
  import opened PipeWakeups

  /** The call is past the checks at its entry. */
  predicate Entered(th: Thread) {
    !th.Off? && !th.ReadCall? && !th.WriteCall?
  }

  predicate EnteredOn(th: Thread, e: End) {
    Entered(th) && th.at == e
  }

  predicate Writing(th: Thread) {
    Writes(th) && !th.WriteCall?
  }

  /** The end is closed, and calls on it can only fail. */
  ghost predicate Deserted(s: State, o: End) {
    Of(s, o).closed && forall i :: 0 <= i < |s.threads| ==> !EnteredOn(s.threads[i], o)
  }

  /** What a step on the other end of a deserted one may change: the state of its thread, and nothing
      that a writer there waits for. */
  ghost predicate OnlyMoves(s: State, t: nat, s': State, o: End) {
    && t < |s.threads| == |s'.threads| && s'.threads == s.threads[t := s'.threads[t]]
    && (s'.threads[t].Off? || (Reads(s'.threads[t]) && s'.threads[t].at == Other(o)))
    && Of(s', o).closed && Of(s', o).dataready == Of(s, o).dataready
  }

  /** A signal to a deserted end reaches nobody. */
  lemma SignalsNobody(m: State, o: End, wake: nat, s': State)
    requires Deserted(m, o) && Signals(m, o, wake, s')
    ensures s' == m
  {
    if wake < |m.threads| { assert !EnteredOn(m.threads[wake], o); }
  }

  lemma MoveDeserted(s: State, t: nat, th: Thread, s': State, o: End)
    requires Deserted(s, o) && t < |s.threads| && s'.threads == s.threads[t := th] && Of(s', o).closed
    requires Entered(th) ==> th.at != o
    ensures Deserted(s', o)
  {
    forall i | 0 <= i < |s.threads| && i != t ensures s'.threads[i] == s.threads[i] {
    }
  }

  lemma ReadSignalMoves(s: State, t: nat, wake: nat, s': State, o: End)
    requires Deserted(s, o) && t < |s.threads| && s.threads[t].ReadSignal? && s.threads[t].at == Other(o)
    requires ReaderGoes(s, t, wake, s')
    ensures OnlyMoves(s, t, s', o)
  {
    var th := s.threads[t];
    var m := Move(s, t, Copying(th.at, th.len, th.got));
    MoveDeserted(s, t, m.threads[t], m, o);
    if Of(s, o).sleepWrite {
      var n := With(m, o, Of(s, o).(sleepWrite := false));
      MoveDeserted(s, t, m.threads[t], n, o);
      SignalsNobody(n, o, wake, s');
    }
  }

  /** A reader goes on. */
  lemma ReaderMoves(s: State, t: nat, wake: nat, s': State, o: End)
    requires Deserted(s, o) && t < |s.threads| && Reads(s.threads[t]) && s.threads[t].at == Other(o)
    requires ReaderGoes(s, t, wake, s')
    ensures OnlyMoves(s, t, s', o)
  {
    if s.threads[t].ReadSignal? { ReadSignalMoves(s, t, wake, s', o); }
  }

  /** Calls at their entry checks fail if their end is closed, and writes also if the other one is. */
  lemma EntryFails(s: State, t: nat, wake: nat, s': State, o: End)
    requires Deserted(s, o) && Next(s, Go(t, wake), s')
    requires s.threads[t].WriteCall? || s.threads[t].at == o
    ensures s' == Move(s, t, Off)
  {
    assert !EnteredOn(s.threads[t], o);
  }

  /** Steps of threads that are not writing on the other end. */
  lemma OthersMove(s: State, t: nat, wake: nat, s': State, o: End)
    requires Deserted(s, o) && Next(s, Go(t, wake), s') && !Writing(s.threads[t])
    ensures OnlyMoves(s, t, s', o)
  {
    if s.threads[t].WriteCall? || s.threads[t].at == o {
      EntryFails(s, t, wake, s', o);
    } else {
      ReaderMoves(s, t, wake, s', o);
    }
  }

  /** What the call has still to put into the pipe, together with what is in there. */
  function Load(s: State, t: nat): int
    requires t < |s.threads| && Writing(s.threads[t])
  {
    |s.threads[t].rest| + Of(s, Other(s.threads[t].at)).dataready
  }

  /** How many steps the call needs to end if everything fits. */
  function StepsLeft(th: Thread): nat {
    match th
    case Filled(_, rest) => if rest == [] then 5 else 9
    case WriteNotifying(_, rest) => if rest == [] then 4 else 8
    case WriteSignal(_, rest) => if rest == [] then 3 else 7
    case WriteWoken(_, rest) => 7
    case Filling(_, rest) => if rest == [] then 2 else 6
    case _ => 0
  }

  /** A step of a writer: it ends its call only when nothing is left, and what fits does not make it
      sleep. */
  ghost predicate Progress(s: State, t: nat, s': State)
    requires t < |s.threads| && Writing(s.threads[t])
  {
    && |s'.threads| == |s.threads| && s'.threads == s.threads[t := s'.threads[t]]
    && Of(s', Other(s.threads[t].at)).closed == Of(s, Other(s.threads[t].at)).closed
    && (s'.threads[t].Off? ==> s.threads[t].rest == [])
    && (!s'.threads[t].Off? ==>
          && Writing(s'.threads[t]) && s'.threads[t].at == s.threads[t].at && Load(s', t) == Load(s, t))
    && (Load(s, t) <= MAX ==> !s'.threads[t].WriteSleeping? && StepsLeft(s'.threads[t]) < StepsLeft(s.threads[t]))
  }

  lemma FillingProgress(s: State, t: nat, wake: nat, s': State)
    requires t < |s.threads| && s.threads[t].Filling? && WriterGoes(s, t, wake, s')
    ensures Progress(s, t, s')
  {
    var e, rest := s.threads[t].at, s.threads[t].rest;
    var sister := Of(s, Other(e));
    if rest != [] && sister.dataready < MAX {
      var count := if MAX - sister.dataready > |rest| then |rest| else MAX - sister.dataready;
      assert s'.threads[t] == Filled(e, rest[count..]);
      assert Of(s', Other(e)) == Stuffed(sister, rest[..count]);
    }
  }

  lemma WriteSignalProgress(s: State, t: nat, wake: nat, s': State)
    requires t < |s.threads| && s.threads[t].WriteSignal? && WriterGoes(s, t, wake, s')
    requires Deserted(s, Other(s.threads[t].at))
    ensures Progress(s, t, s')
  {
    var th := s.threads[t];
    var o := Other(th.at);
    var m := Move(s, t, Filling(th.at, th.rest));
    if Of(s, o).sleepRead {
      var n := With(m, o, Of(s, o).(sleepRead := false));
      MoveDeserted(s, t, m.threads[t], n, o);
      SignalsNobody(n, o, wake, s');
    }
  }

  lemma OwnStep(s: State, t: nat, wake: nat, s': State)
    requires t < |s.threads| && Writing(s.threads[t]) && WriterGoes(s, t, wake, s')
    requires Deserted(s, Other(s.threads[t].at))
    ensures Progress(s, t, s')
  {
    if s.threads[t].Filling? {
      FillingProgress(s, t, wake, s');
    } else if s.threads[t].WriteSignal? {
      WriteSignalProgress(s, t, wake, s');
    }
  }

  /** The other end of thread t's is deserted, and t is the only one in a write call past its entry checks
      on its own. */
  ghost predicate Abandoned(s: State, t: nat, e: End) {
    && Deserted(s, Other(e)) && t < |s.threads|
    && forall i :: 0 <= i < |s.threads| && i != t ==> !Writing(s.threads[i])
  }

  lemma OwnStepAbandoned(s: State, t: nat, wake: nat, s': State, e: End)
    requires Abandoned(s, t, e) && Writing(s.threads[t]) && s.threads[t].at == e && WriterGoes(s, t, wake, s')
    ensures Abandoned(s', t, e) && Progress(s, t, s')
  {
    OwnStep(s, t, wake, s');
    MoveDeserted(s, t, s'.threads[t], s', Other(e));
    forall i | 0 <= i < |s.threads| && i != t ensures s'.threads[i] == s.threads[i] {
    }
  }

  /** A step of anyone else changes nothing for the writer. */
  lemma OtherGoes(s: State, u: nat, wake: nat, s': State, t: nat, e: End)
    requires Abandoned(s, t, e) && Next(s, Go(u, wake), s') && u != t
    ensures Abandoned(s', t, e) && s'.threads[t] == s.threads[t]
    ensures Of(s', Other(e)).dataready == Of(s, Other(e)).dataready
  {
    OthersMove(s, u, wake, s', Other(e));
    MoveDeserted(s, u, s'.threads[u], s', Other(e));
    forall i | 0 <= i < |s.threads| && i != u ensures s'.threads[i] == s.threads[i] {
    }
  }

  lemma OtherStep(s: State, a: Act, s': State, t: nat, e: End)
    requires Abandoned(s, t, e) && Writing(s.threads[t]) && s.threads[t].at == e && Next(s, a, s') && !OwnAct(a, t)
    ensures Abandoned(s', t, e) && s'.threads[t] == s.threads[t]
    ensures Of(s', Other(e)).dataready == Of(s, Other(e)).dataready
  {
    assert CallsOn(s.threads[t], e);
    match a
    case Read(u, x, len) => MoveDeserted(s, u, ReadCall(x, len), s', Other(e));
    case Write(u, x, data) => MoveDeserted(s, u, WriteCall(x, data), s', Other(e));
    case Go(u, wake) => OtherGoes(s, u, wake, s', t, e);
    case Close(x, wake) =>
    case Select(x, r, w) =>
  }

  /** The close: a writer on the other end is woken or left as it is, and its load stays. */
  lemma CloseStep(s: State, o: End, wake: nat, s': State, t: nat)
    requires Closes(s, o, wake, s') && t < |s.threads| && Writing(s.threads[t]) && s.threads[t].at == Other(o)
    requires forall i :: 0 <= i < |s.threads| && i != t ==> !Writing(s.threads[i])
    ensures Abandoned(s', t, Other(o)) && Writing(s'.threads[t]) && s'.threads[t].at == Other(o)
    ensures Load(s', t) == Load(s, t)
    ensures !s.threads[t].WriteSleeping? ==> s'.threads[t] == s.threads[t]
  {
    var c := With(s, o, Of(s, o).(closed := true));
    assert CallsOn(s.threads[t], Other(o));
    forall i: nat | i < |s.threads|
      ensures |s'.threads| == |s.threads| && s'.left == c.left && s'.right == c.right
      ensures s'.threads[i] == s.threads[i]
        || (SleepsOn(s.threads[i], Other(o)) && s'.threads[i] == Awoken(s.threads[i]))
    {
      if s' != c { SignalWakes(c, Other(o), wake, s', i); }
    }
    forall i | 0 <= i < |s.threads| ensures !EnteredOn(s'.threads[i], o) {
      assert !CallsOn(s.threads[i], o);
    }
  }

  /** The other end closes in step i while thread t is the only one in a write call past its entry
      checks on its end. */
  ghost predicate ClosesOn(ss: seq<State>, acts: seq<Act>, i: nat, t: nat) {
    && IsRun(ss, acts) && i < |acts| && acts[i].Close? && t < |ss[i].threads| && Writing(ss[i].threads[t])
    && ss[i].threads[t].at == Other(acts[i].e)
    && forall u :: 0 <= u < |ss[i].threads| && u != t ==> !Writing(ss[i].threads[u])
  }

  /** Thread t is still in its call, with the same load. */
  ghost predicate Stuck(s: State, t: nat, e: End, load: int) {
    Abandoned(s, t, e) && Writing(s.threads[t]) && s.threads[t].at == e && Load(s, t) == load
  }

  lemma StuckAtClose(ss: seq<State>, acts: seq<Act>, i: nat, t: nat)
    requires ClosesOn(ss, acts, i, t)
    ensures Stuck(ss[i + 1], t, ss[i].threads[t].at, Load(ss[i], t))
  {
    assert StepAt(ss, acts, i);
    CloseStep(ss[i], acts[i].e, acts[i].wake, ss[i + 1], t);
  }

  lemma StuckOn(s: State, a: Act, s': State, t: nat, e: End, load: int)
    requires Stuck(s, t, e, load) && load > MAX && Inv(s) && Next(s, a, s')
    ensures Stuck(s', t, e, load)
  {
    if OwnAct(a, t) {
      OwnStepAbandoned(s, t, a.wake, s', e);
    } else {
      OtherStep(s, a, s', t, e);
    }
  }

  /** A call that has more to write than there is room never returns, whoever the signal of the close
      reaches. */
  lemma {:induction false} NoRoomNeverReturns(ss: seq<State>, acts: seq<Act>, i: nat, j: nat, t: nat)
    requires ClosesOn(ss, acts, i, t) && i < j < |ss| && Load(ss[i], t) > MAX
    ensures Stuck(ss[j], t, ss[i].threads[t].at, Load(ss[i], t))
    decreases j
  {
    if j == i + 1 {
      StuckAtClose(ss, acts, i, t);
    } else {
      NoRoomNeverReturns(ss, acts, i, j - 1, t);
      InvAlways(ss, acts, j - 1);
      assert StepAt(ss, acts, j - 1);
      StuckOn(ss[j - 1], acts[j - 1], ss[j], t, ss[i].threads[t].at, Load(ss[i], t));
    }
  }

  /** The steps of thread t among acts[lo..hi]. */
  function OwnSteps(acts: seq<Act>, lo: nat, hi: nat, t: nat): nat
    requires lo <= hi <= |acts|
  {
    if lo == hi then 0 else (if OwnAct(acts[hi - 1], t) then 1 else 0) + OwnSteps(acts, lo, hi - 1, t)
  }

  /** The call is over, or goes on without sleeping and with the same load. */
  ghost predicate Fitting(s: State, t: nat, e: End, load: int) {
    && Abandoned(s, t, e)
    && (s.threads[t].Off? || (Stuck(s, t, e, load) && !s.threads[t].WriteSleeping?))
  }

  lemma FitsOn(s: State, a: Act, s': State, t: nat, e: End, load: int)
    requires Fitting(s, t, e, load) && !s.threads[t].Off? && load <= MAX && Next(s, a, s')
    ensures Fitting(s', t, e, load)
    ensures (if OwnAct(a, t) then 1 else 0) + StepsLeft(s'.threads[t]) <= StepsLeft(s.threads[t])
  {
    if OwnAct(a, t) {
      OwnStepAbandoned(s, t, a.wake, s', e);
    } else {
      OtherStep(s, a, s', t, e);
    }
  }

  lemma FitsOneMore(ss: seq<State>, acts: seq<Act>, i: nat, j: nat, t: nat, e: End, load: int)
    requires IsRun(ss, acts) && i < j < |acts| && load <= MAX && Fitting(ss[j], t, e, load) && !ss[j].threads[t].Off?
    requires OwnSteps(acts, i + 1, j, t) + StepsLeft(ss[j].threads[t]) <= 9
    ensures Fitting(ss[j + 1], t, e, load)
    ensures OwnSteps(acts, i + 1, j + 1, t) + StepsLeft(ss[j + 1].threads[t]) <= 9
  {
    assert StepAt(ss, acts, j);
    FitsOn(ss[j], acts[j], ss[j + 1], t, e, load);
  }

  lemma {:induction false} FitsThroughout(ss: seq<State>, acts: seq<Act>, i: nat, j: nat, t: nat, e: End, load: int)
    requires IsRun(ss, acts) && i < j < |ss| && load <= MAX && Busy(ss, i, j, t)
    requires Fitting(ss[i + 1], t, e, load) && StepsLeft(ss[i + 1].threads[t]) <= 9
    ensures Fitting(ss[j], t, e, load) && OwnSteps(acts, i + 1, j, t) + StepsLeft(ss[j].threads[t]) <= 9
    decreases j
  {
    if j > i + 1 {
      FitsThroughout(ss, acts, i, j - 1, t, e, load);
      FitsOneMore(ss, acts, i, j - 1, t, e, load);
    }
  }

  /** A call that has no more to write than there is room, and that the close does not leave asleep, never
      sleeps again and ends within nine steps of its own. */
  lemma RoomReturns(ss: seq<State>, acts: seq<Act>, i: nat, j: nat, t: nat)
    requires ClosesOn(ss, acts, i, t) && i < j < |ss| && Load(ss[i], t) <= MAX && Busy(ss, i, j, t)
    requires t < |ss[i + 1].threads| && !ss[i + 1].threads[t].WriteSleeping?
    ensures Fitting(ss[j], t, ss[i].threads[t].at, Load(ss[i], t))
    ensures OwnSteps(acts, i + 1, j, t) + StepsLeft(ss[j].threads[t]) <= 9
  {
    StuckAtClose(ss, acts, i, t);
    FitsThroughout(ss, acts, i, j, t, ss[i].threads[t].at, Load(ss[i], t));
  }

  /** As long as at most one thread waits on each end, a close leaves nobody asleep. */
  lemma CloseLeavesNobodyAsleep(ss: seq<State>, acts: seq<Act>, i: nat, t: nat)
    requires LoneRun(ss, acts, i + 1) && acts[i].Close? && t < |ss[i + 1].threads|
    ensures !ss[i + 1].threads[t].ReadSleeping? && !ss[i + 1].threads[t].WriteSleeping?
  {
    assert StepAt(ss, acts, i);
    assert OneWaiter(ss[i]);
    WakeAlways(ss, acts, i);
    WakeCloses(ss[i], acts[i].e, acts[i].wake, ss[i + 1]);
    var th := ss[i + 1].threads[t];
    var e := if th.Off? then Left else th.at;
    assert !ReaderAsleep(ss[i + 1], e) && !WriterAsleep(ss[i + 1], e);
  }

  /** What a close makes of two sleepers on the other end: it may wake the one and forget a reader. */
  lemma CloseForgets(s: State, o: End, r: nat, w: nat) returns (s': State)
    requires s.lock.None? && !Of(s, o).closed && !Of(s, Other(o)).closed && Vacant(s, o) && Of(s, Other(o)).sleepRead
    requires r < |s.threads| && w < |s.threads| && r != w
    requires s.threads[r].ReadSleeping? && s.threads[r].at == Other(o) && SleepsOn(s.threads[w], Other(o))
    ensures Next(s, Close(o, w), s') && Deserted(s', o) && s'.threads[r] == s.threads[r] && Forgotten(s', r)
  {
    var c := With(s, o, Of(s, o).(closed := true));
    s' := c.(threads := c.threads[w := Awoken(c.threads[w])]);
    forall i | 0 <= i < |s.threads| ensures !CallsOn(s'.threads[i], o) {
      assert !CallsOn(s.threads[i], o);
    }
  }

  /** Who is asleep on the end of a pipe whose other end is deserted. */
  ghost predicate AsleepAlone(s: State, r: nat, e: End) {
    Deserted(s, Other(e)) && r < |s.threads| && SleepsOn(s.threads[r], e)
  }

  lemma WriterOnWidowed(s: State, t: nat, wake: nat, s': State, e: End)
    requires Deserted(s, Other(e)) && Next(s, Go(t, wake), s') && Writing(s.threads[t]) && s.threads[t].at == e
    ensures Deserted(s', Other(e)) && s'.threads == s.threads[t := s'.threads[t]]
  {
    OwnStep(s, t, wake, s');
    MoveDeserted(s, t, s'.threads[t], s', Other(e));
  }

  lemma SleepsOnThrough(s: State, a: Act, s': State, r: nat, e: End)
    requires AsleepAlone(s, r, e) && Next(s, a, s')
    ensures AsleepAlone(s', r, e) && s'.threads[r] == s.threads[r]
  {
    assert CallsOn(s.threads[r], e);
    match a
    case Read(u, x, len) => MoveDeserted(s, u, ReadCall(x, len), s', Other(e));
    case Write(u, x, data) => MoveDeserted(s, u, WriteCall(x, data), s', Other(e));
    case Go(u, wake) =>
      if Writing(s.threads[u]) {
        assert !EnteredOn(s.threads[u], Other(e));
        WriterOnWidowed(s, u, wake, s', e);
      } else {
        OthersMove(s, u, wake, s', Other(e));
        MoveDeserted(s, u, s'.threads[u], s', Other(e));
      }
    case Close(x, wake) =>
    case Select(x, b, w) =>
  }

  /** A thread that is asleep when the other end is deserted never wakes. */
  lemma {:induction false} AsleepForGood(ss: seq<State>, acts: seq<Act>, i: nat, j: nat, r: nat, e: End)
    requires IsRun(ss, acts) && i <= j < |ss| && AsleepAlone(ss[i], r, e)
    ensures AsleepAlone(ss[j], r, e) && ss[j].threads[r] == ss[i].threads[r]
    decreases j
  {
    if i < j {
      AsleepForGood(ss, acts, i, j - 1, r, e);
      assert StepAt(ss, acts, j - 1);
      SleepsOnThrough(ss[j - 1], acts[j - 1], ss[j], r, e);
    }
  }
}
