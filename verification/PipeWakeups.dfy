/** When the wakeups of a pipe reach the sleepers they are meant for. The readers and the writers of an
    end share its condition variable, so that a signal may reach any of them. */
module PipeWakeups {
  import opened Common
  import opened PipeMachine

  /** The thread is asleep, or was signalled and has not gone on yet. */
  predicate Waits(th: Thread) {
    th.ReadSleeping? || th.WriteSleeping? || th.ReadWoken? || th.WriteWoken?
  }

  /** Both threads wait on the same end. */
  predicate WaitTogether(th: Thread, th': Thread) {
    Waits(th) && Waits(th') && th.at == th'.at
  }

  /** At most one thread waits on each end, whatever other calls are in progress. */
  ghost predicate OneWaiter(s: State) {
    forall i, j :: 0 <= i < |s.threads| && 0 <= j < |s.threads| && WaitTogether(s.threads[i], s.threads[j]) ==> i == j
  }

  predicate CallTogether(th: Thread, th': Thread) {
    !th.Off? && !th'.Off? && th.at == th'.at
  }

  /** At most one call is in progress on each end. */
  ghost predicate OneCall(s: State) {
    forall i, j :: 0 <= i < |s.threads| && 0 <= j < |s.threads| && CallTogether(s.threads[i], s.threads[j]) ==> i == j
  }

  /** The thread has changed what its sister sees and will look for a sleeper there before it does
      anything else. */
  predicate WakesReader(th: Thread) {
    th.Filled? || th.WriteNotifying? || th.WriteSignal?
  }

  predicate WakesWriter(th: Thread) {
    th.Drained? || th.ReadNotifying? || th.ReadSignal?
  }

  /** A thread on the other end is about to wake a reader of this one. */
  ghost predicate ReaderWakeComing(s: State, e: End) {
    exists i :: 0 <= i < |s.threads| && WakesReader(s.threads[i]) && s.threads[i].at == Other(e)
  }

  ghost predicate WriterWakeComing(s: State, e: End) {
    exists i :: 0 <= i < |s.threads| && WakesWriter(s.threads[i]) && s.threads[i].at == Other(e)
  }

  ghost predicate ReaderAsleep(s: State, e: End) {
    exists i :: 0 <= i < |s.threads| && s.threads[i].ReadSleeping? && s.threads[i].at == e
  }

  ghost predicate WriterAsleep(s: State, e: End) {
    exists i :: 0 <= i < |s.threads| && s.threads[i].WriteSleeping? && s.threads[i].at == e
  }

  /** There is nothing to read, or a reader is about to be woken. */
  ghost predicate NothingToRead(s: State, e: End) {
    Of(s, e).dataready == 0 || ReaderWakeComing(s, e)
  }

  ghost predicate NoRoomToWrite(s: State, e: End) {
    Of(s, Other(e)).dataready >= MAX || WriterWakeComing(s, e)
  }

  /** A sleeping reader is marked, has nothing to read unless it is about to be woken, and is not left
      behind by a sister that has closed. */
  ghost predicate ReadersWell(s: State, e: End) {
    ReaderAsleep(s, e) ==> Of(s, e).sleepRead && !Of(s, Other(e)).closed && NothingToRead(s, e)
  }

  /** A sleeping writer is marked and has no room unless it is about to be woken. */
  ghost predicate WritersWell(s: State, e: End) {
    WriterAsleep(s, e) ==> Of(s, e).sleepWrite && NoRoomToWrite(s, e)
  }

  ghost predicate WellAt(s: State, e: End) {
    ReadersWell(s, e) && WritersWell(s, e)
  }

  ghost predicate WakeInv(s: State) {
    WellAt(s, Left) && WellAt(s, Right)
  }

  /** A thread moves that does not fall asleep: who sleeps now slept before. */
  lemma AsleepBefore(s: State, t: nat, th: Thread, s': State, e: End)
    requires t < |s.threads| && s'.threads == s.threads[t := th]
    ensures ReaderAsleep(s', e) && !(th.ReadSleeping? && th.at == e) ==> ReaderAsleep(s, e)
    ensures WriterAsleep(s', e) && !(th.WriteSleeping? && th.at == e) ==> WriterAsleep(s, e)
  {
    forall i | 0 <= i < |s.threads| && i != t ensures s'.threads[i] == s.threads[i] {
    }
  }

  /** Where a thread goes without taking back that it is about to wake someone. */
  predicate Onward(th: Thread, th': Thread) {
    && (WakesReader(th) ==> WakesReader(th') && th'.at == th.at)
    && (WakesWriter(th) ==> WakesWriter(th') && th'.at == th.at)
  }

  /** The wakeups that were coming still are. */
  lemma StillComing(s: State, t: nat, th: Thread, s': State, e: End)
    requires t < |s.threads| && s'.threads == s.threads[t := th]
    ensures ReaderWakeComing(s, e) && (WakesReader(s.threads[t]) ==> WakesReader(th) && th.at == s.threads[t].at) ==>
      ReaderWakeComing(s', e)
    ensures WriterWakeComing(s, e) && (WakesWriter(s.threads[t]) ==> WakesWriter(th) && th.at == s.threads[t].at) ==>
      WriterWakeComing(s', e)
  {
    assert s'.threads[t] == th;
    forall i | 0 <= i < |s.threads| && i != t ensures s'.threads[i] == s.threads[i] {
    }
  }

  /** The marks of an end, and whether it is closed. */
  predicate SameMarks(h: Half, h': Half) {
    h'.sleepRead == h.sleepRead && h'.sleepWrite == h.sleepWrite && h'.closed == h.closed
  }

  predicate SameSides(s: State, s': State) {
    && SameMarks(s.left, s'.left) && SameMarks(s.right, s'.right)
    && s'.left.dataready == s.left.dataready && s'.right.dataready == s.right.dataready
  }

  /** A thread moves on, and neither marks nor counts change. */
  lemma MovesOn(s: State, t: nat, th: Thread, s': State)
    requires WakeInv(s) && t < |s.threads| && s'.threads == s.threads[t := th] && SameSides(s, s')
    requires Onward(s.threads[t], th) && !th.ReadSleeping? && !th.WriteSleeping?
    ensures WakeInv(s')
  {
    forall e: End ensures WellAt(s', e) {
      assert WellAt(s, e);
      AsleepBefore(s, t, th, s', e);
      StillComing(s, t, th, s', e);
    }
  }

  /** A thread that waited is the only one that did. */
  lemma OnlyWaiter(s: State, t: nat, th: Thread, s': State)
    requires OneWaiter(s) && t < |s.threads| && Waits(s.threads[t]) && s'.threads == s.threads[t := th]
    requires !th.ReadSleeping? && !th.WriteSleeping?
    ensures !ReaderAsleep(s', s.threads[t].at) && !WriterAsleep(s', s.threads[t].at)
  {
    forall i | 0 <= i < |s.threads| && i != t ensures s'.threads[i] == s.threads[i] {
      assert !WaitTogether(s.threads[t], s.threads[i]);
    }
  }

  /** A woken thread takes its mark off. */
  lemma WokenGoesOn(s: State, t: nat, th: Thread, h: Half, s': State)
    requires WakeInv(s) && OneWaiter(s) && t < |s.threads| && Waits(s.threads[t])
    requires !th.ReadSleeping? && !th.WriteSleeping?
    requires var e := s.threads[t].at;
      h.dataready == Of(s, e).dataready && h.closed == Of(s, e).closed && s' == With(Move(s, t, th), e, h)
    ensures WakeInv(s')
  {
    var e := s.threads[t].at;
    OnlyWaiter(s, t, th, s');
    assert WellAt(s', e);
    assert WellAt(s, Other(e));
    AsleepBefore(s, t, th, s', Other(e));
    StillComing(s, t, th, s', Other(e));
    assert WellAt(s', Other(e));
  }

  lemma ReaderFallsAsleep(s: State, t: nat, len: nat, s': State)
    requires WakeInv(s) && t < |s.threads| && s.threads[t].Testing?
    requires var e := s.threads[t].at;
      && Of(s, e).dataready == 0 && !Of(s, Other(e)).closed
      && s' == With(Move(s, t, ReadSleeping(e, len)), e, Of(s, e).(sleepRead := true))
    ensures WakeInv(s')
  {
    var th := ReadSleeping(s.threads[t].at, len);
    forall e: End ensures WellAt(s', e) {
      assert WellAt(s, e);
      AsleepBefore(s, t, th, s', e);
      StillComing(s, t, th, s', e);
    }
  }

  lemma WriterFallsAsleep(s: State, t: nat, rest: seq<Byte>, s': State)
    requires WakeInv(s) && t < |s.threads| && s.threads[t].Filling?
    requires var e := s.threads[t].at;
      && Of(s, Other(e)).dataready >= MAX
      && s' == With(Move(s, t, WriteSleeping(e, rest)), e, Of(s, e).(sleepWrite := true))
    ensures WakeInv(s')
  {
    var th := WriteSleeping(s.threads[t].at, rest);
    forall e: End ensures WellAt(s', e) {
      assert WellAt(s, e);
      AsleepBefore(s, t, th, s', e);
      StillComing(s, t, th, s', e);
    }
  }

  /** Bytes are taken: a writer of the sister is about to be woken, and where there was something to take
      no reader sleeps but one that is about to be woken as well. */
  lemma BytesTaken(s: State, t: nat, th: Thread, h: Half, s': State)
    requires WakeInv(s) && t < |s.threads| && s.threads[t].Copying? && WakesWriter(th) && th.at == s.threads[t].at
    requires Of(s, th.at).dataready > 0 && SameMarks(Of(s, th.at), h) && s' == With(Move(s, t, th), th.at, h)
    ensures WakeInv(s')
  {
    forall e: End ensures WellAt(s', e) {
      assert WellAt(s, e);
      AsleepBefore(s, t, th, s', e);
      StillComing(s, t, th, s', e);
      assert s'.threads[t] == th;
    }
  }

  /** Bytes are put in: a reader of the sister is about to be woken, and where there was room no writer
      sleeps but one that is about to be woken as well. */
  lemma BytesPut(s: State, t: nat, th: Thread, h: Half, s': State)
    requires WakeInv(s) && t < |s.threads| && s.threads[t].Filling? && WakesReader(th) && th.at == s.threads[t].at
    requires Of(s, Other(th.at)).dataready < MAX && SameMarks(Of(s, Other(th.at)), h)
    requires s' == With(Move(s, t, th), Other(th.at), h)
    ensures WakeInv(s')
  {
    forall e: End ensures WellAt(s', e) {
      assert WellAt(s, e);
      AsleepBefore(s, t, th, s', e);
      StillComing(s, t, th, s', e);
      assert s'.threads[t] == th;
    }
  }

  /** A signal leaves nobody asleep on the end. */
  lemma SignalReaches(m: State, e: End, wake: nat, s': State)
    requires OneWaiter(m) && Signals(m, e, wake, s')
    ensures !ReaderAsleep(s', e) && !WriterAsleep(s', e)
    ensures s'.left == m.left && s'.right == m.right
    ensures WellAt(m, Other(e)) ==> WellAt(s', Other(e))
  {
    if wake < |m.threads| && SleepsOn(m.threads[wake], e) {
      var th := Awoken(m.threads[wake]);
      OnlyWaiter(m, wake, th, s');
      AsleepBefore(m, wake, th, s', Other(e));
      StillComing(m, wake, th, s', Other(e));
    }
  }

  lemma MoveOneWaiter(s: State, t: nat, th: Thread, s': State)
    requires OneWaiter(s) && t < |s.threads| && !Waits(th) && s'.threads == s.threads[t := th]
    ensures OneWaiter(s')
  {
    forall i | 0 <= i < |s.threads| && i != t ensures s'.threads[i] == s.threads[i] {
    }
  }

  /** The end that looked for a sleeper has nobody waiting for it any more, the other is as before. */
  lemma SignalSent(s: State, t: nat, th: Thread, h: Half, wake: nat, s': State)
    requires WakeInv(s) && OneWaiter(s) && t < |s.threads| && !s.threads[t].Off? && !Waits(th)
    requires var o := Other(s.threads[t].at);
      && h.dataready == Of(s, o).dataready && h.closed == Of(s, o).closed
      && Signals(With(Move(s, t, th), o, h), o, wake, s')
    ensures WakeInv(s')
  {
    var e, o := s.threads[t].at, Other(s.threads[t].at);
    var m := With(Move(s, t, th), o, h);
    MoveOneWaiter(s, t, th, m);
    SignalReaches(m, o, wake, s');
    assert WellAt(s, e);
    AsleepBefore(s, t, th, m, e);
    WakesElsewhere(s, t, th, m, e);
    assert WellAt(m, e) && WellAt(s', o) && WellAt(s', e);
  }

  /** A thread on an end is not about to wake anyone there. */
  lemma WakesElsewhere(s: State, t: nat, th: Thread, m: State, e: End)
    requires t < |s.threads| && !s.threads[t].Off? && s.threads[t].at == e && m.threads == s.threads[t := th]
    ensures ReaderWakeComing(s, e) ==> ReaderWakeComing(m, e)
    ensures WriterWakeComing(s, e) ==> WriterWakeComing(m, e)
  {
    forall i | 0 <= i < |s.threads| && i != t ensures m.threads[i] == s.threads[i] {
    }
  }

  /** A thread that finds no mark goes on: nobody of the kind it looked for is asleep. */
  lemma NobodyMarked(s: State, t: nat, th: Thread, s': State)
    requires WakeInv(s) && t < |s.threads| && !s.threads[t].Off? && s' == Move(s, t, th) && !Waits(th)
    requires WakesReader(s.threads[t]) ==> !Of(s, Other(s.threads[t].at)).sleepRead
    requires WakesWriter(s.threads[t]) ==> !Of(s, Other(s.threads[t].at)).sleepWrite
    ensures WakeInv(s')
  {
    var x := s.threads[t].at;
    forall e: End ensures WellAt(s', e) {
      assert WellAt(s, e);
      AsleepBefore(s, t, th, s', e);
      StillComing(s, t, th, s', e);
      if e == x { WakesElsewhere(s, t, th, s', e); }
    }
  }

  lemma WakeTesting(s: State, t: nat, wake: nat, s': State)
    requires WakeInv(s) && t < |s.threads| && s.threads[t].Testing? && ReaderGoes(s, t, wake, s')
    ensures WakeInv(s')
  {
    var e, len := s.threads[t].at, s.threads[t].len;
    if Of(s, e).dataready != 0 {
      MovesOn(s, t, Copying(e, len, 0), s');
    } else if Of(s, Other(e)).closed {
      MovesOn(s, t, Off, s');
    } else {
      ReaderFallsAsleep(s, t, len, s');
    }
  }

  lemma WakeCopying(s: State, t: nat, wake: nat, s': State)
    requires Inv(s) && WakeInv(s) && t < |s.threads| && s.threads[t].Copying? && ReaderGoes(s, t, wake, s')
    ensures WakeInv(s')
  {
    var th := s.threads[t];
    var me := Of(s, th.at);
    if me.queue == [] || th.len == 0 {
      MovesOn(s, t, Off, s');
    } else {
      var count := Least(th.len, |me.queue[0]|);
      FlattenEmpty(me.queue);
      BytesTaken(s, t, Drained(th.at, th.len - count, th.got + count), Taken(me, count), s');
    }
  }

  lemma WakeReadSignal(s: State, t: nat, wake: nat, s': State)
    requires WakeInv(s) && OneWaiter(s) && t < |s.threads| && s.threads[t].ReadSignal? && ReaderGoes(s, t, wake, s')
    ensures WakeInv(s')
  {
    var th := s.threads[t];
    var sister := Of(s, Other(th.at));
    if sister.sleepWrite {
      SignalSent(s, t, Copying(th.at, th.len, th.got), sister.(sleepWrite := false), wake, s');
    } else {
      NobodyMarked(s, t, Copying(th.at, th.len, th.got), s');
    }
  }

  /** A reader takes the lock, or goes on to its signal. */
  lemma WakeReaderPlain(s: State, t: nat, wake: nat, s': State)
    requires WakeInv(s) && OneWaiter(s) && t < |s.threads|
    requires s.threads[t].ReadCall? || s.threads[t].ReadWoken? || s.threads[t].ReadNotifying? || s.threads[t].Drained?
    requires ReaderGoes(s, t, wake, s')
    ensures WakeInv(s')
  {
    var th := s.threads[t];
    if th.ReadWoken? {
      WokenGoesOn(s, t, Testing(th.at, th.len), Of(s, th.at).(sleepRead := false), s');
    } else {
      MovesOn(s, t, s'.threads[t], s');
    }
  }

  lemma WakeReader(s: State, t: nat, wake: nat, s': State)
    requires Inv(s) && WakeInv(s) && OneWaiter(s) && t < |s.threads| && Reads(s.threads[t])
    requires ReaderGoes(s, t, wake, s')
    ensures WakeInv(s')
  {
    var th := s.threads[t];
    if th.Testing? { WakeTesting(s, t, wake, s'); }
    else if th.Copying? { WakeCopying(s, t, wake, s'); }
    else if th.ReadSignal? { WakeReadSignal(s, t, wake, s'); }
    else { WakeReaderPlain(s, t, wake, s'); }
  }

  lemma WakeFilling(s: State, t: nat, wake: nat, s': State)
    requires WakeInv(s) && t < |s.threads| && s.threads[t].Filling? && WriterGoes(s, t, wake, s')
    ensures WakeInv(s')
  {
    var e, rest := s.threads[t].at, s.threads[t].rest;
    var sister := Of(s, Other(e));
    if rest == [] {
      MovesOn(s, t, Off, s');
    } else if sister.dataready >= MAX {
      WriterFallsAsleep(s, t, rest, s');
    } else {
      var count := if MAX - sister.dataready > |rest| then |rest| else MAX - sister.dataready;
      BytesPut(s, t, Filled(e, rest[count..]), Stuffed(sister, rest[..count]), s');
    }
  }

  lemma WakeWriteSignal(s: State, t: nat, wake: nat, s': State)
    requires WakeInv(s) && OneWaiter(s) && t < |s.threads| && s.threads[t].WriteSignal? && WriterGoes(s, t, wake, s')
    ensures WakeInv(s')
  {
    var th := s.threads[t];
    var sister := Of(s, Other(th.at));
    if sister.sleepRead {
      SignalSent(s, t, Filling(th.at, th.rest), sister.(sleepRead := false), wake, s');
    } else {
      NobodyMarked(s, t, Filling(th.at, th.rest), s');
    }
  }

  /** A writer takes the lock, or goes on to its signal. */
  lemma WakeWriterPlain(s: State, t: nat, wake: nat, s': State)
    requires WakeInv(s) && OneWaiter(s) && t < |s.threads|
    requires s.threads[t].WriteCall? || s.threads[t].WriteWoken? || s.threads[t].WriteNotifying? || s.threads[t].Filled?
    requires WriterGoes(s, t, wake, s')
    ensures WakeInv(s')
  {
    var th := s.threads[t];
    if th.WriteWoken? {
      WokenGoesOn(s, t, Filling(th.at, th.rest), Of(s, th.at).(sleepWrite := false), s');
    } else {
      MovesOn(s, t, s'.threads[t], s');
    }
  }

  lemma WakeWriter(s: State, t: nat, wake: nat, s': State)
    requires WakeInv(s) && OneWaiter(s) && t < |s.threads| && Writes(s.threads[t]) && WriterGoes(s, t, wake, s')
    ensures WakeInv(s')
  {
    var th := s.threads[t];
    if th.Filling? { WakeFilling(s, t, wake, s'); }
    else if th.WriteSignal? { WakeWriteSignal(s, t, wake, s'); }
    else { WakeWriterPlain(s, t, wake, s'); }
  }

  /** After a close nobody is asleep. */
  lemma WakeCloses(s: State, e: End, wake: nat, s': State)
    requires WakeInv(s) && OneWaiter(s) && Closes(s, e, wake, s')
    ensures forall x :: !ReaderAsleep(s', x) && !WriterAsleep(s', x)
    ensures WakeInv(s')
  {
    var c := With(s, e, Of(s, e).(closed := true));
    var o := Other(e);
    assert !ReaderAsleep(c, e) && !WriterAsleep(c, e);
    assert WellAt(s, o);
    assert ReaderAsleep(c, o) ==> ReaderAsleep(s, o);
    assert WriterAsleep(c, o) ==> WriterAsleep(s, o);
    if Of(s, o).closed {
      assert !ReaderAsleep(c, o) && !WriterAsleep(c, o);
    } else if Of(s, o).sleepRead || Of(s, o).sleepWrite {
      SignalReaches(c, o, wake, s');
      if wake < |c.threads| && SleepsOn(c.threads[wake], o) {
        AsleepBefore(c, wake, Awoken(c.threads[wake]), s', e);
      }
    }
    forall x: End ensures !ReaderAsleep(s', x) && !WriterAsleep(s', x) {
      assert x == e || x == o;
    }
  }

  lemma WakeCall(s: State, t: nat, th: Thread)
    requires WakeInv(s) && t < |s.threads| && s.threads[t].Off? && (th.ReadCall? || th.WriteCall?)
    ensures WakeInv(s.(threads := s.threads[t := th]))
  {
    MovesOn(s, t, th, s.(threads := s.threads[t := th]));
  }

  lemma WakeSelect(s: State, e: End, r: bool, w: bool)
    requires WakeInv(s)
    ensures WakeInv(With(s, e, Of(s, e).(readSel := r, writeSel := w)))
  {
    var s' := With(s, e, Of(s, e).(readSel := r, writeSel := w));
    forall x: End ensures WellAt(s', x) {
      assert WellAt(s, x);
    }
  }

  /** Every step from a state with at most one waiter on each end keeps the relation between sleepers,
      marks and data. */
  lemma WakeNext(s: State, a: Act, s': State)
    requires Inv(s) && WakeInv(s) && OneWaiter(s) && Next(s, a, s')
    ensures WakeInv(s')
  {
    match a
    case Read(t, e, len) => WakeCall(s, t, ReadCall(e, len));
    case Write(t, e, data) => WakeCall(s, t, WriteCall(e, data));
    case Go(t, wake) => if Reads(s.threads[t]) { WakeReader(s, t, wake, s'); } else { WakeWriter(s, t, wake, s'); }
    case Close(e, wake) => WakeCloses(s, e, wake, s');
    case Select(e, r, w) => WakeSelect(s, e, r, w);
  }

  /** A run in which there is never more than one waiter on an end before state i. */
  ghost predicate LoneRun(ss: seq<State>, acts: seq<Act>, i: nat) {
    IsRun(ss, acts) && i < |ss| && forall k :: 0 <= k < i ==> OneWaiter(ss[k])
  }

  lemma {:induction false} WakeAlways(ss: seq<State>, acts: seq<Act>, i: nat)
    requires LoneRun(ss, acts, i)
    ensures WakeInv(ss[i])
  {
    if i > 0 {
      WakeAlways(ss, acts, i - 1);
      InvAlways(ss, acts, i - 1);
      assert StepAt(ss, acts, i - 1);
      WakeNext(ss[i - 1], acts[i - 1], ss[i]);
    }
  }

  /** The thread sleeps on although what it waits for is there or can never come, and nobody is about to
      wake it. */
  ghost predicate Forgotten(s: State, t: nat)
    requires t < |s.threads|
  {
    var th := s.threads[t];
    || (th.ReadSleeping? && !ReaderWakeComing(s, th.at)
        && (Of(s, th.at).dataready > 0 || Of(s, Other(th.at)).closed))
    || (th.WriteSleeping? && !WriterWakeComing(s, th.at) && Of(s, Other(th.at)).dataready < MAX)
  }

  /** As long as at most one thread waits on each end, whatever other calls are in progress, no wakeup is
      lost: a reader sleeps only while there is nothing to read and the other end is open, a writer only
      while there is no room, unless a call on the other end is just about to wake it. */
  lemma NoLostWakeup(ss: seq<State>, acts: seq<Act>, i: nat, t: nat)
    requires LoneRun(ss, acts, i) && t < |ss[i].threads|
    ensures !Forgotten(ss[i], t)
    ensures SleepsOn(ss[i].threads[t], Left) || SleepsOn(ss[i].threads[t], Right) ==> Marked(ss[i], ss[i].threads[t])
  {
    WakeAlways(ss, acts, i);
    InvAlways(ss, acts, i);
    var th := ss[i].threads[t];
    if th.ReadSleeping? || th.WriteSleeping? { assert WellAt(ss[i], th.at); }
  }

  /** The sleeper is marked as one. */
  predicate Marked(s: State, th: Thread) {
    && (th.ReadSleeping? ==> Of(s, th.at).sleepRead)
    && (th.WriteSleeping? ==> Of(s, th.at).sleepWrite)
  }

  /** With at most one call in progress on each end there is at most one waiter. */
  lemma OneCallOneWaiter(s: State)
    requires OneCall(s)
    ensures OneWaiter(s)
  {
  }

  /** In every run with at most one call in progress on each end no wakeup is lost, and a reader and the
      writer that feeds it are never both asleep. */
  lemma OneCallEach(ss: seq<State>, acts: seq<Act>, i: nat, r: nat, w: nat)
    requires IsRun(ss, acts) && i < |ss| && (forall k :: 0 <= k <= i ==> OneCall(ss[k]))
    requires r < |ss[i].threads| && w < |ss[i].threads|
    ensures !Forgotten(ss[i], r)
    ensures ss[i].threads[r].ReadSleeping? && ss[i].threads[w].WriteSleeping? ==>
      ss[i].threads[w].at == ss[i].threads[r].at
  {
    forall k | 0 <= k < i ensures OneWaiter(ss[k]) { OneCallOneWaiter(ss[k]); }
    NoLostWakeup(ss, acts, i, r);
    NoLostWakeup(ss, acts, i, w);
    InvAlways(ss, acts, i);
    assert OneCall(ss[i]);
  }
}
