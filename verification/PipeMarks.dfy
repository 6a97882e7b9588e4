/** The marks of an end that tell of sleepers are never left behind: in every run, with any number of
    threads, a marked end has a thread that waits there. */
module PipeMarks {
  import opened PipeMachine

  /** The thread waits for bytes on the end, asleep or just woken. */
  predicate WaitsToRead(th: Thread, e: End) {
    (th.ReadSleeping? || th.ReadWoken?) && th.at == e
  }

  predicate WaitsToWrite(th: Thread, e: End) {
    (th.WriteSleeping? || th.WriteWoken?) && th.at == e
  }

  ghost predicate ReaderWaits(s: State, e: End) {
    exists i :: 0 <= i < |s.threads| && WaitsToRead(s.threads[i], e)
  }

  ghost predicate WriterWaits(s: State, e: End) {
    exists i :: 0 <= i < |s.threads| && WaitsToWrite(s.threads[i], e)
  }

  ghost predicate MarksTrue(s: State, e: End) {
    (Of(s, e).sleepRead ==> ReaderWaits(s, e)) && (Of(s, e).sleepWrite ==> WriterWaits(s, e))
  }

  ghost predicate MarkInv(s: State) {
    MarksTrue(s, Left) && MarksTrue(s, Right)
  }

  /** The marks after a thread has moved: a new one tells of the thread, and one that told of it alone is
      off unless it waits on. */
  predicate MarksFollow(s: State, t: nat, th: Thread, s': State, e: End)
    requires t < |s.threads|
  {
    && (Of(s', e).sleepRead ==> (Of(s, e).sleepRead && !WaitsToRead(s.threads[t], e)) || WaitsToRead(th, e))
    && (Of(s', e).sleepWrite ==> (Of(s, e).sleepWrite && !WaitsToWrite(s.threads[t], e)) || WaitsToWrite(th, e))
  }

  lemma MarksMove(s: State, t: nat, th: Thread, s': State, e: End)
    requires MarksTrue(s, e) && t < |s.threads| && s'.threads == s.threads[t := th] && MarksFollow(s, t, th, s', e)
    ensures MarksTrue(s', e)
  {
    assert s'.threads[t] == th;
    forall i | 0 <= i < |s.threads| && i != t ensures s'.threads[i] == s.threads[i] {
    }
  }

  lemma MarksSignal(m: State, o: End, wake: nat, s': State)
    requires MarkInv(m) && Signals(m, o, wake, s')
    ensures MarkInv(s')
  {
    if wake < |m.threads| && SleepsOn(m.threads[wake], o) {
      MarksMove(m, wake, Awoken(m.threads[wake]), s', Left);
      MarksMove(m, wake, Awoken(m.threads[wake]), s', Right);
    }
  }

  /** A thread moves, and at most the flags of one end change. */
  lemma MarksFlags(s: State, t: nat, th: Thread, e: End, h: Half, s': State)
    requires MarkInv(s) && t < |s.threads| && s' == With(Move(s, t, th), e, h)
    requires MarksFollow(s, t, th, s', e)
    requires Waits(s.threads[t]) ==> s.threads[t].at == e
    ensures MarkInv(s')
  {
    MarksMove(s, t, th, s', e);
    assert Of(s', Other(e)) == Of(s, Other(e));
    MarksMove(s, t, th, s', Other(e));
    assert e == Left || e == Right;
  }

  predicate Waits(th: Thread) {
    th.ReadSleeping? || th.ReadWoken? || th.WriteSleeping? || th.WriteWoken?
  }

  /** A thread that does not wait moves on. */
  lemma MarksPass(s: State, t: nat, th: Thread, s': State)
    requires MarkInv(s) && t < |s.threads| && s' == Move(s, t, th) && !Waits(s.threads[t])
    ensures MarkInv(s')
  {
    MarksFlags(s, t, th, Left, Of(s, Left), s');
  }

  /** A thread looks for a sleeper on the other end, and finds a mark. */
  lemma MarksTaken(s: State, t: nat, th: Thread, o: End, h: Half, wake: nat, s': State)
    requires MarkInv(s) && t < |s.threads| && !Waits(s.threads[t])
    requires (h.sleepRead ==> Of(s, o).sleepRead) && (h.sleepWrite ==> Of(s, o).sleepWrite)
    requires Signals(With(Move(s, t, th), o, h), o, wake, s')
    ensures MarkInv(s')
  {
    MarksFlags(s, t, th, o, h, With(Move(s, t, th), o, h));
    MarksSignal(With(Move(s, t, th), o, h), o, wake, s');
  }

  lemma MarksReader(s: State, t: nat, wake: nat, s': State)
    requires MarkInv(s) && t < |s.threads| && Reads(s.threads[t]) && ReaderGoes(s, t, wake, s')
    ensures MarkInv(s')
  {
    var th := s.threads[t];
    var e, o := th.at, Other(th.at);
    if th.ReadSignal? && Of(s, o).sleepWrite {
      MarksTaken(s, t, Copying(e, th.len, th.got), o, Of(s, o).(sleepWrite := false), wake, s');
    } else if th.ReadWoken? {
      MarksFlags(s, t, Testing(e, th.len), e, Of(s, e).(sleepRead := false), s');
    } else if th.Testing? && Of(s, e).dataready == 0 && !Of(s, o).closed {
      MarksFlags(s, t, ReadSleeping(e, th.len), e, Of(s, e).(sleepRead := true), s');
    } else if th.Copying? && Of(s, e).queue != [] && th.len > 0 {
      MarksCopies(s, t, s');
    } else {
      MarksPass(s, t, s'.threads[t], s');
    }
  }

  lemma MarksCopies(s: State, t: nat, s': State)
    requires MarkInv(s) && t < |s.threads| && s.threads[t].Copying? && Of(s, s.threads[t].at).queue != []
    requires Copies(s, t, s')
    ensures MarkInv(s')
  {
    MarksFlags(s, t, s'.threads[t], s.threads[t].at, Of(s', s.threads[t].at), s');
  }

  lemma MarksFills(s: State, t: nat, s': State)
    requires MarkInv(s) && t < |s.threads| && s.threads[t].Filling? && Of(s, Other(s.threads[t].at)).dataready < MAX
    requires Fills(s, t, s')
    ensures MarkInv(s')
  {
    MarksFlags(s, t, s'.threads[t], Other(s.threads[t].at), Of(s', Other(s.threads[t].at)), s');
  }

  lemma MarksWriter(s: State, t: nat, wake: nat, s': State)
    requires MarkInv(s) && t < |s.threads| && Writes(s.threads[t]) && WriterGoes(s, t, wake, s')
    ensures MarkInv(s')
  {
    var th := s.threads[t];
    var e, o := th.at, Other(th.at);
    if th.WriteSignal? && Of(s, o).sleepRead {
      MarksTaken(s, t, Filling(e, th.rest), o, Of(s, o).(sleepRead := false), wake, s');
    } else if th.WriteWoken? {
      MarksFlags(s, t, Filling(e, th.rest), e, Of(s, e).(sleepWrite := false), s');
    } else if th.Filling? && th.rest != [] && Of(s, o).dataready >= MAX {
      MarksFlags(s, t, WriteSleeping(e, th.rest), e, Of(s, e).(sleepWrite := true), s');
    } else if th.Filling? && th.rest != [] {
      MarksFills(s, t, s');
    } else {
      MarksPass(s, t, s'.threads[t], s');
    }
  }

  lemma MarksClose(s: State, e: End, wake: nat, s': State)
    requires MarkInv(s) && Closes(s, e, wake, s')
    ensures MarkInv(s')
  {
    var c := With(s, e, Of(s, e).(closed := true));
    assert c.threads == s.threads;
    assert ReaderWaits(s, Left) ==> ReaderWaits(c, Left);
    assert ReaderWaits(s, Right) ==> ReaderWaits(c, Right);
    assert WriterWaits(s, Left) ==> WriterWaits(c, Left);
    assert WriterWaits(s, Right) ==> WriterWaits(c, Right);
    if s' != c { MarksSignal(c, Other(e), wake, s'); }
  }

  /** Every step of every thread keeps the marks true. */
  lemma MarksNext(s: State, a: Act, s': State)
    requires MarkInv(s) && Next(s, a, s')
    ensures MarkInv(s')
  {
    match a
    case Read(t, e, len) =>
      MarksMove(s, t, ReadCall(e, len), s', Left);
      MarksMove(s, t, ReadCall(e, len), s', Right);
    case Write(t, e, data) =>
      MarksMove(s, t, WriteCall(e, data), s', Left);
      MarksMove(s, t, WriteCall(e, data), s', Right);
    case Go(t, wake) => if Reads(s.threads[t]) { MarksReader(s, t, wake, s'); } else { MarksWriter(s, t, wake, s'); }
    case Close(e, wake) => MarksClose(s, e, wake, s');
    case Select(e, r, w) =>
      assert ReaderWaits(s, e) ==> ReaderWaits(s', e);
      assert WriterWaits(s, e) ==> WriterWaits(s', e);
      assert ReaderWaits(s, Other(e)) ==> ReaderWaits(s', Other(e));
      assert WriterWaits(s, Other(e)) ==> WriterWaits(s', Other(e));
  }

  /** In every run of any number of threads, a mark tells of a thread that waits. */
  lemma {:induction false} MarksAlways(ss: seq<State>, acts: seq<Act>, i: nat)
    requires IsRun(ss, acts) && i < |ss|
    ensures MarkInv(ss[i])
  {
    if i > 0 {
      MarksAlways(ss, acts, i - 1);
      assert StepAt(ss, acts, i - 1);
      MarksNext(ss[i - 1], acts[i - 1], ss[i]);
    }
  }
}
