/** Runs that show what the pipe does not promise: wakeups for two threads that wait on one end, be they
    readers, writers or one of each, and the return of a call that is left behind by a close. */
module PipeLimits {
  import opened Common
  import opened PipeMachine
  import opened PipeWakeups
  import opened PipeClose

  /** Some run leads to the state. */
  ghost predicate Reachable(s: State) {
    exists ss, acts :: IsRun(ss, acts) && ss[|acts|] == s
  }

  lemma Extended(ss: seq<State>, acts: seq<Act>, a: Act, s': State) returns (ss': seq<State>, acts': seq<Act>)
    requires IsRun(ss, acts) && Next(ss[|acts|], a, s')
    ensures IsRun(ss', acts') && ss' == ss + [s'] && acts' == acts + [a]
  {
    ss', acts' := ss + [s'], acts + [a];
    forall i: nat | i < |acts'| ensures StepAt(ss', acts', i) {
      if i < |acts| { assert StepAt(ss, acts, i); }
    }
  }

  lemma ReachNext(s: State, a: Act, s': State)
    requires Reachable(s) && Next(s, a, s')
    ensures Reachable(s')
  {
    var ss, acts :| IsRun(ss, acts) && ss[|acts|] == s;
    var ss', acts' := Extended(ss, acts, a, s');
    assert IsRun(ss', acts') && ss'[|acts'|] == s';
  }

  function Zeros(n: nat): (z: seq<Byte>)
    ensures |z| == n
  {
    seq(n, i => 0)
  }

  lemma ZerosSplit(n: nat, k: nat)
    requires k <= n
    ensures Zeros(n)[..k] == Zeros(k) && Zeros(n)[k..] == Zeros(n - k)
  {
  }

  const START := State([Off, Off, Off], None, EMPTY, EMPTY)

  lemma Begin()
    ensures Reachable(START)
  {
    assert IsRun([START], []) && [START][0] == START;
  }

  // Two readers on the left, a writer of two bytes on the right.

  const MARKED := EMPTY.(sleepRead := true)
  const S1 := START.(threads := [ReadCall(Left, 1), Off, Off])
  const S2 := START.(threads := [Testing(Left, 1), Off, Off], lock := Some(0))
  const S3 := START.(threads := [ReadSleeping(Left, 1), Off, Off], left := MARKED)
  const S4 := S3.(threads := [ReadSleeping(Left, 1), ReadCall(Left, 1), Off])
  const S5 := S3.(threads := [ReadSleeping(Left, 1), Testing(Left, 1), Off], lock := Some(1))
  const S6 := S3.(threads := [ReadSleeping(Left, 1), ReadSleeping(Left, 1), Off])
  const S7 := S6.(threads := [ReadSleeping(Left, 1), ReadSleeping(Left, 1), WriteCall(Right, Zeros(2))])
  const S8 := S6.(threads := [ReadSleeping(Left, 1), ReadSleeping(Left, 1), Filling(Right, Zeros(2))], lock := Some(2))
  const S9 := S8.(threads := [ReadSleeping(Left, 1), ReadSleeping(Left, 1), Filled(Right, [])],
                  left := Stuffed(MARKED, Zeros(2)))
  const S10 := S9.(threads := [ReadSleeping(Left, 1), ReadSleeping(Left, 1), WriteSignal(Right, [])])
  const S11 := S9.(threads := [ReadWoken(Left, 1), ReadSleeping(Left, 1), Filling(Right, [])],
                   left := Stuffed(EMPTY, Zeros(2)))
  const S12 := S11.(threads := [ReadWoken(Left, 1), ReadSleeping(Left, 1), Off], lock := None)
  const S13 := S12.(threads := [Testing(Left, 1), ReadSleeping(Left, 1), Off], lock := Some(0))
  const S14 := S13.(threads := [Copying(Left, 1, 0), ReadSleeping(Left, 1), Off])
  const S15 := S13.(threads := [Drained(Left, 0, 1), ReadSleeping(Left, 1), Off],
                    left := Taken(Stuffed(EMPTY, Zeros(2)), 1))
  const S16 := S15.(threads := [ReadSignal(Left, 0, 1), ReadSleeping(Left, 1), Off])
  const S17 := S15.(threads := [Copying(Left, 0, 1), ReadSleeping(Left, 1), Off])
  const S18 := S15.(threads := [Off, ReadSleeping(Left, 1), Off], lock := None)

  lemma ReaderFallsAsleep()
    ensures Reachable(S3)
  {
    Begin();
    ReachNext(START, Read(0, Left, 1), S1);
    ReachNext(S1, Go(0, 3), S2);
    ReachNext(S2, Go(0, 3), S3);
  }

  lemma OtherReaderFallsAsleep()
    ensures Reachable(S6)
  {
    ReaderFallsAsleep();
    ReachNext(S3, Read(1, Left, 1), S4);
    ReachNext(S4, Go(1, 3), S5);
    ReachNext(S5, Go(1, 3), S6);
  }

  lemma WriterFills()
    ensures Reachable(S9)
  {
    OtherReaderFallsAsleep();
    ReachNext(S6, Write(2, Right, Zeros(2)), S7);
    ReachNext(S7, Go(2, 3), S8);
    ZerosSplit(2, 2);
    assert Fills(S8, 2, S9);
    ReachNext(S8, Go(2, 3), S9);
  }

  lemma WriterAtSignal()
    ensures Reachable(S10)
  {
    WriterFills();
    ReachNext(S9, Go(2, 3), S10);
  }

  lemma WriterSignals()
    ensures Reachable(S12)
  {
    WriterAtSignal();
    ReachNext(S10, Go(2, 0), S11);
    ReachNext(S11, Go(2, 3), S12);
  }

  lemma ReaderWakes()
    ensures Reachable(S14)
  {
    WriterSignals();
    ReachNext(S12, Go(0, 3), S13);
    ReachNext(S13, Go(0, 3), S14);
  }

  lemma ReaderTakesOne()
    ensures Reachable(S15)
  {
    ReaderWakes();
    assert Copies(S14, 0, S15);
    ReachNext(S14, Go(0, 3), S15);
  }

  lemma ReaderSignals()
    ensures Reachable(S17)
  {
    ReaderTakesOne();
    ReachNext(S15, Go(0, 3), S16);
    ReachNext(S16, Go(0, 3), S17);
  }

  /** With two readers on an end a wakeup is lost: both sleep, two bytes arrive and wake one reader, which
      takes one byte and leaves. The other sleeps on although a byte is there. */
  lemma TwoReadersLoseWakeup() returns (s: State)
    ensures Reachable(s) && s.threads == [Off, ReadSleeping(Left, 1), Off] && s.left.dataready == 1
    ensures Forgotten(s, 1) && !Marked(s, s.threads[1])
  {
    ReaderSignals();
    ReachNext(S17, Go(0, 3), S18);
    s := S18;
  }

  // Two writers on the left, a reader of two bytes on the right.

  const WAITING := EMPTY.(sleepWrite := true)
  const FULL := Stuffed(EMPTY, Zeros(512))
  const T1 := START.(threads := [Off, WriteCall(Left, Zeros(513)), Off])
  const T2 := START.(threads := [Off, Filling(Left, Zeros(513)), Off], lock := Some(1))
  const T3 := T2.(threads := [Off, Filled(Left, Zeros(1)), Off], right := FULL)
  const T4 := T3.(threads := [Off, WriteSignal(Left, Zeros(1)), Off])
  const T5 := T3.(threads := [Off, Filling(Left, Zeros(1)), Off])
  const T6 := T3.(threads := [Off, WriteSleeping(Left, Zeros(1)), Off], lock := None, left := WAITING)
  const T7 := T6.(threads := [Off, WriteSleeping(Left, Zeros(1)), WriteCall(Left, Zeros(1))])
  const T8 := T6.(threads := [Off, WriteSleeping(Left, Zeros(1)), Filling(Left, Zeros(1))], lock := Some(2))
  const T9 := T6.(threads := [Off, WriteSleeping(Left, Zeros(1)), WriteSleeping(Left, Zeros(1))])
  const T10 := T9.(threads := [ReadCall(Right, 2), WriteSleeping(Left, Zeros(1)), WriteSleeping(Left, Zeros(1))])
  const T11 := T9.(threads := [Testing(Right, 2), WriteSleeping(Left, Zeros(1)), WriteSleeping(Left, Zeros(1))],
                   lock := Some(0))
  const T12 := T11.(threads := [Copying(Right, 2, 0), WriteSleeping(Left, Zeros(1)), WriteSleeping(Left, Zeros(1))])
  const T13 := T11.(threads := [Drained(Right, 0, 2), WriteSleeping(Left, Zeros(1)), WriteSleeping(Left, Zeros(1))],
                    right := Taken(FULL, 2))
  const T14 := T13.(threads := [ReadSignal(Right, 0, 2), WriteSleeping(Left, Zeros(1)), WriteSleeping(Left, Zeros(1))])
  const T15 := T13.(threads := [Copying(Right, 0, 2), WriteWoken(Left, Zeros(1)), WriteSleeping(Left, Zeros(1))],
                    left := EMPTY)
  const T16 := T15.(threads := [Off, WriteWoken(Left, Zeros(1)), WriteSleeping(Left, Zeros(1))], lock := None)
  const T17 := T16.(threads := [Off, Filling(Left, Zeros(1)), WriteSleeping(Left, Zeros(1))], lock := Some(1))
  const T18 := T17.(threads := [Off, Filled(Left, []), WriteSleeping(Left, Zeros(1))],
                    right := Stuffed(Taken(FULL, 2), Zeros(1)))
  const T19 := T18.(threads := [Off, WriteSignal(Left, []), WriteSleeping(Left, Zeros(1))])
  const T20 := T18.(threads := [Off, Filling(Left, []), WriteSleeping(Left, Zeros(1))])
  const T21 := T18.(threads := [Off, Off, WriteSleeping(Left, Zeros(1))], lock := None)

  lemma FirstWriterEnters()
    ensures Reachable(T2)
  {
    Begin();
    ReachNext(START, Write(1, Left, Zeros(513)), T1);
    ReachNext(T1, Go(1, 3), T2);
  }

  lemma FirstWriterFills()
    ensures Reachable(T3)
  {
    FirstWriterEnters();
    ZerosSplit(513, 512);
    assert Fills(T2, 1, T3);
    ReachNext(T2, Go(1, 3), T3);
  }

  lemma FirstWriterFull()
    ensures Reachable(T4)
  {
    FirstWriterFills();
    ReachNext(T3, Go(1, 3), T4);
  }

  lemma FirstWriterSleeps()
    ensures Reachable(T6)
  {
    FirstWriterFull();
    ReachNext(T4, Go(1, 3), T5);
    ReachNext(T5, Go(1, 3), T6);
  }

  lemma SecondWriterSleeps()
    ensures Reachable(T9)
  {
    FirstWriterSleeps();
    ReachNext(T6, Write(2, Left, Zeros(1)), T7);
    ReachNext(T7, Go(2, 3), T8);
    ReachNext(T8, Go(2, 3), T9);
  }

  lemma ReaderEnters()
    ensures Reachable(T12)
  {
    SecondWriterSleeps();
    ReachNext(T9, Read(0, Right, 2), T10);
    ReachNext(T10, Go(0, 3), T11);
    ReachNext(T11, Go(0, 3), T12);
  }

  lemma ReaderTakesTwo()
    ensures Reachable(T13)
  {
    ReaderEnters();
    assert Copies(T12, 0, T13);
    ReachNext(T12, Go(0, 3), T13);
  }

  lemma ReaderAtSignal()
    ensures Reachable(T14)
  {
    ReaderTakesTwo();
    ReachNext(T13, Go(0, 3), T14);
  }

  lemma ReaderWakesOne()
    ensures Reachable(T16)
  {
    ReaderAtSignal();
    ReachNext(T14, Go(0, 1), T15);
    ReachNext(T15, Go(0, 3), T16);
  }

  lemma FirstWriterFinishes()
    ensures Reachable(T18)
  {
    ReaderWakesOne();
    ReachNext(T16, Go(1, 3), T17);
    ZerosSplit(1, 1);
    assert Fills(T17, 1, T18);
    ReachNext(T17, Go(1, 3), T18);
  }

  lemma FirstWriterSignals()
    ensures Reachable(T20)
  {
    FirstWriterFinishes();
    ReachNext(T18, Go(1, 3), T19);
    ReachNext(T19, Go(1, 3), T20);
  }

  /** With two writers on an end a wakeup is lost as well: both sleep, a read makes room for two bytes and
      wakes one writer, which adds its byte and leaves. The other sleeps on although there is room. */
  lemma TwoWritersLoseWakeup() returns (s: State)
    ensures Reachable(s) && s.threads == [Off, Off, WriteSleeping(Left, Zeros(1))] && s.right.dataready == 511
    ensures Forgotten(s, 2) && !Marked(s, s.threads[2])
  {
    FirstWriterSignals();
    ReachNext(T20, Go(1, 3), T21);
    s := T21;
  }

  // A writer and a reader on the left.

  const BOTH := EMPTY.(sleepRead := true, sleepWrite := true)
  const U1 := T6.(threads := [Off, WriteSleeping(Left, Zeros(1)), ReadCall(Left, 1)])
  const U2 := T6.(threads := [Off, WriteSleeping(Left, Zeros(1)), Testing(Left, 1)], lock := Some(2))
  const U3 := T6.(threads := [Off, WriteSleeping(Left, Zeros(1)), ReadSleeping(Left, 1)], left := BOTH)
  const U4 := U3.(threads := [WriteCall(Right, Zeros(1)), WriteSleeping(Left, Zeros(1)), ReadSleeping(Left, 1)])
  const U5 := U3.(threads := [Filling(Right, Zeros(1)), WriteSleeping(Left, Zeros(1)), ReadSleeping(Left, 1)],
                  lock := Some(0))
  const U6 := U5.(threads := [Filled(Right, []), WriteSleeping(Left, Zeros(1)), ReadSleeping(Left, 1)],
                  left := Stuffed(BOTH, Zeros(1)))
  const U7 := U6.(threads := [WriteSignal(Right, []), WriteSleeping(Left, Zeros(1)), ReadSleeping(Left, 1)])
  const U8 := U6.(threads := [Filling(Right, []), WriteWoken(Left, Zeros(1)), ReadSleeping(Left, 1)],
                  left := Stuffed(WAITING, Zeros(1)))
  const U9 := U8.(threads := [Off, WriteWoken(Left, Zeros(1)), ReadSleeping(Left, 1)], lock := None)
  const U10 := U9.(threads := [Off, Filling(Left, Zeros(1)), ReadSleeping(Left, 1)], lock := Some(1),
                   left := Stuffed(EMPTY, Zeros(1)))
  const U11 := U9.(threads := [Off, WriteSleeping(Left, Zeros(1)), ReadSleeping(Left, 1)])

  lemma BothSleep()
    ensures Reachable(U3)
  {
    FirstWriterSleeps();
    ReachNext(T6, Read(2, Left, 1), U1);
    ReachNext(U1, Go(2, 3), U2);
    ReachNext(U2, Go(2, 3), U3);
  }

  lemma OtherWriterEnters()
    ensures Reachable(U5)
  {
    BothSleep();
    ReachNext(U3, Write(0, Right, Zeros(1)), U4);
    ReachNext(U4, Go(0, 3), U5);
  }

  lemma ByteArrives()
    ensures Reachable(U6)
  {
    OtherWriterEnters();
    ZerosSplit(1, 1);
    assert Fills(U5, 0, U6);
    ReachNext(U5, Go(0, 3), U6);
  }

  lemma WrongOneWakes()
    ensures Reachable(U8)
  {
    ByteArrives();
    ReachNext(U6, Go(0, 3), U7);
    ReachNext(U7, Go(0, 1), U8);
  }

  lemma WrongOneGoesOn()
    ensures Reachable(U10)
  {
    WrongOneWakes();
    ReachNext(U8, Go(0, 3), U9);
    ReachNext(U9, Go(1, 3), U10);
  }

  lemma WrongOneSleepsAgain()
    ensures Reachable(U11)
  {
    WrongOneGoesOn();
    ReachNext(U10, Go(1, 3), U11);
  }

  /** With a reader and a writer on an end a wakeup is lost too, for they share its condition variable: both
      sleep, a byte arrives for the reader, and the signal wakes the writer, which still has no room. The
      reader sleeps on although the byte is there. */
  lemma ReaderAndWriterLoseWakeup() returns (s: State)
    ensures Reachable(s) && s.threads == [Off, WriteSleeping(Left, Zeros(1)), ReadSleeping(Left, 1)]
    ensures s.left.dataready == 1 && Forgotten(s, 2) && !Marked(s, s.threads[2])
  {
    WrongOneSleepsAgain();
    s := U11;
  }

  /** A run from the start in which the right end closes on a reader and a writer that sleep on the left,
      and the signal wakes the writer. By `AsleepForGood` the reader never wakes, although nothing can come
      any more. */
  lemma ReaderLeftBehind() returns (ss: seq<State>, acts: seq<Act>)
    ensures IsRun(ss, acts) && acts != [] && acts[|acts| - 1] == Close(Right, 1)
    ensures ss[|acts|].threads == [Off, WriteWoken(Left, Zeros(1)), ReadSleeping(Left, 1)]
    ensures AsleepAlone(ss[|acts|], 2, Left) && Forgotten(ss[|acts|], 2)
  {
    BothSleep();
    ss, acts :| IsRun(ss, acts) && ss[|acts|] == U3;
    var s' := CloseForgets(U3, Right, 2, 1);
    ss, acts := Extended(ss, acts, Close(Right, 1), s');
  }

  /** A run from the start in which the right end closes on a writer that has more to write than there is
      room; by `NoRoomNeverReturns` the call never returns. */
  lemma WriterLeftBehind() returns (ss: seq<State>, acts: seq<Act>, i: nat, t: nat)
    ensures ClosesOn(ss, acts, i, t) && i + 1 == |acts| && ss[i].threads[t].WriteSleeping? && Load(ss[i], t) > MAX
  {
    FirstWriterSleeps();
    ss, acts :| IsRun(ss, acts) && ss[|acts|] == T6;
    i, t := |acts|, 1;
    var s' := T6.(threads := [Off, WriteWoken(Left, Zeros(1)), Off], right := FULL.(closed := true));
    assert Next(T6, Close(Right, 1), s');
    ss, acts := Extended(ss, acts, Close(Right, 1), s');
  }
}
