/** A pipe (com/pipe_io.c) as interleaved steps of any number of threads that read and write on both of
    its ends. A thread holds the shared lock from one step to the next wherever the source does. */
module PipeMachine {
  import opened Common

  const MAX: nat := 512

  type Byte = bv8

  /** The two ends of a pipe, each the sister of the other. */
  datatype End = Left | Right

  function Other(e: End): End {
    if e.Left? then Right else Left
  }

  /** Where a thread is, and the end it was called on. The states named in `Holds` have the lock.
      `Sleeping` and `Woken` are the two halves of waiting on the condition variable of the end,
      `Notifying` is the window in which the source drops the lock to notify listeners. */
  datatype Thread =
    | Off
    | ReadCall(at: End, len: nat)
    | Testing(at: End, len: nat)
    | ReadSleeping(at: End, len: nat)
    | ReadWoken(at: End, len: nat)
    | Copying(at: End, len: nat, got: nat)
    | Drained(at: End, len: nat, got: nat)
    | ReadNotifying(at: End, len: nat, got: nat)
    | ReadSignal(at: End, len: nat, got: nat)
    | WriteCall(at: End, rest: seq<Byte>)
    | Filling(at: End, rest: seq<Byte>)
    | WriteSleeping(at: End, rest: seq<Byte>)
    | WriteWoken(at: End, rest: seq<Byte>)
    | Filled(at: End, rest: seq<Byte>)
    | WriteNotifying(at: End, rest: seq<Byte>)
    | WriteSignal(at: End, rest: seq<Byte>)

  /** One end: what it has to read, and its flags. An end is widowed when the other is closed. sent and
      received are the bytes put into and taken out of its queue so far, in order. */
  datatype Half = Half(
    queue: seq<seq<Byte>>, dataready: int, closed: bool, sleepRead: bool, sleepWrite: bool, readSel: bool,
    writeSel: bool, sent: seq<Byte>, received: seq<Byte>)

  datatype State = State(threads: seq<Thread>, lock: Option<nat>, left: Half, right: Half)

  function Of(s: State, e: End): Half {
    if e.Left? then s.left else s.right
  }

  function With(s: State, e: End, h: Half): State {
    if e.Left? then s.(left := h) else s.(right := h)
  }

  /** A thread starts a call or goes on with it; if it signals, `wake` is the thread that wakes. */
  datatype Act =
    | Read(t: nat, e: End, len: nat)
    | Write(t: nat, e: End, data: seq<Byte>)
    | Go(t: nat, wake: nat)
    | Close(e: End, wake: nat)
    | Select(e: End, readSel: bool, writeSel: bool)

  predicate Holds(th: Thread) {
    || th.Testing? || th.Copying? || th.Drained? || th.ReadSignal?
    || th.Filling? || th.Filled? || th.WriteSignal?
  }

  predicate Reads(th: Thread) {
    || th.ReadCall? || th.Testing? || th.ReadSleeping? || th.ReadWoken?
    || th.Copying? || th.Drained? || th.ReadNotifying? || th.ReadSignal?
  }

  predicate Writes(th: Thread) {
    !th.Off? && !Reads(th)
  }

  /** The thread is in a call on the end. */
  predicate CallsOn(th: Thread, e: End) {
    !th.Off? && th.at == e
  }

  predicate SleepsOn(th: Thread, e: End) {
    (th.ReadSleeping? || th.WriteSleeping?) && th.at == e
  }

  function Flatten(q: seq<seq<Byte>>): seq<Byte> {
    if q == [] then [] else q[0] + Flatten(q[1..])
  }

  /** Thread t moves to th and keeps the lock, takes it, or gives it up. */
  function Move(s: State, t: nat, th: Thread): State
    requires t < |s.threads|
  {
    s.(threads := s.threads[t := th], lock := if Holds(th) then Some(t) else None)
  }

  /** A sleeper that was signalled. */
  function Awoken(th: Thread): Thread
    requires th.ReadSleeping? || th.WriteSleeping?
  {
    if th.ReadSleeping? then ReadWoken(th.at, th.len) else WriteWoken(th.at, th.rest)
  }

  /** A signal to the condition variable of an end wakes one thread that sleeps there, reader or writer,
      if there is one. */
  ghost predicate Signals(s: State, e: End, wake: nat, s': State) {
    && (forall i :: 0 <= i < |s.threads| && SleepsOn(s.threads[i], e) ==>
          wake < |s.threads| && SleepsOn(s.threads[wake], e))
    && (wake < |s.threads| && SleepsOn(s.threads[wake], e) ==>
          s' == s.(threads := s.threads[wake := Awoken(s.threads[wake])]))
    && (!(wake < |s.threads| && SleepsOn(s.threads[wake], e)) ==> s' == s)
  }

  /** pipe_read, step by step. */
  ghost predicate ReaderGoes(s: State, t: nat, wake: nat, s': State)
    requires t < |s.threads| && Reads(s.threads[t])
  {
    var e := s.threads[t].at;
    var me, sister := Of(s, e), Of(s, Other(e));
    match s.threads[t]
    case ReadCall(_, len) =>
      s.lock.None? && s' == Move(s, t, if me.closed then Off else Testing(e, len))
    case Testing(_, len) =>
      && (me.dataready == 0 && sister.closed ==> s' == Move(s, t, Off))
      && (me.dataready == 0 && !sister.closed ==>
            s' == With(Move(s, t, ReadSleeping(e, len)), e, me.(sleepRead := true)))
      && (me.dataready != 0 ==> s' == Move(s, t, Copying(e, len, 0)))
    case ReadSleeping(_, len) => false
    case ReadWoken(_, len) =>
      s.lock.None? && s' == With(Move(s, t, Testing(e, len)), e, me.(sleepRead := false))
    case Copying(_, len, got) =>
      && (me.queue == [] || len == 0 ==> s' == Move(s, t, Off))
      && (me.queue != [] && len > 0 ==> Copies(s, t, s'))
    case Drained(_, len, got) =>
      s' == Move(s, t, if sister.writeSel then ReadNotifying(e, len, got) else ReadSignal(e, len, got))
    case ReadNotifying(_, len, got) => s.lock.None? && s' == Move(s, t, ReadSignal(e, len, got))
    case ReadSignal(_, len, got) =>
      && (sister.sleepWrite ==> Signals(
            With(Move(s, t, Copying(e, len, got)), Other(e), sister.(sleepWrite := false)), Other(e), wake, s'))
      && (!sister.sleepWrite ==> s' == Move(s, t, Copying(e, len, got)))
  }

  /** What is left after a read of count bytes of the first buffer. */
  function Taken(h: Half, count: nat): Half
    requires h.queue != [] && count <= |h.queue[0]|
  {
    h.(queue := if count == |h.queue[0]| then h.queue[1..] else [h.queue[0][count..]] + h.queue[1..],
       dataready := h.dataready - count,
       received := h.received + h.queue[0][..count])
  }

  /** One round of the copy loop of pipe_read. */
  ghost predicate Copies(s: State, t: nat, s': State)
    requires t < |s.threads| && s.threads[t].Copying? && Of(s, s.threads[t].at).queue != []
  {
    var th := s.threads[t];
    var me := Of(s, th.at);
    var count := Least(th.len, |me.queue[0]|);
    s' == With(Move(s, t, Drained(th.at, th.len - count, th.got + count)), th.at, Taken(me, count))
  }

  /** pipe_write, step by step. */
  ghost predicate WriterGoes(s: State, t: nat, wake: nat, s': State)
    requires t < |s.threads| && Writes(s.threads[t])
  {
    var e := s.threads[t].at;
    var me, sister := Of(s, e), Of(s, Other(e));
    match s.threads[t]
    case WriteCall(_, rest) =>
      s.lock.None? && s' == Move(s, t, if me.closed || sister.closed then Off else Filling(e, rest))
    case Filling(_, rest) =>
      && (rest == [] ==> s' == Move(s, t, Off))
      && (rest != [] && sister.dataready >= MAX ==>
            s' == With(Move(s, t, WriteSleeping(e, rest)), e, me.(sleepWrite := true)))
      && (rest != [] && sister.dataready < MAX ==> Fills(s, t, s'))
    case WriteSleeping(_, rest) => false
    case WriteWoken(_, rest) =>
      s.lock.None? && s' == With(Move(s, t, Filling(e, rest)), e, me.(sleepWrite := false))
    case Filled(_, rest) =>
      s' == Move(s, t, if sister.readSel then WriteNotifying(e, rest) else WriteSignal(e, rest))
    case WriteNotifying(_, rest) => s.lock.None? && s' == Move(s, t, WriteSignal(e, rest))
    case WriteSignal(_, rest) =>
      && (sister.sleepRead ==> Signals(
            With(Move(s, t, Filling(e, rest)), Other(e), sister.(sleepRead := false)), Other(e), wake, s'))
      && (!sister.sleepRead ==> s' == Move(s, t, Filling(e, rest)))
  }

  /** The end with one more buffer. */
  function Stuffed(h: Half, data: seq<Byte>): Half {
    h.(queue := h.queue + [data], dataready := h.dataready + |data|, sent := h.sent + data)
  }

  /** One round of the loop of pipe_write. */
  ghost predicate Fills(s: State, t: nat, s': State)
    requires t < |s.threads| && s.threads[t].Filling? && Of(s, Other(s.threads[t].at)).dataready < MAX
  {
    var e, rest := s.threads[t].at, s.threads[t].rest;
    var sister := Of(s, Other(e));
    var count := if MAX - sister.dataready > |rest| then |rest| else MAX - sister.dataready;
    s' == With(Move(s, t, Filled(e, rest[count..])), Other(e), Stuffed(sister, rest[..count]))
  }

  /** Both ends are closed, and the pipe is freed. */
  predicate Gone(s: State) {
    s.left.closed && s.right.closed
  }

  /** Nobody is in a call on the end. */
  ghost predicate Vacant(s: State, e: End) {
    forall i :: 0 <= i < |s.threads| ==> !CallsOn(s.threads[i], e)
  }

  ghost predicate Next(s: State, a: Act, s': State) {
    match a
    case Read(t, e, len) =>
      !Gone(s) && t < |s.threads| && s.threads[t].Off? && s' == s.(threads := s.threads[t := ReadCall(e, len)])
    case Write(t, e, data) =>
      !Gone(s) && t < |s.threads| && s.threads[t].Off? && s' == s.(threads := s.threads[t := WriteCall(e, data)])
    case Go(t, wake) =>
      && t < |s.threads| && !s.threads[t].Off?
      && (Reads(s.threads[t]) ==> ReaderGoes(s, t, wake, s'))
      && (Writes(s.threads[t]) ==> WriterGoes(s, t, wake, s'))
    case Close(e, wake) => Closes(s, e, wake, s')
    case Select(e, r, w) => s.lock.None? && s' == With(s, e, Of(s, e).(readSel := r, writeSel := w))
  }

  /** The last release of an end: its sister is widowed, and signalled once if anyone is marked as asleep
      there; if it is closed already, the pipe is freed. */
  ghost predicate Closes(s: State, e: End, wake: nat, s': State) {
    var c := With(s, e, Of(s, e).(closed := true));
    var sister := Of(s, Other(e));
    && s.lock.None? && !Of(s, e).closed && Vacant(s, e)
    && (sister.closed ==> Vacant(s, Other(e)) && s' == c)
    && (!sister.closed && (sister.sleepRead || sister.sleepWrite) ==> Signals(c, Other(e), wake, s'))
    && (!sister.closed && !sister.sleepRead && !sister.sleepWrite ==> s' == c)
  }

  const EMPTY := Half([], 0, false, false, false, false, false, [], [])

  ghost predicate Init(s: State) {
    s == State(s.threads, None, EMPTY, EMPTY) && forall i :: 0 <= i < |s.threads| ==> s.threads[i].Off?
  }

  /** Step i leads from state i to state i + 1. */
  ghost predicate StepAt(ss: seq<State>, acts: seq<Act>, i: nat)
    requires i < |acts| < |ss|
  {
    Next(ss[i], acts[i], ss[i + 1])
  }

  ghost predicate IsRun(ss: seq<State>, acts: seq<Act>) {
    && |ss| == |acts| + 1 && Init(ss[0])
    && (forall i: nat {:trigger StepAt(ss, acts, i)} :: i < |acts| ==> StepAt(ss, acts, i))
  }

  /** A step of thread t. */
  predicate OwnAct(a: Act, t: nat) {
    a.Go? && a.t == t
  }

  /** The thread is in a call in all states between i and j. */
  ghost predicate Busy(ss: seq<State>, i: nat, j: nat, t: nat)
    requires j <= |ss|
  {
    forall k :: i < k < j ==> t < |ss[k].threads| && !ss[k].threads[t].Off?
  }

  /** A signal changes at most the waiting of one thread. */
  lemma SignalWakes(m: State, e: End, wake: nat, s': State, t: nat)
    requires Signals(m, e, wake, s') && t < |m.threads|
    ensures |s'.threads| == |m.threads| && s'.left == m.left && s'.right == m.right
    ensures s'.threads[t] == m.threads[t] || (SleepsOn(m.threads[t], e) && t == wake
                                              && s'.threads[t] == Awoken(m.threads[t]))
  {
  }

  /** The thread that has the lock is the one whose state says so. */
  ghost predicate LockInv(s: State) {
    && (forall i :: 0 <= i < |s.threads| && Holds(s.threads[i]) ==> s.lock == Some(i))
    && (s.lock.Some? ==> s.lock.value < |s.threads| && Holds(s.threads[s.lock.value]))
  }

  /** What is queued and what has come out is what went in, in order. */
  ghost predicate DataInv(h: Half) {
    && h.sent == h.received + Flatten(h.queue)
    && h.dataready == |Flatten(h.queue)| <= MAX
    && (forall i :: 0 <= i < |h.queue| ==> |h.queue[i]| > 0)
  }

  /** A reader that has taken nothing yet and wants something has something to take. */
  ghost predicate CopyInv(s: State) {
    forall i :: 0 <= i < |s.threads| ==> CanCopy(s, s.threads[i])
  }

  ghost predicate CanCopy(s: State, th: Thread) {
    th.Copying? && th.got == 0 && th.len > 0 ==> Of(s, th.at).queue != []
  }

  ghost predicate DrainInv(th: Thread) {
    th.Drained? || th.ReadNotifying? || th.ReadSignal? ==> th.got > 0
  }

  ghost predicate Inv(s: State) {
    && LockInv(s) && DataInv(s.left) && DataInv(s.right) && CopyInv(s)
    && forall i :: 0 <= i < |s.threads| ==> DrainInv(s.threads[i])
  }

  lemma {:induction false} FlattenSnoc(q: seq<seq<Byte>>, c: seq<Byte>)
    ensures Flatten(q + [c]) == Flatten(q) + c
  {
    if q == [] {
      assert q + [c] == [c];
    } else {
      assert (q + [c])[1..] == q[1..] + [c];
      FlattenSnoc(q[1..], c);
    }
  }

  lemma FlattenEmpty(q: seq<seq<Byte>>)
    requires forall i :: 0 <= i < |q| ==> |q[i]| > 0
    ensures |Flatten(q)| == 0 <==> q == []
  {
    assert q == [] || |q[0]| > 0;
  }

  /** Taking count bytes off the first buffer takes them off the front of the pipe. */
  lemma FlattenTake(q: seq<seq<Byte>>, count: nat, q': seq<seq<Byte>>)
    requires q != [] && count <= |q[0]|
    requires q' == if count == |q[0]| then q[1..] else [q[0][count..]] + q[1..]
    ensures q[0][..count] + Flatten(q') == Flatten(q)
  {
    var first, rest, tail := q[0][..count], q[0][count..], Flatten(q[1..]);
    assert q[0] == first + rest;
    if count < |q[0]| {
      assert q'[0] == rest && q'[1..] == q[1..];
      assert first + (rest + tail) == (first + rest) + tail;
    } else {
      assert q[0] == first;
    }
  }

  /** A round of the copy loop takes the front of the bytes. */
  lemma DataTaken(h: Half, count: nat)
    requires DataInv(h) && h.queue != [] && count <= |h.queue[0]|
    ensures DataInv(Taken(h, count)) && h.queue[0][..count] + Flatten(Taken(h, count).queue) == Flatten(h.queue)
  {
    var h' := Taken(h, count);
    FlattenTake(h.queue, count, h'.queue);
    var first, rest := h.queue[0][..count], Flatten(h'.queue);
    assert h.received + (first + rest) == h.received + first + rest;
  }

  /** A round of the write loop adds to the end and respects the limit. */
  lemma DataStuffed(h: Half, data: seq<Byte>)
    requires DataInv(h) && data != [] && h.dataready + |data| <= MAX
    ensures DataInv(Stuffed(h, data)) && Flatten(Stuffed(h, data).queue) == Flatten(h.queue) + data
  {
    FlattenSnoc(h.queue, data);
    assert h.received + Flatten(h.queue) + data == h.received + (Flatten(h.queue) + data);
  }

  /** What a thread may move to, as far as the invariant is concerned. */
  ghost predicate Allowed(s: State, th: Thread) {
    DrainInv(th) && CanCopy(s, th)
  }

  /** Only the holder of the lock, or a thread that finds it free, moves. */
  lemma MoveInv(s: State, t: nat, th: Thread)
    requires Inv(s) && t < |s.threads| && (s.lock == Some(t) || s.lock.None?) && Allowed(s, th)
    ensures Inv(Move(s, t, th))
  {
    var m := Move(s, t, th);
    forall i | 0 <= i < |s.threads| ensures CanCopy(m, m.threads[i]) {
      assert i != t ==> CanCopy(s, s.threads[i]);
    }
  }

  /** The same with a change of a queue: the mover is the only thread that may be copying. */
  lemma MoveInvData(s: State, t: nat, th: Thread, e: End, h: Half)
    requires Inv(s) && t < |s.threads| && s.lock == Some(t) && DrainInv(th) && !th.Copying? && DataInv(h)
    ensures Inv(With(Move(s, t, th), e, h))
  {
    var s' := With(Move(s, t, th), e, h);
    forall i | 0 <= i < |s'.threads| ensures CanCopy(s', s'.threads[i]) {
      assert i != t ==> !Holds(s.threads[i]);
    }
  }

  lemma SignalInv(s: State, e: End, wake: nat, s': State)
    requires Inv(s) && Signals(s, e, wake, s')
    ensures Inv(s')
  {
    if s' != s {
      forall i | 0 <= i < |s'.threads| ensures CanCopy(s', s'.threads[i]) {
        assert i != wake ==> CanCopy(s, s.threads[i]);
      }
    }
  }

  predicate SameData(h: Half, h': Half) {
    h'.queue == h.queue && h'.dataready == h.dataready && h'.sent == h.sent && h'.received == h.received
  }

  lemma FlagsInv(s: State, e: End, h: Half)
    requires Inv(s) && SameData(Of(s, e), h)
    ensures Inv(With(s, e, h))
  {
    var s' := With(s, e, h);
    forall i | 0 <= i < |s'.threads| ensures CanCopy(s', s'.threads[i]) {
      assert CanCopy(s, s.threads[i]);
    }
  }

  lemma InvCopies(s: State, t: nat, s': State)
    requires Inv(s) && t < |s.threads| && s.threads[t].Copying? && s.threads[t].len > 0
    requires Of(s, s.threads[t].at).queue != [] && Copies(s, t, s')
    ensures Inv(s')
  {
    var th := s.threads[t];
    var me := Of(s, th.at);
    var count := Least(th.len, |me.queue[0]|);
    assert s.lock == Some(t) && DataInv(me) && |me.queue[0]| > 0;
    DataTaken(me, count);
    MoveInvData(s, t, Drained(th.at, th.len - count, th.got + count), th.at, Taken(me, count));
  }

  lemma InvCopying(s: State, t: nat, wake: nat, s': State)
    requires Inv(s) && t < |s.threads| && s.threads[t].Copying? && ReaderGoes(s, t, wake, s')
    ensures Inv(s')
  {
    var th := s.threads[t];
    assert s.lock == Some(t);
    if Of(s, th.at).queue == [] || th.len == 0 {
      MoveInv(s, t, Off);
    } else {
      InvCopies(s, t, s');
    }
  }

  lemma InvFilling(s: State, t: nat, wake: nat, s': State)
    requires Inv(s) && t < |s.threads| && s.threads[t].Filling? && WriterGoes(s, t, wake, s')
    ensures Inv(s')
  {
    var e, rest := s.threads[t].at, s.threads[t].rest;
    var sister := Of(s, Other(e));
    assert s.lock == Some(t);
    if rest == [] {
      MoveInv(s, t, Off);
    } else if sister.dataready >= MAX {
      MoveInv(s, t, WriteSleeping(e, rest));
      FlagsInv(Move(s, t, WriteSleeping(e, rest)), e, Of(s, e).(sleepWrite := true));
    } else {
      var count := if MAX - sister.dataready > |rest| then |rest| else MAX - sister.dataready;
      DataStuffed(sister, rest[..count]);
      MoveInvData(s, t, Filled(e, rest[count..]), Other(e), Stuffed(sister, rest[..count]));
    }
  }

  lemma InvTesting(s: State, t: nat, wake: nat, s': State)
    requires Inv(s) && t < |s.threads| && s.threads[t].Testing? && ReaderGoes(s, t, wake, s')
    ensures Inv(s')
  {
    var e, len := s.threads[t].at, s.threads[t].len;
    var me := Of(s, e);
    assert s.lock == Some(t);
    MoveInv(s, t, Off);
    if me.dataready == 0 {
      MoveInv(s, t, ReadSleeping(e, len));
      FlagsInv(Move(s, t, ReadSleeping(e, len)), e, me.(sleepRead := true));
    } else {
      MoveInv(s, t, Copying(e, len, 0));
    }
  }

  lemma InvReadSignal(s: State, t: nat, wake: nat, s': State)
    requires Inv(s) && t < |s.threads| && s.threads[t].ReadSignal? && ReaderGoes(s, t, wake, s')
    ensures Inv(s')
  {
    var th := s.threads[t];
    var o := Other(th.at);
    var sister := Of(s, o);
    assert s.lock == Some(t) && DrainInv(th);
    var m := Move(s, t, Copying(th.at, th.len, th.got));
    MoveInv(s, t, Copying(th.at, th.len, th.got));
    if sister.sleepWrite {
      FlagsInv(m, o, sister.(sleepWrite := false));
      SignalInv(With(m, o, sister.(sleepWrite := false)), o, wake, s');
    }
  }

  lemma InvWriteSignal(s: State, t: nat, wake: nat, s': State)
    requires Inv(s) && t < |s.threads| && s.threads[t].WriteSignal? && WriterGoes(s, t, wake, s')
    ensures Inv(s')
  {
    var th := s.threads[t];
    var o := Other(th.at);
    var sister := Of(s, o);
    var m := Move(s, t, Filling(th.at, th.rest));
    assert s.lock == Some(t);
    MoveInv(s, t, Filling(th.at, th.rest));
    if sister.sleepRead {
      FlagsInv(m, o, sister.(sleepRead := false));
      SignalInv(With(m, o, sister.(sleepRead := false)), o, wake, s');
    }
  }

  /** A reader that has to take the lock first. */
  lemma InvReaderEnters(s: State, t: nat, wake: nat, s': State)
    requires Inv(s) && t < |s.threads|
    requires s.threads[t].ReadCall? || s.threads[t].ReadWoken? || s.threads[t].ReadNotifying?
    requires ReaderGoes(s, t, wake, s')
    ensures Inv(s')
  {
    var th := s.threads[t];
    if th.ReadNotifying? {
      assert DrainInv(th);
      MoveInv(s, t, ReadSignal(th.at, th.len, th.got));
    } else {
      MoveInv(s, t, Off);
      MoveInv(s, t, Testing(th.at, th.len));
      FlagsInv(Move(s, t, Testing(th.at, th.len)), th.at, Of(s, th.at).(sleepRead := false));
    }
  }

  lemma InvDrained(s: State, t: nat, wake: nat, s': State)
    requires Inv(s) && t < |s.threads| && s.threads[t].Drained? && ReaderGoes(s, t, wake, s')
    ensures Inv(s')
  {
    var th := s.threads[t];
    assert s.lock == Some(t) && DrainInv(th);
    MoveInv(s, t, ReadNotifying(th.at, th.len, th.got));
    MoveInv(s, t, ReadSignal(th.at, th.len, th.got));
  }

  lemma InvReader(s: State, t: nat, wake: nat, s': State)
    requires Inv(s) && t < |s.threads| && Reads(s.threads[t]) && ReaderGoes(s, t, wake, s')
    ensures Inv(s')
  {
    var th := s.threads[t];
    if th.Testing? { InvTesting(s, t, wake, s'); }
    else if th.Copying? { InvCopying(s, t, wake, s'); }
    else if th.Drained? { InvDrained(s, t, wake, s'); }
    else if th.ReadSignal? { InvReadSignal(s, t, wake, s'); }
    else { InvReaderEnters(s, t, wake, s'); }
  }

  /** A writer that has to take the lock first. */
  lemma InvWriterEnters(s: State, t: nat, wake: nat, s': State)
    requires Inv(s) && t < |s.threads|
    requires s.threads[t].WriteCall? || s.threads[t].WriteWoken? || s.threads[t].WriteNotifying?
    requires WriterGoes(s, t, wake, s')
    ensures Inv(s')
  {
    var e, rest := s.threads[t].at, s.threads[t].rest;
    MoveInv(s, t, Off);
    MoveInv(s, t, Filling(e, rest));
    MoveInv(s, t, WriteSignal(e, rest));
    if s.threads[t].WriteWoken? { FlagsInv(Move(s, t, Filling(e, rest)), e, Of(s, e).(sleepWrite := false)); }
  }

  lemma InvFilled(s: State, t: nat, wake: nat, s': State)
    requires Inv(s) && t < |s.threads| && s.threads[t].Filled? && WriterGoes(s, t, wake, s')
    ensures Inv(s')
  {
    var e, rest := s.threads[t].at, s.threads[t].rest;
    assert s.lock == Some(t);
    MoveInv(s, t, WriteNotifying(e, rest));
    MoveInv(s, t, WriteSignal(e, rest));
  }

  lemma InvWriter(s: State, t: nat, wake: nat, s': State)
    requires Inv(s) && t < |s.threads| && Writes(s.threads[t]) && WriterGoes(s, t, wake, s')
    ensures Inv(s')
  {
    var th := s.threads[t];
    if th.Filling? { InvFilling(s, t, wake, s'); }
    else if th.Filled? { InvFilled(s, t, wake, s'); }
    else if th.WriteSignal? { InvWriteSignal(s, t, wake, s'); }
    else { InvWriterEnters(s, t, wake, s'); }
  }

  lemma InvCloses(s: State, e: End, wake: nat, s': State)
    requires Inv(s) && Closes(s, e, wake, s')
    ensures Inv(s')
  {
    var h := Of(s, e).(closed := true);
    FlagsInv(s, e, h);
    if s' != With(s, e, h) { SignalInv(With(s, e, h), Other(e), wake, s'); }
  }

  lemma InvCall(s: State, t: nat, th: Thread)
    requires Inv(s) && t < |s.threads| && s.threads[t].Off? && (th.ReadCall? || th.WriteCall?)
    ensures Inv(s.(threads := s.threads[t := th]))
  {
    var s' := s.(threads := s.threads[t := th]);
    forall i | 0 <= i < |s'.threads| ensures CanCopy(s', s'.threads[i]) {
      assert CanCopy(s, s.threads[i]);
    }
  }

  /** Every step of every thread keeps the invariant. */
  lemma InvNext(s: State, a: Act, s': State)
    requires Inv(s) && Next(s, a, s')
    ensures Inv(s')
  {
    match a
    case Read(t, e, len) => InvCall(s, t, ReadCall(e, len));
    case Write(t, e, data) => InvCall(s, t, WriteCall(e, data));
    case Go(t, wake) => if Reads(s.threads[t]) { InvReader(s, t, wake, s'); } else { InvWriter(s, t, wake, s'); }
    case Close(e, wake) => InvCloses(s, e, wake, s');
    case Select(e, r, w) => FlagsInv(s, e, Of(s, e).(readSel := r, writeSel := w));
  }

  lemma {:induction false} InvAlways(ss: seq<State>, acts: seq<Act>, i: nat)
    requires IsRun(ss, acts) && i < |ss|
    ensures Inv(ss[i])
  {
    if i > 0 {
      InvAlways(ss, acts, i - 1);
      assert StepAt(ss, acts, i - 1);
      InvNext(ss[i - 1], acts[i - 1], ss[i]);
    }
  }

  /** In every run of any number of threads, for either end: nothing is lost, added or reordered, and the
      end never holds more than MAXPIPEBUF bytes. */
  lemma BytesConserved(ss: seq<State>, acts: seq<Act>, i: nat, e: End)
    requires IsRun(ss, acts) && i < |ss|
    ensures Of(ss[i], e).sent == Of(ss[i], e).received + Flatten(Of(ss[i], e).queue)
    ensures Of(ss[i], e).dataready == |Flatten(Of(ss[i], e).queue)| <= MAX
  {
    InvAlways(ss, acts, i);
  }

  /** In every run, a read that was let in and wanted bytes returns none only when its end is empty and
      the other closed. */
  lemma EmptyReadMeansEnd(ss: seq<State>, acts: seq<Act>, i: nat, t: nat, wake: nat)
    requires IsRun(ss, acts) && i < |acts| && acts[i] == Go(t, wake)
    requires Returns(ss[i], t, ss[i + 1])
    ensures var th := ss[i].threads[t];
      && (th.Testing? || th.Copying?)
      && (th.Testing? ==> Of(ss[i], th.at).queue == [] && Of(ss[i], Other(th.at)).closed)
      && (th.Copying? && th.got == 0 ==> th.len == 0)
  {
    InvAlways(ss, acts, i);
    assert StepAt(ss, acts, i);
    ReturnPoints(ss[i], t, wake, ss[i + 1]);
  }

  /** A reader that has the lock ends its call. */
  ghost predicate Returns(s: State, t: nat, s': State) {
    t < |s.threads| == |s'.threads| && Holds(s.threads[t]) && Reads(s.threads[t]) && s'.threads[t].Off?
  }

  lemma ReturnPoints(s: State, t: nat, wake: nat, s': State)
    requires Inv(s) && Returns(s, t, s') && ReaderGoes(s, t, wake, s')
    ensures var th := s.threads[t];
      && (th.Testing? || th.Copying?)
      && (th.Testing? ==> Of(s, th.at).queue == [] && Of(s, Other(th.at)).closed)
      && (th.Copying? && th.got == 0 ==> th.len == 0)
  {
    var th := s.threads[t];
    if th.Testing? {
      FlattenEmpty(Of(s, th.at).queue);
    } else if th.Copying? {
      assert CanCopy(s, th);
    } else {
      GoesOn(s, t, wake, s');
    }
  }

  lemma GoesOn(s: State, t: nat, wake: nat, s': State)
    requires t < |s.threads| && (s.threads[t].Drained? || s.threads[t].ReadSignal?) && ReaderGoes(s, t, wake, s')
    ensures |s'.threads| == |s.threads| && !s'.threads[t].Off?
  {
  }
}
