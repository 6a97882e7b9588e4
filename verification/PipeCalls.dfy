/** What a call transfers: a write puts in the bytes it was given, a read takes out bytes up to the number
    it was asked for, whatever other calls are in progress. */
module PipeCalls {
  import opened Common
  import opened PipeMachine

  /** What a write call has still to put in. */
  function RestOf(th: Thread): seq<Byte> {
    if Writes(th) then th.rest else []
  }

  /** What a read call has taken so far, and what it still wants. */
  function GotOf(th: Thread): nat {
    if th.Copying? || th.Drained? || th.ReadNotifying? || th.ReadSignal? then th.got else 0
  }

  function WantOf(th: Thread): nat {
    if Reads(th) then th.len else 0
  }

  /** The act is a step of a write call on the end, or of a read call. */
  predicate WritesHere(s: State, a: Act, e: End) {
    a.Go? && a.t < |s.threads| && Writes(s.threads[a.t]) && s.threads[a.t].at == e
  }

  predicate ReadsHere(s: State, a: Act, e: End) {
    a.Go? && a.t < |s.threads| && Reads(s.threads[a.t]) && s.threads[a.t].at == e
  }

  /** What b has more than a. */
  function More(a: seq<Byte>, b: seq<Byte>): seq<Byte> {
    if a <= b then b[|a|..] else []
  }

  lemma MoreAfter(a: seq<Byte>, b: seq<Byte>)
    requires a <= b
    ensures a + More(a, b) == b
  {
  }

  /** The call is the same, perhaps woken: nothing of what it has to do changed. */
  predicate SameCall(th: Thread, th': Thread) {
    || th' == th
    || (th.ReadSleeping? && th' == ReadWoken(th.at, th.len))
    || (th.WriteSleeping? && th' == WriteWoken(th.at, th.rest))
  }

  /** Both ends have the bytes they had. */
  predicate SameBytes(s: State, s': State) {
    && s'.left.sent == s.left.sent && s'.left.received == s.left.received
    && s'.right.sent == s.right.sent && s'.right.received == s.right.received
  }

  /** A step of a write call past its entry: what it has put in and what it has still to put in are the
      same together, and it ends only with nothing left. No other bytes move. */
  ghost predicate WriterPuts(s: State, t: nat, s': State)
    requires t < |s.threads| == |s'.threads| && Writes(s.threads[t])
  {
    var e, o := s.threads[t].at, Other(s.threads[t].at);
    && (s'.threads[t].Off? || (Writes(s'.threads[t]) && s'.threads[t].at == e))
    && Of(s, o).sent <= Of(s', o).sent && Of(s', o).received == Of(s, o).received
    && Of(s', e).sent == Of(s, e).sent && Of(s', e).received == Of(s, e).received
    && (!s.threads[t].WriteCall? ==> Of(s', o).sent + RestOf(s'.threads[t]) == Of(s, o).sent + s.threads[t].rest)
    && (s.threads[t].WriteCall? ==> Of(s', o).sent == Of(s, o).sent)
    && (s.threads[t].WriteCall? && !s'.threads[t].Off? ==> s'.threads[t].rest == s.threads[t].rest)
    && (s.threads[t].WriteCall? ==> (s'.threads[t].Off? <==> Of(s, e).closed || Of(s, o).closed))
  }

  lemma FillsPuts(s: State, t: nat, s': State)
    requires t < |s.threads| && s.threads[t].Filling? && Of(s, Other(s.threads[t].at)).dataready < MAX
    requires Fills(s, t, s')
    ensures |s'.threads| == |s.threads| && WriterPuts(s, t, s')
  {
    var e, rest := s.threads[t].at, s.threads[t].rest;
    var sister := Of(s, Other(e));
    var count := if MAX - sister.dataready > |rest| then |rest| else MAX - sister.dataready;
    assert rest == rest[..count] + rest[count..];
    assert (sister.sent + rest[..count]) + rest[count..] == sister.sent + (rest[..count] + rest[count..]);
  }

  lemma WriteSignalPuts(s: State, t: nat, wake: nat, s': State)
    requires t < |s.threads| && s.threads[t].WriteSignal? && WriterGoes(s, t, wake, s')
    ensures |s'.threads| == |s.threads| && WriterPuts(s, t, s')
  {
    var th := s.threads[t];
    var o := Other(th.at);
    if Of(s, o).sleepRead {
      SignalWakes(With(Move(s, t, Filling(th.at, th.rest)), o, Of(s, o).(sleepRead := false)), o, wake, s', t);
    }
  }

  lemma WriterStep(s: State, t: nat, wake: nat, s': State)
    requires t < |s.threads| && Writes(s.threads[t]) && WriterGoes(s, t, wake, s')
    ensures |s'.threads| == |s.threads| && WriterPuts(s, t, s')
  {
    var th := s.threads[t];
    if th.WriteSignal? {
      WriteSignalPuts(s, t, wake, s');
    } else if th.Filling? && th.rest != [] && Of(s, Other(th.at)).dataready < MAX {
      FillsPuts(s, t, s');
    }
  }

  /** A step of a read call: what it has taken grows by the bytes that leave the queue, at the cost of what
      it wants. It ends with nothing wanted or nothing there. No other bytes move. */
  ghost predicate ReaderTakes(s: State, t: nat, s': State)
    requires t < |s.threads| == |s'.threads| && Reads(s.threads[t])
  {
    var e, o := s.threads[t].at, Other(s.threads[t].at);
    && (s'.threads[t].Off? || (Reads(s'.threads[t]) && s'.threads[t].at == e))
    && Of(s, e).received <= Of(s', e).received && Of(s', e).sent == Of(s, e).sent
    && Of(s', o).sent == Of(s, o).sent && Of(s', o).received == Of(s, o).received
    && (!s'.threads[t].Off? ==>
          && GotOf(s'.threads[t]) == GotOf(s.threads[t]) + |More(Of(s, e).received, Of(s', e).received)|
          && WantOf(s'.threads[t]) + GotOf(s'.threads[t]) == WantOf(s.threads[t]) + GotOf(s.threads[t]))
    && (s'.threads[t].Off? ==> Of(s', e).received == Of(s, e).received && ReadEnds(s, s.threads[t]))
  }

  /** Where a read call may end: at the entry of a closed end, at the end of the stream, or after copying
      when it has all it wanted or nothing is queued any more. */
  ghost predicate ReadEnds(s: State, th: Thread)
    requires Reads(th)
  {
    || (th.ReadCall? && Of(s, th.at).closed)
    || (th.Testing? && Of(s, th.at).dataready == 0 && Of(s, Other(th.at)).closed)
    || (th.Copying? && (th.len == 0 || Of(s, th.at).queue == []))
  }

  lemma CopiesTakes(s: State, t: nat, s': State)
    requires t < |s.threads| && s.threads[t].Copying? && Of(s, s.threads[t].at).queue != [] && Copies(s, t, s')
    ensures |s'.threads| == |s.threads| && ReaderTakes(s, t, s')
  {
    var th := s.threads[t];
    var me := Of(s, th.at);
    var count := Least(th.len, |me.queue[0]|);
    assert More(me.received, Of(s', th.at).received) == me.queue[0][..count];
  }

  lemma ReadSignalTakes(s: State, t: nat, wake: nat, s': State)
    requires t < |s.threads| && s.threads[t].ReadSignal? && ReaderGoes(s, t, wake, s')
    ensures |s'.threads| == |s.threads| && ReaderTakes(s, t, s')
  {
    var th := s.threads[t];
    var o := Other(th.at);
    if Of(s, o).sleepWrite {
      var m := With(Move(s, t, Copying(th.at, th.len, th.got)), o, Of(s, o).(sleepWrite := false));
      SignalWakes(m, o, wake, s', t);
    }
  }

  lemma ReaderStep(s: State, t: nat, wake: nat, s': State)
    requires t < |s.threads| && Reads(s.threads[t]) && ReaderGoes(s, t, wake, s')
    ensures |s'.threads| == |s.threads| && ReaderTakes(s, t, s')
  {
    var th := s.threads[t];
    if th.ReadSignal? {
      ReadSignalTakes(s, t, wake, s');
    } else if th.Copying? && Of(s, th.at).queue != [] && th.len > 0 {
      CopiesTakes(s, t, s');
    }
  }

  /** A step of thread u changes the call of no other thread but to wake it. */
  lemma WriterLeavesOthers(s: State, u: nat, wake: nat, s': State, t: nat)
    requires u < |s.threads| && Writes(s.threads[u]) && WriterGoes(s, u, wake, s') && t < |s.threads| && t != u
    ensures |s'.threads| == |s.threads| && SameCall(s.threads[t], s'.threads[t])
  {
    var th := s.threads[u];
    var o := Other(th.at);
    if th.WriteSignal? && Of(s, o).sleepRead {
      SignalWakes(With(Move(s, u, Filling(th.at, th.rest)), o, Of(s, o).(sleepRead := false)), o, wake, s', t);
    }
  }

  lemma ReaderLeavesOthers(s: State, u: nat, wake: nat, s': State, t: nat)
    requires u < |s.threads| && Reads(s.threads[u]) && ReaderGoes(s, u, wake, s') && t < |s.threads| && t != u
    ensures |s'.threads| == |s.threads| && SameCall(s.threads[t], s'.threads[t])
  {
    var th := s.threads[u];
    var o := Other(th.at);
    if th.ReadSignal? && Of(s, o).sleepWrite {
      var m := With(Move(s, u, Copying(th.at, th.len, th.got)), o, Of(s, o).(sleepWrite := false));
      SignalWakes(m, o, wake, s', t);
    }
  }

  lemma CloseLeavesOthers(s: State, e: End, wake: nat, s': State, t: nat)
    requires Closes(s, e, wake, s') && t < |s.threads|
    ensures |s'.threads| == |s.threads| && SameCall(s.threads[t], s'.threads[t]) && SameBytes(s, s')
  {
    var c := With(s, e, Of(s, e).(closed := true));
    if s' != c { SignalWakes(c, Other(e), wake, s', t); }
  }

  /** What a step that is not its own does to a thread in a call. */
  lemma OthersLeave(s: State, a: Act, s': State, t: nat)
    requires Next(s, a, s') && t < |s.threads| && !s.threads[t].Off? && !OwnAct(a, t)
    ensures |s'.threads| == |s.threads| && SameCall(s.threads[t], s'.threads[t])
  {
    match a
    case Read(u, e, len) =>
    case Write(u, e, data) =>
    case Go(u, wake) =>
      if Reads(s.threads[u]) { ReaderLeavesOthers(s, u, wake, s', t); } else { WriterLeavesOthers(s, u, wake, s', t); }
    case Close(e, wake) => CloseLeavesOthers(s, e, wake, s', t);
    case Select(e, r, w) =>
  }

  /** Bytes are put into an end only by writes on the other end, and taken out only by reads on it. */
  lemma BytesMoveOnlySo(s: State, a: Act, s': State, e: End)
    requires Next(s, a, s')
    ensures Of(s, e).sent <= Of(s', e).sent && Of(s, e).received <= Of(s', e).received
    ensures !WritesHere(s, a, Other(e)) ==> Of(s', e).sent == Of(s, e).sent
    ensures !ReadsHere(s, a, e) ==> Of(s', e).received == Of(s, e).received
  {
    match a
    case Read(u, x, len) =>
    case Write(u, x, data) =>
    case Go(u, wake) => if Reads(s.threads[u]) { ReaderStep(s, u, wake, s'); } else { WriterStep(s, u, wake, s'); }
    case Close(x, wake) => if s' != With(s, x, Of(s, x).(closed := true)) { CloseKeepsBytes(s, x, wake, s'); }
    case Select(x, r, w) =>
  }

  lemma CloseKeepsBytes(s: State, e: End, wake: nat, s': State)
    requires Closes(s, e, wake, s')
    ensures SameBytes(s, s')
  {
  }

  /** The bytes that thread t puts into end e in the steps from lo to hi. */
  function Put(ss: seq<State>, acts: seq<Act>, lo: nat, hi: nat, t: nat, e: End): seq<Byte>
    requires lo <= hi <= |acts| < |ss|
  {
    if lo == hi then []
    else
      var before := Put(ss, acts, lo, hi - 1, t, e);
      if OwnAct(acts[hi - 1], t) then before + More(Of(ss[hi - 1], e).sent, Of(ss[hi], e).sent) else before
  }

  /** The bytes that it takes out. */
  function Got(ss: seq<State>, acts: seq<Act>, lo: nat, hi: nat, t: nat, e: End): seq<Byte>
    requires lo <= hi <= |acts| < |ss|
  {
    if lo == hi then []
    else
      var before := Got(ss, acts, lo, hi - 1, t, e);
      if OwnAct(acts[hi - 1], t) then before + More(Of(ss[hi - 1], e).received, Of(ss[hi], e).received) else before
  }

  /** Thread t starts a write of data on end e in step i and is in that call up to state j. */
  ghost predicate WriteCallOn(ss: seq<State>, acts: seq<Act>, i: nat, j: nat, t: nat, e: End, data: seq<Byte>) {
    && IsRun(ss, acts) && i < j < |ss| && acts[i] == Write(t, e, data)
    && Busy(ss, i, j + 1, t)
  }

  ghost predicate ReadCallOn(ss: seq<State>, acts: seq<Act>, i: nat, j: nat, t: nat, e: End, len: nat) {
    && IsRun(ss, acts) && i < j < |ss| && acts[i] == Read(t, e, len)
    && Busy(ss, i, j + 1, t)
  }

  /** One more step of a write call. */
  lemma PutsOn(s: State, a: Act, s': State, t: nat, e: End, put: seq<Byte>, data: seq<Byte>) returns (put': seq<Byte>)
    requires Next(s, a, s') && t < |s.threads| && Writes(s.threads[t]) && s.threads[t].at == e
    requires put + s.threads[t].rest == data && (s.threads[t].WriteCall? ==> put == [])
    ensures |s'.threads| == |s.threads|
    ensures put' == if OwnAct(a, t) then put + More(Of(s, Other(e)).sent, Of(s', Other(e)).sent) else put
    ensures !s'.threads[t].Off? ==> Writes(s'.threads[t]) && s'.threads[t].at == e
    ensures !s'.threads[t].Off? ==> put' + s'.threads[t].rest == data
    ensures !s'.threads[t].Off? && s'.threads[t].WriteCall? ==> put' == []
    ensures s'.threads[t].Off? && !s.threads[t].WriteCall? ==> put' == data
    ensures s'.threads[t].Off? && s.threads[t].WriteCall? ==>
      put' == [] && (Of(s, e).closed || Of(s, Other(e)).closed)
  {
    put' := put;
    if OwnAct(a, t) {
      WriterStep(s, t, a.wake, s');
      var x, y := Of(s, Other(e)).sent, Of(s', Other(e)).sent;
      put' := put + More(x, y);
      if s.threads[t].WriteCall? {
        assert More(x, y) == [];
      } else {
        PutsMore(x, y, put, s.threads[t].rest, RestOf(s'.threads[t]));
      }
    } else {
      OthersLeave(s, a, s', t);
    }
  }

  /** What was put in and what is left are the same together. */
  lemma PutsMore(x: seq<Byte>, y: seq<Byte>, put: seq<Byte>, rest: seq<Byte>, rest': seq<Byte>)
    requires x <= y && y + rest' == x + rest
    ensures (put + More(x, y)) + rest' == put + rest
  {
    var more := More(x, y);
    assert x + (more + rest') == x + rest;
    assert more + rest' == (x + (more + rest'))[|x|..] == (x + rest)[|x|..] == rest;
  }

  /** Whatever other calls are in progress, a write call has put in, in order, the bytes it was given up to
      those that are left. */
  lemma {:induction false} WritesItsData(ss: seq<State>, acts: seq<Act>, i: nat, j: nat, t: nat, e: End,
                                         data: seq<Byte>)
    requires WriteCallOn(ss, acts, i, j, t, e, data)
    ensures t < |ss[j].threads| && Writes(ss[j].threads[t]) && ss[j].threads[t].at == e
    ensures Put(ss, acts, i + 1, j, t, Other(e)) + ss[j].threads[t].rest == data
    ensures ss[j].threads[t].WriteCall? ==> Put(ss, acts, i + 1, j, t, Other(e)) == []
    decreases j
  {
    assert StepAt(ss, acts, j - 1);
    if j > i + 1 {
      WritesItsData(ss, acts, i, j - 1, t, e, data);
      var put' := PutsOn(ss[j - 1], acts[j - 1], ss[j], t, e, Put(ss, acts, i + 1, j - 1, t, Other(e)), data);
    }
  }

  /** A write call that returns after its entry checks has put in all of its data; one that returns at
      them was made on a closed or widowed end and has put in nothing. */
  lemma WriteReturns(ss: seq<State>, acts: seq<Act>, i: nat, j: nat, t: nat, e: End, data: seq<Byte>)
    requires WriteCallOn(ss, acts, i, j, t, e, data) && j < |acts|
    requires t < |ss[j + 1].threads| && ss[j + 1].threads[t].Off?
    ensures t < |ss[j].threads|
    ensures !ss[j].threads[t].WriteCall? ==> Put(ss, acts, i + 1, j + 1, t, Other(e)) == data
    ensures ss[j].threads[t].WriteCall? ==> Put(ss, acts, i + 1, j + 1, t, Other(e)) == []
    ensures ss[j].threads[t].WriteCall? ==> Of(ss[j], e).closed || Of(ss[j], Other(e)).closed
  {
    WritesItsData(ss, acts, i, j, t, e, data);
    assert StepAt(ss, acts, j);
    var put' := PutsOn(ss[j], acts[j], ss[j + 1], t, e, Put(ss, acts, i + 1, j, t, Other(e)), data);
  }

  /** Nobody but thread t writes on end e in the steps from lo to hi. */
  ghost predicate OnlyWriter(ss: seq<State>, acts: seq<Act>, lo: nat, hi: nat, t: nat, e: End)
    requires hi <= |acts| < |ss|
  {
    forall k :: lo <= k < hi && WritesHere(ss[k], acts[k], e) ==> acts[k].t == t
  }

  ghost predicate OnlyReader(ss: seq<State>, acts: seq<Act>, lo: nat, hi: nat, t: nat, e: End)
    requires hi <= |acts| < |ss|
  {
    forall k :: lo <= k < hi && ReadsHere(ss[k], acts[k], e) ==> acts[k].t == t
  }

  lemma OnlyWriterStep(s: State, a: Act, s': State, t: nat, e: End, base: seq<Byte>, put: seq<Byte>)
    requires Next(s, a, s') && (WritesHere(s, a, e) ==> a.t == t) && Of(s, Other(e)).sent == base + put
    ensures var more := More(Of(s, Other(e)).sent, Of(s', Other(e)).sent);
      Of(s', Other(e)).sent == base + if OwnAct(a, t) then put + more else put
  {
    BytesMoveOnlySo(s, a, s', Other(e));
    MoreAfter(Of(s, Other(e)).sent, Of(s', Other(e)).sent);
  }

  lemma OnlyReaderStep(s: State, a: Act, s': State, t: nat, e: End, base: seq<Byte>, got: seq<Byte>)
    requires Next(s, a, s') && (ReadsHere(s, a, e) ==> a.t == t) && Of(s, e).received == base + got
    ensures var more := More(Of(s, e).received, Of(s', e).received);
      Of(s', e).received == base + if OwnAct(a, t) then got + more else got
  {
    BytesMoveOnlySo(s, a, s', e);
    MoreAfter(Of(s, e).received, Of(s', e).received);
  }

  lemma {:induction false} OnlyWriterPuts(ss: seq<State>, acts: seq<Act>, lo: nat, hi: nat, t: nat, e: End)
    requires IsRun(ss, acts) && lo <= hi <= |acts| && OnlyWriter(ss, acts, lo, hi, t, e)
    ensures Of(ss[hi], Other(e)).sent == Of(ss[lo], Other(e)).sent + Put(ss, acts, lo, hi, t, Other(e))
    decreases hi
  {
    if lo < hi {
      OnlyWriterPuts(ss, acts, lo, hi - 1, t, e);
      assert StepAt(ss, acts, hi - 1);
      var base, put := Of(ss[lo], Other(e)).sent, Put(ss, acts, lo, hi - 1, t, Other(e));
      OnlyWriterStep(ss[hi - 1], acts[hi - 1], ss[hi], t, e, base, put);
    }
  }

  lemma {:induction false} OnlyReaderTakes(ss: seq<State>, acts: seq<Act>, lo: nat, hi: nat, t: nat, e: End)
    requires IsRun(ss, acts) && lo <= hi <= |acts| && OnlyReader(ss, acts, lo, hi, t, e)
    ensures Of(ss[hi], e).received == Of(ss[lo], e).received + Got(ss, acts, lo, hi, t, e)
    decreases hi
  {
    if lo < hi {
      OnlyReaderTakes(ss, acts, lo, hi - 1, t, e);
      assert StepAt(ss, acts, hi - 1);
      var base, got := Of(ss[lo], e).received, Got(ss, acts, lo, hi - 1, t, e);
      OnlyReaderStep(ss[hi - 1], acts[hi - 1], ss[hi], t, e, base, got);
    }
  }

  /** A write call with nobody else writing on its end: what was put into the other end since is its data
      up to what is left. */
  lemma AloneWrites(ss: seq<State>, acts: seq<Act>, i: nat, j: nat, t: nat, e: End, data: seq<Byte>)
    requires WriteCallOn(ss, acts, i, j, t, e, data) && OnlyWriter(ss, acts, i, j, t, e)
    ensures t < |ss[j].threads| && Writes(ss[j].threads[t]) && |ss[j].threads[t].rest| <= |data|
    ensures Of(ss[j], Other(e)).sent == Of(ss[i], Other(e)).sent + data[..|data| - |ss[j].threads[t].rest|]
  {
    WritesItsData(ss, acts, i, j, t, e, data);
    var o := Other(e);
    OnlyWriterPuts(ss, acts, i + 1, j, t, e);
    assert StepAt(ss, acts, i);
    BytesMoveOnlySo(ss[i], acts[i], ss[i + 1], o);
    assert data[..|data| - |ss[j].threads[t].rest|] == Put(ss, acts, i + 1, j, t, o);
  }

  /** One more step of a read call. */
  lemma TakesOn(s: State, a: Act, s': State, t: nat, e: End, got: seq<Byte>, len: nat) returns (got': seq<Byte>)
    requires Next(s, a, s') && t < |s.threads| && Reads(s.threads[t]) && s.threads[t].at == e
    requires |got| == GotOf(s.threads[t]) && |got| + WantOf(s.threads[t]) == len
    ensures |s'.threads| == |s.threads|
    ensures got' == if OwnAct(a, t) then got + More(Of(s, e).received, Of(s', e).received) else got
    ensures !s'.threads[t].Off? ==> Reads(s'.threads[t]) && s'.threads[t].at == e
    ensures !s'.threads[t].Off? ==> |got'| == GotOf(s'.threads[t]) && |got'| + WantOf(s'.threads[t]) == len
    ensures s'.threads[t].Off? ==> got' == got && ReadEnds(s, s.threads[t])
  {
    got' := got;
    if OwnAct(a, t) {
      ReaderStep(s, t, a.wake, s');
      got' := got + More(Of(s, e).received, Of(s', e).received);
    } else {
      OthersLeave(s, a, s', t);
    }
  }

  /** Whatever other calls are in progress, a read call knows how many bytes it has taken, and wants the
      rest of what it was asked for. */
  lemma {:induction false} ReadsUpTo(ss: seq<State>, acts: seq<Act>, i: nat, j: nat, t: nat, e: End, len: nat)
    requires ReadCallOn(ss, acts, i, j, t, e, len)
    ensures t < |ss[j].threads| && Reads(ss[j].threads[t]) && ss[j].threads[t].at == e
    ensures |Got(ss, acts, i + 1, j, t, e)| == GotOf(ss[j].threads[t])
    ensures |Got(ss, acts, i + 1, j, t, e)| + WantOf(ss[j].threads[t]) == len
    decreases j
  {
    assert StepAt(ss, acts, j - 1);
    if j > i + 1 {
      ReadsUpTo(ss, acts, i, j - 1, t, e, len);
      var got' := TakesOn(ss[j - 1], acts[j - 1], ss[j], t, e, Got(ss, acts, i + 1, j - 1, t, e), len);
    }
  }

  /** A read call that returns has all the bytes it was asked for, or left its queue empty, or was made on a
      closed end. One that has none and was asked for some was made on a closed end or found the end of
      the stream. */
  lemma ReadReturns(ss: seq<State>, acts: seq<Act>, i: nat, j: nat, t: nat, e: End, len: nat)
    requires ReadCallOn(ss, acts, i, j, t, e, len) && j < |acts|
    requires t < |ss[j + 1].threads| && ss[j + 1].threads[t].Off?
    ensures var got := Got(ss, acts, i + 1, j + 1, t, e);
      && |got| <= len
      && (|got| == len || Of(ss[j], e).queue == [] || Of(ss[j], e).closed)
      && (got == [] && len > 0 ==> Of(ss[j], e).closed || (Of(ss[j], e).queue == [] && Of(ss[j], Other(e)).closed))
  {
    ReadsUpTo(ss, acts, i, j, t, e, len);
    assert StepAt(ss, acts, j);
    var got := TakesOn(ss[j], acts[j], ss[j + 1], t, e, Got(ss, acts, i + 1, j, t, e), len);
    InvAlways(ss, acts, j);
    var th := ss[j].threads[t];
    FlattenEmpty(Of(ss[j], e).queue);
    assert CanCopy(ss[j], th);
  }

  /** The first write on an end, with nobody else writing there: whatever is read on the other end, by
      however many readers, is the beginning of the data, in order. */
  lemma DeliversData(ss: seq<State>, acts: seq<Act>, i: nat, j: nat, t: nat, e: End, data: seq<Byte>)
    requires WriteCallOn(ss, acts, i, j, t, e, data) && OnlyWriter(ss, acts, i, j, t, e)
    requires forall k :: 0 <= k < i ==> !WritesHere(ss[k], acts[k], e)
    ensures Of(ss[j], Other(e)).received <= data
    ensures Of(ss[j], Other(e)).received + Flatten(Of(ss[j], Other(e)).queue) <= data
  {
    AloneWrites(ss, acts, i, j, t, e, data);
    NothingPut(ss, acts, i, t, e);
    BytesConserved(ss, acts, j, Other(e));
    var h := Of(ss[j], Other(e));
    assert h.sent <= data && h.received <= h.sent;
  }

  lemma {:induction false} NothingPut(ss: seq<State>, acts: seq<Act>, i: nat, t: nat, e: End)
    requires IsRun(ss, acts) && i <= |acts| && forall k :: 0 <= k < i ==> !WritesHere(ss[k], acts[k], e)
    ensures Of(ss[i], Other(e)).sent == []
  {
    if i > 0 {
      NothingPut(ss, acts, i - 1, t, e);
      assert StepAt(ss, acts, i - 1);
      BytesMoveOnlySo(ss[i - 1], acts[i - 1], ss[i], Other(e));
    }
  }

  /** The lock is dropped after a round exactly when a listener of the other end waits for it. */
  lemma DropsLockForListeners(s: State, t: nat, wake: nat, s': State)
    requires Next(s, Go(t, wake), s') && (s.threads[t].Drained? || s.threads[t].Filled?)
    ensures s.threads[t].Drained? ==> (s'.lock.None? <==> Of(s, Other(s.threads[t].at)).writeSel)
    ensures s.threads[t].Filled? ==> (s'.lock.None? <==> Of(s, Other(s.threads[t].at)).readSel)
  {
  }
}
