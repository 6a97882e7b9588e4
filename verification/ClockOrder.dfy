/** The order in which queued timers are notified: by the count they are due in, and of two that are due in
    the same count the one that was armed later comes first. */
module ClockOrder {
  import opened Callout
  import opened ClockMachine

  /** Timer x stands in the queue in front of timer y. */
  predicate Before(q: seq<Slot>, x: nat, y: nat) {
    q != [] && q[0].id != y && ((q[0].id == x && Has(q[1..], y)) || (q[0].id != x && Before(q[1..], x, y)))
  }

  lemma {:induction false} BeforeHas(q: seq<Slot>, x: nat, y: nat)
    requires Before(q, x, y)
    ensures Has(q, x) && Has(q, y) && x != y
  {
    if q[0].id != x { BeforeHas(q[1..], x, y); }
  }

  /** A timer that is inserted stands in front of those that have at least its ticks remaining. */
  lemma {:induction false} InsertedBefore(q: seq<Slot>, id: nat, ticks: int, y: nat)
    requires OverdueFirst(q) && !Has(q, id) && Has(q, y) && 0 <= ticks <= Remaining(q, y)
    requires ticks > 0 || NonNegative(q)
    ensures Before(Insert(q, id, ticks), id, y)
  {
    var r := Insert(q, id, ticks);
    if ticks <= q[0].left {
      var t := [Slot(q[0].id, q[0].left - ticks)] + q[1..];
      assert r[1..] == t && t[1..] == q[1..];
    } else {
      assert r[1..] == Insert(q[1..], id, ticks - Positive(q[0].left));
      InsertedBefore(q[1..], id, ticks - Positive(q[0].left), y);
    }
  }

  /** It stands behind those that have fewer. */
  lemma {:induction false} InsertedBehind(q: seq<Slot>, id: nat, ticks: int, y: nat)
    requires OverdueFirst(q) && !Has(q, id) && Has(q, y) && Remaining(q, y) < ticks
    ensures Before(Insert(q, id, ticks), y, id)
  {
    var r, left := Insert(q, id, ticks), ticks - Positive(q[0].left);
    assert r[1..] == Insert(q[1..], id, left);
    if q[0].id == y {
      InsertMeans(q[1..], id, left, id);
    } else {
      InsertedBehind(q[1..], id, left, y);
    }
  }

  /** Others keep their order, whatever the ticks. */
  lemma {:induction false} InsertKeepsOrder(q: seq<Slot>, id: nat, ticks: int, x: nat, y: nat)
    requires Before(q, x, y) && id != x && id != y
    ensures Before(Insert(q, id, ticks), x, y)
  {
    var r := Insert(q, id, ticks);
    if ticks <= q[0].left {
      var t := [Slot(q[0].id, q[0].left - ticks)] + q[1..];
      assert r[1..] == t && t[1..] == q[1..];
    } else {
      assert r[1..] == Insert(q[1..], id, ticks - Positive(q[0].left));
      if q[0].id == x {
        InsertKeepsHas(q[1..], id, ticks - Positive(q[0].left), y);
      } else {
        InsertKeepsOrder(q[1..], id, ticks - Positive(q[0].left), x, y);
      }
    }
  }

  lemma {:induction false} InsertKeepsHas(q: seq<Slot>, id: nat, ticks: int, y: nat)
    requires Has(q, y)
    ensures Has(Insert(q, id, ticks), y)
  {
    var r := Insert(q, id, ticks);
    if ticks <= q[0].left {
      var t := [Slot(q[0].id, q[0].left - ticks)] + q[1..];
      assert r[1..] == t && t[1..] == q[1..];
    } else {
      assert r[1..] == Insert(q[1..], id, ticks - Positive(q[0].left));
      if q[0].id != y { InsertKeepsHas(q[1..], id, ticks - Positive(q[0].left), y); }
    }
  }

  lemma {:induction false} DeleteKeepsOrder(q: seq<Slot>, id: nat, x: nat, y: nat)
    requires Before(q, x, y) && id != x && id != y
    ensures Before(Delete(q, id), x, y)
  {
    var r := Delete(q, id);
    if q[0].id != id {
      assert r[1..] == Delete(q[1..], id);
      if q[0].id == x {
        DeleteKeepsHas(q[1..], id, y);
      } else {
        DeleteKeepsOrder(q[1..], id, x, y);
      }
    } else if |q| > 1 && q[0].left > 0 {
      assert q[1..][1..] == q[2..] && r[1..] == q[2..];
    }
  }

  lemma {:induction false} DeleteKeepsHas(q: seq<Slot>, id: nat, y: nat)
    requires Has(q, y) && id != y
    ensures Has(Delete(q, id), y)
  {
    var r := Delete(q, id);
    if q[0].id != id {
      assert r[1..] == Delete(q[1..], id);
      if q[0].id != y { DeleteKeepsHas(q[1..], id, y); }
    } else if |q| > 1 && q[0].left > 0 {
      assert q[1..][1..] == q[2..] && r[1..] == q[2..];
    }
  }

  lemma {:induction false} CountKeepsOrder(q: seq<Slot>, x: nat, y: nat)
    requires Before(q, x, y)
    ensures Before(CountDown(q), x, y)
  {
    var r := CountDown(q);
    if q[0].left > 0 {
      assert r[1..] == q[1..];
    } else {
      assert r[1..] == CountDown(q[1..]);
      if q[0].id == x { CountKeepsHas(q[1..], y); } else { CountKeepsOrder(q[1..], x, y); }
    }
  }

  lemma {:induction false} CountKeepsHas(q: seq<Slot>, y: nat)
    requires Has(q, y)
    ensures Has(CountDown(q), y)
  {
    var r := CountDown(q);
    if q[0].left > 0 {
      assert r[1..] == q[1..];
    } else {
      assert r[1..] == CountDown(q[1..]);
      if q[0].id != y { CountKeepsHas(q[1..], y); }
    }
  }

  /** Every step that touches neither timer, and in which the one in front does not expire, keeps them in
      order; the one behind does not expire in it. */
  lemma OrderNext(s: State, a: Act, t: State, x: nat, y: nat)
    requires Inv(s) && Next(s, a, t) && Before(s.callout, x, y)
    requires !Touches(a, x) && !Touches(a, y) && !Expires(s, a, x)
    ensures Before(t.callout, x, y) && !Expires(s, a, y)
  {
    BeforeHas(s.callout, x, y);
    match a
    case TickStart =>
    case SyncNext =>
    case Count => CountKeepsOrder(s.callout, x, y);
    case Pop =>
    case Reload =>
      if ReloadOf(s, s.phase.cur) > 1 { InsertKeepsOrder(s.callout, s.phase.cur, ReloadOf(s, s.phase.cur), x, y); }
    case EndTick =>
    case Disarm(id) => if Has(s.callout, id) { DeleteKeepsOrder(s.callout, id, x, y); }
    case Put(id, left, reload) =>
      if left != 1 || left != reload { InsertKeepsOrder(s.callout, id, left, x, y); }
  }

  /** Timers x and y are not set or removed from state i to state j, and x does not expire. */
  ghost predicate LeftAlone(ss: seq<State>, acts: seq<Act>, i: nat, j: nat, x: nat, y: nat) {
    && Run(ss, acts) && i <= j <= |acts|
    && forall k: nat {:trigger acts[k]} :: i <= k < j ==>
         !Touches(acts[k], x) && !Touches(acts[k], y) && !Expires(ss[k], acts[k], x)
  }

  /** In every run, the timer behind does not expire before the timer in front. */
  lemma {:induction false} ExpireInOrder(ss: seq<State>, acts: seq<Act>, i: nat, j: nat, x: nat, y: nat)
    requires LeftAlone(ss, acts, i, j, x, y) && Before(ss[i].callout, x, y)
    ensures Before(ss[j].callout, x, y)
    ensures j < |acts| ==> !Expires(ss[j], acts[j], y)
    decreases j
  {
    if i < j {
      ExpireInOrder(ss, acts, i, j - 1, x, y);
      InvAlways(ss, acts, j - 1);
      assert Next(ss[j - 1], acts[j - 1], ss[j]);
      OrderNext(ss[j - 1], acts[j - 1], ss[j], x, y);
    }
    BeforeHas(ss[j].callout, x, y);
    FrontFirst(ss[j].callout, x, y);
  }

  lemma FrontFirst(q: seq<Slot>, x: nat, y: nat)
    requires Before(q, x, y)
    ensures q[0].id != y
  {
  }

  /** Timer x is put on the queue in step i, when timer y is there. */
  ghost predicate Joins(ss: seq<State>, acts: seq<Act>, i: nat, x: nat, n: int, reload: int, y: nat) {
    && Run(ss, acts) && i < |acts| && acts[i] == Put(x, n, reload) && n >= 1 && !(n == 1 && reload == 1)
    && Has(ss[i].callout, y)
  }

  /** A timer armed for no more ticks than another has remaining expires before the other: the one armed
      later comes first when both are due in the same count. */
  lemma LaterArmedFirst(ss: seq<State>, acts: seq<Act>, i: nat, j: nat, x: nat, n: int, reload: int, y: nat)
    requires Joins(ss, acts, i, x, n, reload, y) && n <= Remaining(ss[i].callout, y)
    requires LeftAlone(ss, acts, i + 1, j, x, y)
    ensures Has(ss[j].callout, x) && Has(ss[j].callout, y)
    ensures j < |acts| ==> !Expires(ss[j], acts[j], y)
  {
    InvAlways(ss, acts, i);
    assert Next(ss[i], acts[i], ss[i + 1]);
    InsertedBefore(ss[i].callout, x, n, y);
    ExpireInOrder(ss, acts, i + 1, j, x, y);
    BeforeHas(ss[j].callout, x, y);
  }

  /** A timer armed for more ticks than another has remaining expires after it. */
  lemma EarlierDueFirst(ss: seq<State>, acts: seq<Act>, i: nat, j: nat, x: nat, n: int, reload: int, y: nat)
    requires Joins(ss, acts, i, x, n, reload, y) && Remaining(ss[i].callout, y) < n
    requires LeftAlone(ss, acts, i + 1, j, y, x)
    ensures Has(ss[j].callout, x) && Has(ss[j].callout, y)
    ensures j < |acts| ==> !Expires(ss[j], acts[j], x)
  {
    InvAlways(ss, acts, i);
    assert Next(ss[i], acts[i], ss[i + 1]);
    InsertedBehind(ss[i].callout, x, n, y);
    ExpireInOrder(ss, acts, i + 1, j, y, x);
    BeforeHas(ss[j].callout, y, x);
  }
}
