/** The callout queue of dev/clock.c as a value: each slot holds the ticks left after the slots
    before it. A queue stands for the ticks remaining on each of its timers. */
module Callout {
  /** A queued timer: its name and its `left` field. */
  datatype Slot = Slot(id: nat, left: int)

  function Positive(x: int): nat {
    if x > 0 then x else 0
  }

  predicate Has(q: seq<Slot>, id: nat) {
    q != [] && (q[0].id == id || Has(q[1..], id))
  }

  /** The ticks remaining on a queued timer. */
  function Remaining(q: seq<Slot>, id: nat): nat
    requires Has(q, id)
  {
    Positive(q[0].left) + if q[0].id == id then 0 else Remaining(q[1..], id)
  }

  ghost predicate Unique(q: seq<Slot>) {
    q == [] || (!Has(q[1..], q[0].id) && Unique(q[1..]))
  }

  ghost predicate NonNegative(q: seq<Slot>) {
    q == [] || (q[0].left >= 0 && NonNegative(q[1..]))
  }

  /** Overdue slots stand in front of all others. */
  ghost predicate OverdueFirst(q: seq<Slot>) {
    q == [] || (OverdueFirst(q[1..]) && (q[0].left >= 0 ==> NonNegative(q[1..])))
  }

  lemma {:induction false} NonNegativeIsOverdueFirst(q: seq<Slot>)
    requires NonNegative(q)
    ensures OverdueFirst(q)
  {
    if q != [] { NonNegativeIsOverdueFirst(q[1..]); }
  }

  /** What add_oneshot_timer makes of the queue. */
  function Insert(q: seq<Slot>, id: nat, ticks: int): seq<Slot> {
    if q == [] then [Slot(id, ticks)]
    else if ticks <= q[0].left then [Slot(id, ticks), Slot(q[0].id, q[0].left - ticks)] + q[1..]
    else [q[0]] + Insert(q[1..], id, ticks - Positive(q[0].left))
  }

  /** What remove_oneshot_timer makes of the queue. */
  function Delete(q: seq<Slot>, id: nat): seq<Slot> {
    if q == [] then []
    else if q[0].id != id then [q[0]] + Delete(q[1..], id)
    else if |q| > 1 && q[0].left > 0 then [Slot(q[1].id, q[1].left + q[0].left)] + q[2..]
    else q[1..]
  }

  /** What the first loop of a tick makes of the queue. */
  function CountDown(q: seq<Slot>): seq<Slot> {
    if q == [] then []
    else if q[0].left > 0 then [Slot(q[0].id, q[0].left - 1)] + q[1..]
    else [Slot(q[0].id, q[0].left - 1)] + CountDown(q[1..])
  }

  /** After an insertion the new timer has its ticks remaining, every other what it had before. */
  lemma {:induction false} InsertMeans(q: seq<Slot>, id: nat, ticks: int, x: nat)
    requires OverdueFirst(q) && !Has(q, id) && ticks >= 0
    ensures var r := Insert(q, id, ticks);
      && OverdueFirst(r)
      && (NonNegative(q) ==> NonNegative(r))
      && (Has(r, x) <==> x == id || Has(q, x))
      && (Has(r, id) && Remaining(r, id) == ticks)
      && (Has(q, x) ==> Remaining(r, x) == Remaining(q, x))
  {
    if q != [] {
      if ticks <= q[0].left {
        var r, t := Insert(q, id, ticks), [Slot(q[0].id, q[0].left - ticks)] + q[1..];
        assert r[1..] == t && t[1..] == q[1..];
        NonNegativeIsOverdueFirst(t);
      } else {
        InsertMeans(q[1..], id, ticks - Positive(q[0].left), x);
      }
    }
  }

  lemma {:induction false} InsertUnique(q: seq<Slot>, id: nat, ticks: int)
    requires OverdueFirst(q) && Unique(q) && !Has(q, id) && ticks >= 0
    ensures Unique(Insert(q, id, ticks))
  {
    if q != [] {
      if ticks <= q[0].left {
        var r, t := Insert(q, id, ticks), [Slot(q[0].id, q[0].left - ticks)] + q[1..];
        assert r[1..] == t && t[1..] == q[1..];
      } else {
        InsertUnique(q[1..], id, ticks - Positive(q[0].left));
        InsertMeans(q[1..], id, ticks - Positive(q[0].left), q[0].id);
      }
    }
  }

  /** A removal takes its timer out and leaves every other what it had before. */
  lemma {:induction false} DeleteMeans(q: seq<Slot>, id: nat, x: nat)
    requires OverdueFirst(q) && Unique(q)
    ensures var r := Delete(q, id);
      && OverdueFirst(r)
      && (NonNegative(q) ==> NonNegative(r))
      && (Has(r, x) <==> x != id && Has(q, x))
      && (Has(r, x) ==> Remaining(r, x) == Remaining(q, x))
  {
    if q != [] {
      if q[0].id != id {
        DeleteMeans(q[1..], id, x);
      } else if |q| > 1 && q[0].left > 0 {
        assert q[1..][0] == q[1] && q[1..][1..] == q[2..];
        assert Delete(q, id)[1..] == q[2..];
      }
    }
  }

  lemma {:induction false} DeleteUnique(q: seq<Slot>, id: nat)
    requires OverdueFirst(q) && Unique(q)
    ensures Unique(Delete(q, id))
  {
    if q != [] {
      if q[0].id != id {
        DeleteUnique(q[1..], id);
        DeleteMeans(q[1..], id, q[0].id);
      } else if |q| > 1 && q[0].left > 0 {
        assert q[1..][0] == q[1] && q[1..][1..] == q[2..];
        assert Delete(q, id)[1..] == q[2..];
      }
    }
  }

  /** A timer that is not queued is not touched by a removal. */
  lemma {:induction false} DeleteAbsent(q: seq<Slot>, id: nat)
    requires !Has(q, id)
    ensures Delete(q, id) == q
  {
    if q != [] { DeleteAbsent(q[1..], id); }
  }

  /** The count takes one tick off every timer that has one left. */
  lemma {:induction false} CountDownMeans(q: seq<Slot>, x: nat)
    requires NonNegative(q)
    ensures var r := CountDown(q);
      && OverdueFirst(r)
      && (Has(r, x) <==> Has(q, x))
      && (Has(q, x) ==> Remaining(r, x) == Positive(Remaining(q, x) - 1))
  {
    if q != [] {
      if q[0].left > 0 {
        NonNegativeIsOverdueFirst(q[1..]);
      } else {
        CountDownMeans(q[1..], x);
      }
    }
  }

  lemma {:induction false} CountDownUnique(q: seq<Slot>)
    requires NonNegative(q) && Unique(q)
    ensures Unique(CountDown(q))
  {
    if q != [] && q[0].left <= 0 {
      CountDownUnique(q[1..]);
      CountDownMeans(q[1..], q[0].id);
    }
  }

  /** Once the first slot is not due, no timer is. */
  lemma {:induction false} NoneDue(q: seq<Slot>, x: nat)
    requires OverdueFirst(q) && (q == [] || q[0].left > 0)
    ensures NonNegative(q)
    ensures Has(q, x) ==> Remaining(q, x) > 0
  {
  }

  /** r leaves timer x of q alone. */
  ghost predicate KeptBy(q: seq<Slot>, r: seq<Slot>, x: nat) {
    Has(q, x) ==> Has(r, x) && Remaining(r, x) == Remaining(q, x)
  }

  ghost predicate AllKept(q: seq<Slot>, r: seq<Slot>) {
    forall x :: KeptBy(q, r, x)
  }

  /** Insertion leaves the other timers alone exactly when the ticks are not negative or there is
      no other timer. */
  lemma InsertKeepsOthersIff(q: seq<Slot>, id: nat, ticks: int)
    requires NonNegative(q) && Unique(q) && !Has(q, id)
    ensures AllKept(q, Insert(q, id, ticks)) <==> ticks >= 0 || q == []
  {
    NonNegativeIsOverdueFirst(q);
    if ticks >= 0 {
      forall x ensures KeptBy(q, Insert(q, id, ticks), x) {
        InsertMeans(q, id, ticks, x);
      }
    } else if q != [] {
      var r, x := Insert(q, id, ticks), q[0].id;
      assert r[1..] == [Slot(x, q[0].left - ticks)] + q[1..];
      assert Remaining(r, x) == Remaining(q, x) - ticks;
      assert !KeptBy(q, r, x);
    }
  }
}
